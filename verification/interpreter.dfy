/** The evaluation engine (interpreter.go): execute a record's mechanisms in
    order against an IP, stop at the first verdict other than `None`, abort
    on the first error, and follow `include`/`redirect` with a depth budget. */
module SpfInterpreter {
  import opened SpfTypes
  import opened SpfParser
  import opened SpfLookup

  /** The macro the `exists` mechanism expands. */
  const MacroI: string := "%{i}"

  /** No occurrence of the macro starts anywhere in `s`. */
  predicate NoMacro(s: string) {
    forall j :: 0 <= j < |s| ==> !(MacroI <= s[j..])
  }

  /** `strings.Replace(value, "%{i}", text, -1)`: every occurrence, left to
      right, without overlap. */
  function ExpandIp(s: string, text: string): (r: string)
    decreases |s|
    ensures NoMacro(s) ==> r == s
    ensures s == MacroI ==> r == text
  {
    if s == [] then []
    else if MacroI <= s then
      assert s[0] == '%' && s[0..] == s;
      text + ExpandIp(s[|MacroI|..], text)
    else
      assert [s[0]] + s[1..] == s;
      assert forall j :: 0 <= j < |s| - 1 ==> s[1..][j..] == s[j + 1..];
      [s[0]] + ExpandIp(s[1..], text)
  }

  /** How a matcher's answer becomes a verdict: a match asserts the
      mechanism's qualifier, no match is `None`, and an error is passed on
      (never read as a non-match). */
  function Decide(q: Qualifier, matched: Result<bool>): (r: Result<Qualifier>)
    ensures matched.Err? <==> r.Err?
    ensures r.Err? ==> r.error == matched.error
    ensures r.Ok? ==> (r.value == q <==> matched.value || q == None) && (r.value == None || r.value == q)
  {
    match matched
    case Err(e) => Err(e)
    case Ok(true) => Ok(q)
    case Ok(false) => Ok(None)
  }

  /** `MatchIPWithCIDR` as an oracle; an invalid CIDR text is an error. */
  function MatchIpWithCidr(env: Env, ip: Ip, cidr: string): (r: Result<bool>)
    ensures env.cidr(ip, cidr).BadCidr? <==> r.Err?
    ensures r.Err? ==> r.error == External(env.cidr(ip, cidr).detail)
    ensures r.Ok? ==> r.value == env.cidr(ip, cidr).inside
  {
    match env.cidr(ip, cidr)
    case Contains(b) => Ok(b)
    case BadCidr(detail) => Err(External(detail))
  }

  /** The `exists` mechanism: it matches when the expanded name's first A
      answer carries an address. The library returns that answer's address
      and the code tests it against nil, so a first A answer without an
      address (length zero here) does not match, and later A answers are
      never consulted. */
  function ExistsVerdict(env: Env, ip: Ip, m: Mechanism): (r: Result<Qualifier>)
    ensures r.Err? <==> env.exchange(ExpandIp(m.value, env.ipText(ip)), QA).Failed?
    ensures r.Err? ==> r.error == External(env.exchange(ExpandIp(m.value, env.ipText(ip)), QA).detail)
    ensures r.Ok? ==> r.value == m.qualifier || r.value == None
    ensures r.Ok? ==>
      var answers := env.exchange(ExpandIp(m.value, env.ipText(ip)), QA).answers;
      && ((exists i :: FirstAAt(answers, i) && answers[i].addr != []) ==> r.value == m.qualifier)
      && ((forall i :: FirstAAt(answers, i) ==> answers[i].addr == []) ==> r.value == None)
  {
    match LookupARec(env, ExpandIp(m.value, env.ipText(ip)))
    case Err(e) => Err(e)
    case Ok(Nothing) => Ok(None)
    case Ok(Some(a)) => if a == [] then Ok(None) else Ok(m.qualifier)
  }

  /** Kinds that consult another record. */
  predicate Recurses(k: Kind) {
    k == Include || k == Redirect
  }

  /** `ExecuteMechanism`. Only an include or redirect spends budget; at
      budget 0 it fails before any lookup. */
  function Execute(env: Env, ip: Ip, m: Mechanism, depth: nat): (r: Result<Qualifier>)
    decreases depth, 1
    ensures !Recurses(m.kind) && r.Ok? ==> r.value == m.qualifier || r.value == None
    ensures r == Err(OutOfRecursions) ==> Recurses(m.kind)
    ensures m.kind == All ==> r == Ok(m.qualifier)
    ensures m.kind.Unknown? ==> r == Ok(None)
    ensures m.kind == Ip4 || m.kind == Ip6 ==> r == Decide(m.qualifier, MatchIpWithCidr(env, ip, m.value))
    ensures m.kind == A ==> r == Decide(m.qualifier, MatchIpWithARec(env, ip, m.value))
    ensures m.kind == Mx ==> r == Decide(m.qualifier, MatchIpWithMxRec(env, ip, m.value))
    ensures m.kind == Ptr ==> r == Decide(m.qualifier, MatchIpWithPtrRec(env, ip, m.value))
    ensures m.kind == Exists ==> r == ExistsVerdict(env, ip, m)
    ensures Recurses(m.kind) ==> r == Follow(env, ip, m.value, depth)
  {
    match m.kind
    case All => Ok(m.qualifier)
    case Ip4 => Decide(m.qualifier, MatchIpWithCidr(env, ip, m.value))
    case Ip6 => Decide(m.qualifier, MatchIpWithCidr(env, ip, m.value))
    case A => Decide(m.qualifier, MatchIpWithARec(env, ip, m.value))
    case Mx => Decide(m.qualifier, MatchIpWithMxRec(env, ip, m.value))
    case Ptr => Decide(m.qualifier, MatchIpWithPtrRec(env, ip, m.value))
    case Exists => ExistsVerdict(env, ip, m)
    case Include => Follow(env, ip, m.value, depth)
    case Redirect => Follow(env, ip, m.value, depth)
    case Unknown(_) => Ok(None)
  }

  /** The shared include/redirect branch: check the budget, fetch and parse
      the named record, and run it one level deeper. The directive's own
      qualifier is not an argument: the Go loop variable shadows it. */
  function Follow(env: Env, ip: Ip, domain: string, depth: nat): (r: Result<Qualifier>)
    decreases depth, 0
    ensures depth == 0 ==> r == Err(OutOfRecursions)
    ensures LookupSpf(env, domain).Err? && depth > 0 ==> r == Err(LookupSpf(env, domain).error)
    ensures depth > 0 && LookupSpf(env, domain).Ok? && ParseSpf(LookupSpf(env, domain).value).Err? ==>
      r == Err(ParseSpf(LookupSpf(env, domain).value).error)
  {
    if depth == 0 then Err(OutOfRecursions)
    else
      var rec :- Fetch(env, domain);
      Included(env, ip, rec, depth - 1)
  }

  /** Look up the record of a domain and parse it. A lookup failure is
      passed on; a parse failure is never `nospf`, since the lookup only
      returns text that carries the marker. */
  function Fetch(env: Env, domain: string): (r: Result<Record>)
    ensures LookupSpf(env, domain).Err? ==> r == Err(LookupSpf(env, domain).error)
    ensures LookupSpf(env, domain).Ok? ==> r == ParseSpf(LookupSpf(env, domain).value)
    ensures r.Err? ==> r.error != NoSpf
    ensures r.Ok? ==> Grouped(r.value)
  {
    var spf :- LookupSpf(env, domain);
    ParseSpf(spf)
  }

  /** The loop over an included record: the first inner verdict other than
      `None` wins, but when the inner mechanism that produced it is not a
      Pass mechanism, its own qualifier is returned instead. */
  function Included(env: Env, ip: Ip, rec: Record, depth: nat): (r: Result<Qualifier>)
    decreases depth, 2, |rec|
    ensures r == Err(OutOfRecursions) ==> exists i :: 0 <= i < |rec| && Recurses(rec[i].kind)
    ensures r.Ok? && r.value != None ==>
      exists i :: 0 <= i < |rec| && (r.value == rec[i].qualifier || (rec[i].qualifier == Pass && Recurses(rec[i].kind)))
  {
    if rec == [] then Ok(None)
    else
      var v :- Execute(env, ip, rec[0], depth);
      if v != None then Ok(if rec[0].qualifier != Pass then rec[0].qualifier else v)
      else
        var r := Included(env, ip, rec[1..], depth);
        assert forall i :: 1 <= i < |rec| ==> rec[i] == rec[1..][i - 1];
        r
  }

  /** No mechanism among the first `n` of `rec` produces anything but `None`. */
  predicate Silent(env: Env, ip: Ip, rec: Record, depth: nat, n: int)
    requires 0 <= n <= |rec|
  {
    forall j :: 0 <= j < n ==> Execute(env, ip, rec[j], depth) == Ok(None)
  }

  /** The loop of `ValidateIP`: the first verdict other than `None`, or the
      first error, in record order; `None` when every mechanism is silent. */
  function Evaluate(env: Env, ip: Ip, rec: Record, depth: nat): (r: Result<Qualifier>)
    ensures r == Ok(None) <==> Silent(env, ip, rec, depth, |rec|)
    ensures r != Ok(None) ==>
      exists i :: 0 <= i < |rec| && Silent(env, ip, rec, depth, i) && Execute(env, ip, rec[i], depth) == r
  {
    if rec == [] then Ok(None)
    else
      var v := Execute(env, ip, rec[0], depth);
      if v != Ok(None) then
        assert Silent(env, ip, rec, depth, 0);
        v
      else
        var r := Evaluate(env, ip, rec[1..], depth);
        SilentCons(env, ip, rec, depth);
        r
  }

  /** Silence of a list is silence of its head and of its tail. */
  lemma SilentCons(env: Env, ip: Ip, rec: Record, depth: nat)
    requires rec != [] && Execute(env, ip, rec[0], depth) == Ok(None)
    ensures forall n :: 0 <= n < |rec| ==>
      (Silent(env, ip, rec, depth, n + 1) <==> Silent(env, ip, rec[1..], depth, n))
  {
    forall n | 0 <= n < |rec|
      ensures Silent(env, ip, rec, depth, n + 1) <==> Silent(env, ip, rec[1..], depth, n)
    {
      assert forall j :: 1 <= j < n + 1 ==> rec[j] == rec[1..][j - 1];
      if Silent(env, ip, rec[1..], depth, n) {
        forall j | 0 <= j < n + 1
          ensures Execute(env, ip, rec[j], depth) == Ok(None)
        {
          if j > 0 {
            assert rec[j] == rec[1..][j - 1];
          }
        }
      }
    }
  }

  /** `ValidateIP`: fetch and parse the record of `name`, then evaluate it.
      A lookup or parse failure is returned as it is, and then no mechanism
      runs. */
  function ValidateIp(env: Env, ip: Ip, name: string, depth: nat): (r: Result<Qualifier>)
    ensures LookupSpf(env, name).Err? ==> r == Err(LookupSpf(env, name).error)
    ensures LookupSpf(env, name).Ok? && ParseSpf(LookupSpf(env, name).value).Err? ==>
      r == Err(ParseSpf(LookupSpf(env, name).value).error)
  {
    var rec :- Fetch(env, name);
    Evaluate(env, ip, rec, depth)
  }
}
