/** The lookup helpers (lookup.go) after the DNS exchange has returned: each
    helper asks one question and filters the answer list. The exchange
    itself, the name canonicalisation it applies and the address library are
    oracles held in an `Env`. */
module SpfLookup {
  import opened SpfTypes
  import opened SpfParser

  /** An IP address as the bytes the address library holds. */
  type Ip = seq<bv8>

  /** The record types the helpers ask for. */
  datatype QType = QTxt | QA | QMx | QPtr

  /** One resource record of an answer section; every other record type is
      `OtherAnswer`. */
  datatype Answer =
    | TxtAnswer(strings: seq<string>)
    | AAnswer(addr: Ip)
    | MxAnswer(host: string)
    | PtrAnswer(ptr: string)
    | OtherAnswer

  /** What an exchange returns: the answer section, or the error text of a
      failed exchange. */
  datatype Reply = Answered(answers: seq<Answer>) | Failed(detail: string)

  /** What parsing a CIDR text and testing membership returns. */
  datatype CidrReply = Contains(inside: bool) | BadCidr(detail: string)

  /** The outside world: the exchange, CIDR membership, address equality and
      the address's text form. All four are deterministic. The exchange is
      asked with the question name as the helper holds it: for TXT, A and MX
      that is the domain before `dns.Fqdn` (the oracle stands for Fqdn and
      the exchange together), and for PTR it is the raw `ip.String()`
      text, sent without Fqdn and without an in-addr.arpa form. */
  datatype Env = Env(
    exchange: (string, QType) -> Reply,
    cidr: (Ip, string) -> CidrReply,
    sameIp: (Ip, Ip) -> bool,
    ipText: Ip -> string)

  // ---------------------------------------------------------------------
  // LookupSPF
  // ---------------------------------------------------------------------

  /** The first record text carrying the version marker. */
  function FirstSpfIn(strs: seq<string>): (r: Option<string>)
    ensures r.Nothing? <==> forall i :: 0 <= i < |strs| ==> !IsSpf(strs[i])
    ensures r.Some? ==> exists i :: 0 <= i < |strs| && strs[i] == r.value && IsSpf(strs[i])
                                    && forall j :: 0 <= j < i ==> !IsSpf(strs[j])
  {
    if strs == [] then Nothing
    else if IsSpf(strs[0]) then Some(strs[0])
    else
      var r := FirstSpfIn(strs[1..]);
      assert forall i :: 1 <= i < |strs| ==> strs[i] == strs[1..][i - 1];
      r
  }

  /** All TXT strings of an answer section, answer by answer, in order. */
  function TxtStrings(answers: seq<Answer>): seq<string> {
    if answers == [] then []
    else (if answers[0].TxtAnswer? then answers[0].strings else []) + TxtStrings(answers[1..])
  }

  /** The nested search of `LookupSPF`: answers in order, and the strings of
      each TXT answer in order. */
  function FirstSpf(answers: seq<Answer>): (r: Option<string>)
    ensures r == FirstSpfIn(TxtStrings(answers))
  {
    if answers == [] then Nothing
    else
      var here := if answers[0].TxtAnswer? then answers[0].strings else [];
      FirstSpfInAppend(here, TxtStrings(answers[1..]));
      match FirstSpfIn(here)
      case Some(s) => Some(s)
      case Nothing => FirstSpf(answers[1..])
  }

  /** Searching two lists one after the other is searching their
      concatenation. */
  lemma {:induction false} FirstSpfInAppend(a: seq<string>, b: seq<string>)
    ensures FirstSpfIn(a + b) == if FirstSpfIn(a).Some? then FirstSpfIn(a) else FirstSpfIn(b)
    decreases |a|
  {
    if a != [] {
      assert (a + b)[0] == a[0];
      assert (a + b)[1..] == a[1..] + b;
      FirstSpfInAppend(a[1..], b);
    } else {
      assert a + b == b;
    }
  }

  /** `LookupSPF`: ask for TXT records and return the first SPF text. */
  function LookupSpf(env: Env, domain: string): (r: Result<string>)
    ensures r.Ok? ==> IsSpf(r.value)
    ensures env.exchange(domain, QTxt).Failed? ==> r == Err(External(env.exchange(domain, QTxt).detail))
    ensures env.exchange(domain, QTxt).Answered? ==>
      var found := FirstSpfIn(TxtStrings(env.exchange(domain, QTxt).answers));
      && (found.Nothing? ==> r == Err(NotFound))
      && (found.Some? ==> r == Ok(found.value))
  {
    match env.exchange(domain, QTxt)
    case Failed(detail) => Err(External(detail))
    case Answered(answers) =>
      match FirstSpf(answers)
      case Some(s) => Ok(s)
      case Nothing => Err(NotFound)
  }

  // ---------------------------------------------------------------------
  // LookupARec and MatchIPWithARec
  // ---------------------------------------------------------------------

  /** Answer `i` is the first A answer of the list. */
  predicate FirstAAt(answers: seq<Answer>, i: int) {
    && 0 <= i < |answers|
    && answers[i].AAnswer?
    && forall j :: 0 <= j < i ==> !answers[j].AAnswer?
  }

  /** The address of the first A answer. */
  function FirstA(answers: seq<Answer>): (r: Option<Ip>)
    ensures r.Nothing? <==> forall i :: 0 <= i < |answers| ==> !answers[i].AAnswer?
    ensures r.Some? ==> exists i :: 0 <= i < |answers| && answers[i] == AAnswer(r.value)
                                    && forall j :: 0 <= j < i ==> !answers[j].AAnswer?
  {
    if answers == [] then Nothing
    else if answers[0].AAnswer? then Some(answers[0].addr)
    else
      var r := FirstA(answers[1..]);
      assert forall i :: 1 <= i < |answers| ==> answers[i] == answers[1..][i - 1];
      r
  }

  /** `LookupARec`: the first A address, no address at all when there is no
      A answer, or the exchange error. */
  function LookupARec(env: Env, domain: string): (r: Result<Option<Ip>>)
    ensures env.exchange(domain, QA).Failed? <==> r.Err?
    ensures r.Err? ==> r.error == External(env.exchange(domain, QA).detail)
    ensures r.Ok? ==>
      var answers := env.exchange(domain, QA).answers;
      && (r.value.Nothing? <==> forall i :: 0 <= i < |answers| ==> !answers[i].AAnswer?)
      && (r.value.Some? ==> exists i :: 0 <= i < |answers| && answers[i] == AAnswer(r.value.value)
                                        && forall j :: 0 <= j < i ==> !answers[j].AAnswer?)
  {
    match env.exchange(domain, QA)
    case Failed(detail) => Err(External(detail))
    case Answered(answers) => Ok(FirstA(answers))
  }

  /** Whether some A answer holds an address equal to `ip`. */
  function AnyAMatches(env: Env, ip: Ip, answers: seq<Answer>): (r: bool)
    ensures r <==> exists i :: 0 <= i < |answers| && answers[i].AAnswer? && env.sameIp(ip, answers[i].addr)
  {
    if answers == [] then false
    else
      var rest := AnyAMatches(env, ip, answers[1..]);
      assert forall i :: 1 <= i < |answers| ==> answers[i] == answers[1..][i - 1];
      (answers[0].AAnswer? && env.sameIp(ip, answers[0].addr)) || rest
  }

  /** `MatchIPWithARec`. */
  function MatchIpWithARec(env: Env, ip: Ip, domain: string): (r: Result<bool>)
    ensures env.exchange(domain, QA).Failed? <==> r.Err?
    ensures r.Err? ==> r.error == External(env.exchange(domain, QA).detail)
    ensures r.Ok? ==>
      var answers := env.exchange(domain, QA).answers;
      (r.value <==> exists i :: 0 <= i < |answers| && answers[i].AAnswer? && env.sameIp(ip, answers[i].addr))
  {
    match env.exchange(domain, QA)
    case Failed(detail) => Err(External(detail))
    case Answered(answers) => Ok(AnyAMatches(env, ip, answers))
  }

  // ---------------------------------------------------------------------
  // MatchIPWithMXRec
  // ---------------------------------------------------------------------

  /** The host of the first MX answer. */
  function FirstMx(answers: seq<Answer>): (r: Option<string>)
    ensures r.Nothing? <==> forall i :: 0 <= i < |answers| ==> !answers[i].MxAnswer?
    ensures r.Some? ==> exists i :: 0 <= i < |answers| && answers[i] == MxAnswer(r.value)
                                    && forall j :: 0 <= j < i ==> !answers[j].MxAnswer?
  {
    if answers == [] then Nothing
    else if answers[0].MxAnswer? then Some(answers[0].host)
    else
      var r := FirstMx(answers[1..]);
      assert forall i :: 1 <= i < |answers| ==> answers[i] == answers[1..][i - 1];
      r
  }

  /** `MatchIPWithMXRec`: only the first MX host is consulted, and its A
      lookup decides (its error included). */
  function MatchIpWithMxRec(env: Env, ip: Ip, domain: string): (r: Result<bool>)
    ensures env.exchange(domain, QMx).Failed? ==> r == Err(External(env.exchange(domain, QMx).detail))
    ensures env.exchange(domain, QMx).Answered? ==>
      var answers := env.exchange(domain, QMx).answers;
      && ((forall i :: 0 <= i < |answers| ==> !answers[i].MxAnswer?) ==> r == Ok(false))
      && (forall i :: 0 <= i < |answers| && answers[i].MxAnswer?
                      && (forall j :: 0 <= j < i ==> !answers[j].MxAnswer?)
                  ==> r == MatchIpWithARec(env, ip, answers[i].host))
  {
    match env.exchange(domain, QMx)
    case Failed(detail) => Err(External(detail))
    case Answered(answers) =>
      match FirstMx(answers)
      case Nothing => Ok(false)
      case Some(host) => MatchIpWithARec(env, ip, host)
  }

  // ---------------------------------------------------------------------
  // MatchIPWithPtrRec
  // ---------------------------------------------------------------------

  /** Whether some PTR answer names exactly `domain`. */
  function AnyPtrNamed(answers: seq<Answer>, domain: string): (r: bool)
    ensures r <==> exists i :: 0 <= i < |answers| && answers[i] == PtrAnswer(domain)
  {
    if answers == [] then false
    else
      var rest := AnyPtrNamed(answers[1..], domain);
      assert forall i :: 1 <= i < |answers| ==> answers[i] == answers[1..][i - 1];
      answers[0] == PtrAnswer(domain) || rest
  }

  /** `MatchIPWithPtrRec`: the question is the address's text form, and a
      PTR name must equal the domain exactly (case included). */
  function MatchIpWithPtrRec(env: Env, ip: Ip, domain: string): (r: Result<bool>)
    ensures env.exchange(env.ipText(ip), QPtr).Failed? <==> r.Err?
    ensures r.Err? ==> r.error == External(env.exchange(env.ipText(ip), QPtr).detail)
    ensures r.Ok? ==>
      var answers := env.exchange(env.ipText(ip), QPtr).answers;
      (r.value <==> exists i :: 0 <= i < |answers| && answers[i] == PtrAnswer(domain))
  {
    match env.exchange(env.ipText(ip), QPtr)
    case Failed(detail) => Err(External(detail))
    case Answered(answers) => Ok(AnyPtrNamed(answers, domain))
  }
}
