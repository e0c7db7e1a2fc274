/** Properties of the evaluation engine: how a record's verdict composes,
    how the include loop differs from the top-level loop, what the depth
    budget changes, and how the `exists` macro is expanded. */
module SpfInterpreterFacts {
  import opened SpfTypes
  import opened SpfParser
  import opened SpfParserFacts
  import opened SpfLookup
  import opened SpfInterpreter

  // ---------------------------------------------------------------------
  // Composition of the record loop
  // ---------------------------------------------------------------------

  /** Running two records one after the other: the second is reached only
      when every mechanism of the first is silent. */
  lemma {:induction false} EvaluateAppend(env: Env, ip: Ip, a: Record, b: Record, depth: nat)
    ensures Evaluate(env, ip, a + b, depth)
         == if Evaluate(env, ip, a, depth) == Ok(None) then Evaluate(env, ip, b, depth)
            else Evaluate(env, ip, a, depth)
    decreases |a|
  {
    if a == [] {
      assert a + b == b;
    } else {
      assert (a + b)[0] == a[0];
      assert (a + b)[1..] == a[1..] + b;
      EvaluateAppend(env, ip, a[1..], b, depth);
    }
  }

  /** The verdict an include reports for an inner verdict `v` produced by a
      mechanism with qualifier `inner`. */
  function Override(inner: Qualifier, v: Qualifier): Qualifier {
    if inner != Pass then inner else v
  }

  /** The include loop is the top-level loop with one difference: a verdict
      produced by an inner mechanism that is not Pass is replaced by that
      mechanism's own qualifier. Errors and silence are the same. */
  lemma {:induction false} IncludedVersusEvaluate(env: Env, ip: Ip, rec: Record, depth: nat)
    ensures var e := Evaluate(env, ip, rec, depth);
      && (e.Err? || e == Ok(None) ==> Included(env, ip, rec, depth) == e)
      && (e.Ok? && e.value != None ==>
            exists i :: 0 <= i < |rec| && Silent(env, ip, rec, depth, i)
                        && Execute(env, ip, rec[i], depth) == e
                        && Included(env, ip, rec, depth) == Ok(Override(rec[i].qualifier, e.value)))
    decreases |rec|
  {
    if rec != [] {
      var v := Execute(env, ip, rec[0], depth);
      if v == Ok(None) {
        IncludedVersusEvaluate(env, ip, rec[1..], depth);
        var e := Evaluate(env, ip, rec[1..], depth);
        if e.Ok? && e.value != None {
          var i :| 0 <= i < |rec[1..]| && Silent(env, ip, rec[1..], depth, i)
                   && Execute(env, ip, rec[1..][i], depth) == e
                   && Included(env, ip, rec[1..], depth) == Ok(Override(rec[1..][i].qualifier, e.value));
          SilentCons(env, ip, rec, depth);
          assert Silent(env, ip, rec, depth, i + 1);
          assert rec[i + 1] == rec[1..][i];
        }
      } else {
        assert Silent(env, ip, rec, depth, 0);
      }
    }
  }

  /** An included record whose mechanisms are all Pass gives exactly the
      verdict it gives at top level. */
  lemma AllPassIncluded(env: Env, ip: Ip, rec: Record, depth: nat)
    requires forall i :: 0 <= i < |rec| ==> rec[i].qualifier == Pass
    ensures Included(env, ip, rec, depth) == Evaluate(env, ip, rec, depth)
  {
    IncludedVersusEvaluate(env, ip, rec, depth);
  }

  /** The directive's own qualifier never matters for include or redirect,
      and the two kinds behave the same. */
  lemma OuterQualifierIgnored(env: Env, ip: Ip, q: Qualifier, q': Qualifier, domain: string, depth: nat)
    ensures Execute(env, ip, Mechanism(q, Include, domain), depth)
         == Execute(env, ip, Mechanism(q', Include, domain), depth)
    ensures Execute(env, ip, Mechanism(q, Include, domain), depth)
         == Execute(env, ip, Mechanism(q', Redirect, domain), depth)
  {
    ExecuteFollows(env, ip, Mechanism(q, Include, domain), depth);
    ExecuteFollows(env, ip, Mechanism(q', Include, domain), depth);
    ExecuteFollows(env, ip, Mechanism(q', Redirect, domain), depth);
  }

  // ---------------------------------------------------------------------
  // The depth budget
  // ---------------------------------------------------------------------

  /** Only the depth guard produces `OutOfRecursions`, and errors pass
      through unchanged; so a result that is not that error is the same for
      one more unit of budget. */
  lemma {:induction false} ExecuteStable(env: Env, ip: Ip, m: Mechanism, depth: nat)
    requires Execute(env, ip, m, depth) != Err(OutOfRecursions)
    ensures Execute(env, ip, m, depth + 1) == Execute(env, ip, m, depth)
    decreases depth, 1
  {
    match m.kind
    case Include => FollowStable(env, ip, m.value, depth);
    case Redirect => FollowStable(env, ip, m.value, depth);
    case _ => LeafIgnoresDepth(env, ip, m, depth);
  }

  /** The mechanisms that do not recurse do not look at the budget. */
  lemma LeafIgnoresDepth(env: Env, ip: Ip, m: Mechanism, depth: nat)
    requires !Recurses(m.kind)
    ensures Execute(env, ip, m, depth + 1) == Execute(env, ip, m, depth)
  {
  }

  lemma {:induction false} FollowStable(env: Env, ip: Ip, domain: string, depth: nat)
    requires Follow(env, ip, domain, depth) != Err(OutOfRecursions)
    ensures Follow(env, ip, domain, depth + 1) == Follow(env, ip, domain, depth)
    decreases depth, 0
  {
    var fetched := Fetch(env, domain);
    var inner := depth - 1;
    assert inner + 1 == depth;
    if fetched.Ok? {
      IncludedStable(env, ip, fetched.value, inner);
    }
  }

  /** A fetched record is run one level deeper. */
  lemma FollowFetched(env: Env, ip: Ip, domain: string, depth: nat, rec: Record)
    requires depth > 0 && Fetch(env, domain) == Ok(rec)
    ensures Follow(env, ip, domain, depth) == Included(env, ip, rec, depth - 1)
  {
  }

  /** Include and redirect hand over to `Follow`. */
  lemma ExecuteFollows(env: Env, ip: Ip, m: Mechanism, depth: nat)
    requires Recurses(m.kind)
    ensures Execute(env, ip, m, depth) == Follow(env, ip, m.value, depth)
  {
    match m.kind
    case Include =>
    case Redirect =>
    case _ => assert false;
  }

  /** A fetched record is what `ValidateIp` evaluates. */
  lemma ValidateFetched(env: Env, ip: Ip, name: string, depth: nat, rec: Record)
    requires Fetch(env, name) == Ok(rec)
    ensures ValidateIp(env, ip, name, depth) == Evaluate(env, ip, rec, depth)
  {
  }

  /** A one-mechanism record whose mechanism speaks, read by each loop. */
  lemma IncludedHead(env: Env, ip: Ip, rec: Record, depth: nat)
    requires |rec| == 1 && Execute(env, ip, rec[0], depth).Ok? && Execute(env, ip, rec[0], depth).value != None
    ensures Included(env, ip, rec, depth) == Ok(Override(rec[0].qualifier, Execute(env, ip, rec[0], depth).value))
  {
  }

  lemma EvaluateHead(env: Env, ip: Ip, rec: Record, depth: nat)
    requires |rec| == 1 && Execute(env, ip, rec[0], depth).Ok? && Execute(env, ip, rec[0], depth).value != None
    ensures Evaluate(env, ip, rec, depth) == Execute(env, ip, rec[0], depth)
  {
  }

  lemma {:induction false} IncludedStable(env: Env, ip: Ip, rec: Record, depth: nat)
    requires Included(env, ip, rec, depth) != Err(OutOfRecursions)
    ensures Included(env, ip, rec, depth + 1) == Included(env, ip, rec, depth)
    decreases depth, 2, |rec|
  {
    if rec != [] {
      ExecuteStable(env, ip, rec[0], depth);
      if Execute(env, ip, rec[0], depth) == Ok(None) {
        IncludedStable(env, ip, rec[1..], depth);
      }
    }
  }

  lemma {:induction false} EvaluateStable(env: Env, ip: Ip, rec: Record, depth: nat)
    requires Evaluate(env, ip, rec, depth) != Err(OutOfRecursions)
    ensures Evaluate(env, ip, rec, depth + 1) == Evaluate(env, ip, rec, depth)
    decreases |rec|
  {
    if rec != [] {
      ExecuteStable(env, ip, rec[0], depth);
      if Execute(env, ip, rec[0], depth) == Ok(None) {
        EvaluateStable(env, ip, rec[1..], depth);
      }
    }
  }

  /** A verdict reached within a budget is the verdict for every larger
      budget: the bound only ever cuts evaluation short. */
  lemma {:induction false} ValidateIpStable(env: Env, ip: Ip, name: string, depth: nat, larger: nat)
    requires depth <= larger
    requires ValidateIp(env, ip, name, depth) != Err(OutOfRecursions)
    ensures ValidateIp(env, ip, name, larger) == ValidateIp(env, ip, name, depth)
    decreases larger - depth
  {
    if depth < larger {
      if Fetch(env, name).Ok? {
        EvaluateStable(env, ip, Fetch(env, name).value, depth);
      }
      ValidateIpStable(env, ip, name, depth + 1, larger);
    }
  }

  // ---------------------------------------------------------------------
  // The `exists` macro
  // ---------------------------------------------------------------------

  /** Text in which no `%{i}` starts passes through the expansion
      unchanged, whatever follows it; other macros and lone `%` are kept. */
  lemma {:induction false} ExpandPlainPrefix(a: string, b: string, text: string)
    requires forall j :: 0 <= j < |a| ==> !(MacroI <= (a + b)[j..])
    ensures ExpandIp(a + b, text) == a + ExpandIp(b, text)
    decreases |a|
  {
    if a == [] {
      assert a + b == b;
    } else {
      assert (a + b)[0..] == a + b;
      assert (a + b)[0] == a[0];
      assert (a + b)[1..] == a[1..] + b;
      assert forall j :: 0 <= j < |a| - 1 ==> (a[1..] + b)[j..] == (a + b)[j + 1..];
      assert ExpandIp(a + b, text) == [a[0]] + ExpandIp(a[1..] + b, text);
      ExpandPlainPrefix(a[1..], b, text);
      Assoc([a[0]], a[1..], ExpandIp(b, text));
      ConsSplit(a);
    }
  }

  /** `%{i}` has no proper prefix that is also a suffix, so a macro-free
      part followed by the macro holds no occurrence that starts inside the
      part. */
  lemma NoStraddle(a: string, rest: string)
    requires NoMacro(a)
    ensures forall j :: 0 <= j < |a| ==> !(MacroI <= (a + (MacroI + rest))[j..])
  {
    var x := a + (MacroI + rest);
    forall j | 0 <= j < |a|
      ensures !(MacroI <= x[j..])
    {
      if j + |MacroI| <= |a| {
        assert !(MacroI <= a[j..]);
        assert a[j..][..|MacroI|] == x[j..][..|MacroI|];
      } else {
        var d := |a| - j;
        assert x[j..][d] == x[|a|] == '%';
        assert MacroI[d] != '%';
      }
    }
  }

  /** Parts joined by a separator. */
  function Join(parts: seq<string>, sep: string): string
    decreases |parts|
  {
    if parts == [] then ""
    else if |parts| == 1 then parts[0]
    else parts[0] + sep + Join(parts[1..], sep)
  }

  /** Every `%{i}` between parts that hold no `%{i}` of their own (other
      macros and lone `%` allowed) becomes the address text, and nothing
      else changes. */
  lemma {:induction false} ExpandJoin(parts: seq<string>, text: string)
    requires forall i :: 0 <= i < |parts| ==> NoMacro(parts[i])
    ensures ExpandIp(Join(parts, MacroI), text) == Join(parts, text)
    decreases |parts|
  {
    if |parts| == 1 {
      assert Join(parts, MacroI) == parts[0] == Join(parts, text);
    } else if |parts| > 1 {
      var rest := Join(parts[1..], MacroI);
      Assoc(parts[0], MacroI, rest);
      NoStraddle(parts[0], rest);
      ExpandPlainPrefix(parts[0], MacroI + rest, text);
      ExpandMacroHead(rest, text);
      assert forall i :: 0 <= i < |parts| - 1 ==> parts[1..][i] == parts[i + 1];
      ExpandJoin(parts[1..], text);
      Assoc(parts[0], text, Join(parts[1..], text));
    }
  }

  /** An occurrence at the start is replaced and the scan resumes after it. */
  lemma ExpandMacroHead(rest: string, text: string)
    ensures ExpandIp(MacroI + rest, text) == text + ExpandIp(rest, text)
  {
    assert MacroI <= MacroI + rest;
    assert (MacroI + rest)[|MacroI|..] == rest;
  }

  /** The pieces of `s` between its `%{i}` occurrences, found left to right
      without overlap. */
  function MacroParts(s: string): (r: seq<string>)
    decreases |s|
    ensures |r| >= 1
  {
    if s == [] then [""]
    else if MacroI <= s then [""] + MacroParts(s[|MacroI|..])
    else
      var t := MacroParts(s[1..]);
      [[s[0]] + t[0]] + t[1..]
  }

  /** The first part always starts the joined text. */
  lemma {:induction false} JoinHead(parts: seq<string>, sep: string)
    requires |parts| >= 1
    ensures parts[0] <= Join(parts, sep)
    decreases |parts|
  {
    if |parts| > 1 {
      Assoc(parts[0], sep, Join(parts[1..], sep));
    }
  }

  /** Splitting at the occurrences is faithful: the parts hold no `%{i}`,
      and joining them with `%{i}` gives back the text. */
  lemma {:induction false} MacroPartsSound(s: string)
    ensures forall i :: 0 <= i < |MacroParts(s)| ==> NoMacro(MacroParts(s)[i])
    ensures Join(MacroParts(s), MacroI) == s
    decreases |s|
  {
    if s == [] {
      assert MacroParts(s) == [""];
    } else if MacroI <= s {
      MacroPartsSound(s[|MacroI|..]);
      MacroStep(s, MacroParts(s[|MacroI|..]));
    } else {
      MacroPartsSound(s[1..]);
      CharStep(s, MacroParts(s[1..]));
    }
  }

  /** The step of `MacroPartsSound` where `s` starts with `%{i}`. */
  lemma MacroStep(s: string, t: seq<string>)
    requires MacroI <= s && t == MacroParts(s[|MacroI|..])
    requires forall i :: 0 <= i < |t| ==> NoMacro(t[i])
    requires Join(t, MacroI) == s[|MacroI|..]
    ensures forall i :: 0 <= i < |MacroParts(s)| ==> NoMacro(MacroParts(s)[i])
    ensures Join(MacroParts(s), MacroI) == s
  {
    var r := MacroParts(s);
    assert r == [""] + t && r[1..] == t;
    assert Join(r, MacroI) == "" + MacroI + Join(t, MacroI);
    assert s == MacroI + s[|MacroI|..];
    assert forall i :: 1 <= i < |r| ==> r[i] == t[i - 1];
  }

  /** The step of `MacroPartsSound` where `s` starts with any other
      character. */
  lemma CharStep(s: string, t: seq<string>)
    requires s != [] && !(MacroI <= s) && t == MacroParts(s[1..])
    requires forall i :: 0 <= i < |t| ==> NoMacro(t[i])
    requires Join(t, MacroI) == s[1..]
    ensures forall i :: 0 <= i < |MacroParts(s)| ==> NoMacro(MacroParts(s)[i])
    ensures Join(MacroParts(s), MacroI) == s
  {
    var r := MacroParts(s);
    assert r == [[s[0]] + t[0]] + t[1..];
    HeadPartSound(s, t);
    assert forall i :: 1 <= i < |r| ==> r[i] == t[i];
    ConsSplit(s);
    if |t| == 1 {
      assert Join(r, MacroI) == [s[0]] + t[0];
    } else {
      assert r[1..] == t[1..];
      assert Join(r, MacroI) == [s[0]] + t[0] + MacroI + Join(t[1..], MacroI);
      assert Join(t, MacroI) == t[0] + MacroI + Join(t[1..], MacroI);
      Assoc([s[0]] + t[0], MacroI, Join(t[1..], MacroI));
      Assoc([s[0]], t[0], MacroI + Join(t[1..], MacroI));
      Assoc(t[0], MacroI, Join(t[1..], MacroI));
    }
  }

  /** Where `s` does not start with `%{i}`, its first character glued to the
      first part of the rest is still free of `%{i}`. */
  lemma HeadPartSound(s: string, t: seq<string>)
    requires s != [] && !(MacroI <= s)
    requires |t| >= 1 && NoMacro(t[0]) && Join(t, MacroI) == s[1..]
    ensures NoMacro([s[0]] + t[0])
  {
    var p := [s[0]] + t[0];
    JoinHead(t, MacroI);
    assert p <= s;
    forall j | 0 <= j < |p|
      ensures !(MacroI <= p[j..])
    {
      if j == 0 {
        if |MacroI| <= |p| {
          assert p[..|MacroI|] == s[..|MacroI|];
        }
      } else {
        assert p[j..] == t[0][j - 1..];
      }
    }
  }

  /** The whole of `strings.Replace(s, "%{i}", text, -1)`: `s` is its
      `%{i}`-free parts joined by `%{i}`, and the expansion is the same
      parts joined by `text`. */
  lemma ExpandEvery(s: string, text: string)
    ensures Join(MacroParts(s), MacroI) == s
    ensures forall i :: 0 <= i < |MacroParts(s)| ==> NoMacro(MacroParts(s)[i])
    ensures ExpandIp(s, text) == Join(MacroParts(s), text)
  {
    MacroPartsSound(s);
    ExpandJoin(MacroParts(s), text);
  }

  /** Only `%{i}` is expanded: in `%{d}.%{i}` the domain macro is kept as
      written. */
  lemma OtherMacroKept(text: string)
    ensures ExpandIp("%{d}." + MacroI, text) == "%{d}." + text
  {
    var parts := ["%{d}.", ""];
    assert NoMacro(parts[0]) by {
      forall j | 0 <= j < |parts[0]|
        ensures !(MacroI <= parts[0][j..])
      {
        if j == 0 {
          assert parts[0][2] != MacroI[2];
        } else {
          assert parts[0][j] != MacroI[0];
        }
      }
    }
    assert NoMacro(parts[1]);
    assert Join(parts, MacroI) == "%{d}." + MacroI;
    ExpandJoin(parts, text);
    assert Join(parts, text) == "%{d}." + text;
  }

  // ---------------------------------------------------------------------
  // A nested `-include`
  // ---------------------------------------------------------------------

  /** `v=spf1 all`, published at `sub`. */
  const SubRecord: Record := [Mechanism(Pass, All, "")]

  /** `v=spf1 -include:sub`, published at `top`. */
  const TopRecord: Record := [Mechanism(Fail, Include, "sub")]

  /** Name service with exactly those two records. */
  const TwoLevels: Env := Env(
    (n: string, t: QType) =>
      if t == QTxt && n == "sub" then Answered([TxtAnswer([Render(SubRecord)])])
      else if t == QTxt && n == "top" then Answered([TxtAnswer([Render(TopRecord)])])
      else Answered([]),
    (ip: Ip, cidr: string) => BadCidr(cidr),
    (x: Ip, y: Ip) => x == y,
    (ip: Ip) => "")

  lemma TwoLevelsRecords()
    ensures LookupSpf(TwoLevels, "sub") == Ok(Render(SubRecord))
    ensures LookupSpf(TwoLevels, "top") == Ok(Render(TopRecord))
    ensures ParseSpf(Render(SubRecord)) == Ok(SubRecord)
    ensures ParseSpf(Render(TopRecord)) == Ok(TopRecord)
  {
    assert Renderable(SubRecord) && Grouped(SubRecord);
    assert Renderable(TopRecord) && Grouped(TopRecord);
    RoundTripGrouped(SubRecord);
    RoundTripGrouped(TopRecord);
    assert TwoLevels.exchange("sub", QTxt) == Answered([TxtAnswer([Render(SubRecord)])]);
    assert TwoLevels.exchange("top", QTxt) == Answered([TxtAnswer([Render(TopRecord)])]);
  }

  lemma TwoLevelsFetch()
    ensures Fetch(TwoLevels, "sub") == Ok(SubRecord)
    ensures Fetch(TwoLevels, "top") == Ok(TopRecord)
  {
    TwoLevelsRecords();
  }

  /** `sub` passes every address at any budget. */
  lemma SubPasses(ip: Ip, depth: nat)
    ensures Included(TwoLevels, ip, SubRecord, depth) == Ok(Pass)
  {
    assert Execute(TwoLevels, ip, SubRecord[0], depth) == Ok(Pass);
  }

  lemma FollowSub(ip: Ip, depth: nat)
    requires depth > 0
    ensures Follow(TwoLevels, ip, "sub", depth) == Ok(Pass)
  {
    TwoLevelsFetch();
    FollowFetched(TwoLevels, ip, "sub", depth, SubRecord);
    SubPasses(ip, depth - 1);
  }

  /** At top level `top` gives Pass; included one level down it gives Fail. */
  lemma TopVerdicts(ip: Ip)
    ensures Evaluate(TwoLevels, ip, TopRecord, 2) == Ok(Pass)
    ensures Included(TwoLevels, ip, TopRecord, 1) == Ok(Fail)
  {
    FollowSub(ip, 2);
    FollowSub(ip, 1);
    ExecuteFollows(TwoLevels, ip, TopRecord[0], 2);
    ExecuteFollows(TwoLevels, ip, TopRecord[0], 1);
    IncludedHead(TwoLevels, ip, TopRecord, 1);
    EvaluateHead(TwoLevels, ip, TopRecord, 2);
  }

  /** A `-include` at top level does not blacklist the addresses the
      included record passes: the `-` is never consulted, and `top`
      validates every address as Pass. One level deeper the inner `-`
      does replace the verdict: including `top` gives Fail. */
  lemma NestedFailNotPropagated(ip: Ip)
    ensures ValidateIp(TwoLevels, ip, "top", 2) == Ok(Pass)
    ensures Execute(TwoLevels, ip, Mechanism(Pass, Include, "top"), 2) == Ok(Fail)
  {
    TwoLevelsFetch();
    TopVerdicts(ip);
    ValidateFetched(TwoLevels, ip, "top", 2, TopRecord);
    ExecuteFollows(TwoLevels, ip, Mechanism(Pass, Include, "top"), 2);
    FollowFetched(TwoLevels, ip, "top", 2, TopRecord);
  }
}
