/** Properties of the record parser: how the state machine treats each class
    of character, a render/parse round trip, and the behaviour the library's
    parser tests pin down. */
module SpfParserFacts {
  import opened SpfTypes
  import opened SpfParser

  // ---------------------------------------------------------------------
  // Scanning in pieces
  // ---------------------------------------------------------------------

  /** The record test is a plain, case-sensitive prefix test: a text is a
      record exactly when it is the marker followed by anything at all, so
      `v=spf10` passes and `V=SPF1` does not. */
  lemma IsSpfExactly(s: string)
    ensures IsSpf(s) <==> exists rest :: s == Version + rest
  {
    if IsSpf(s) {
      assert s == Version + s[|Version|..];
    }
  }

  /** Lower-casing is idempotent: what it produces holds no character it
      would change again. */
  lemma LowerIdempotent(s: string)
    ensures Lower(Lower(s)) == Lower(s)
  {
    var once := Lower(s);
    forall i | 0 <= i < |s|
      ensures Lower(once)[i] == once[i]
    {
      assert once[i] == LowerChar(s[i]);
    }
  }

  /** Scanning a concatenation is scanning the parts one after the other. */
  lemma {:induction false} ScanAppend(st: ScanState, a: string, b: string)
    ensures Scan(st, a).Err? ==> Scan(st, a + b) == Scan(st, a)
    ensures Scan(st, a).Ok? ==> Scan(st, a + b) == Scan(Scan(st, a).value, b)
    decreases |a|
  {
    if a == [] {
      assert a + b == b;
    } else {
      assert (a + b)[0] == a[0];
      assert (a + b)[1..] == a[1..] + b;
      match Step(st, a[0])
      case Err(_) =>
      case Ok(next) => ScanAppend(next, a[1..], b);
    }
  }

  /** Whitespace while the name is still being read, or before any value
      character, is skipped and changes nothing. */
  lemma {:induction false} WhitespaceSkipped(st: ScanState, w: string)
    requires st.ctx.target == NameBuffer || st.ctx.value == []
    requires forall i :: 0 <= i < |w| ==> IsWhitespace(w[i])
    ensures Scan(st, w) == Ok(st)
    decreases |w|
  {
    if w != [] {
      assert Step(st, w[0]) == Ok(st);
      WhitespaceSkipped(st, w[1..]);
    }
  }

  /** A run of qualifier symbols before any name character sets the
      qualifier, and the last symbol of the run wins. */
  lemma {:induction false} QualifierRunLastWins(st: ScanState, qs: string)
    requires st.ctx.name == [] && st.ctx.value == []
    requires |qs| > 0
    requires forall i :: 0 <= i < |qs| ==> IsQualifierSymbol(qs[i])
    ensures Scan(st, qs)
         == Ok(st.(ctx := st.ctx.(qualifier := EvaluateQualifier(qs[|qs| - 1]).value)))
    decreases |qs|
  {
    var next := st.(ctx := st.ctx.(qualifier := EvaluateQualifier(qs[0]).value));
    assert Step(st, qs[0]) == Ok(next);
    if |qs| > 1 {
      QualifierRunLastWins(next, qs[1..]);
    }
  }

  /** A qualifier symbol followed by whitespace, before any name character,
      sets the qualifier: the whitespace between symbol and name is skipped
      (`+ ip4:...` reads like `+ip4:...`). */
  lemma QualifierThenBlank(st: ScanState, c: char, w: string)
    requires st.ctx.name == [] && st.ctx.value == []
    requires IsQualifierSymbol(c)
    requires forall i :: 0 <= i < |w| ==> IsWhitespace(w[i])
    ensures Scan(st, [c] + w) == Ok(st.(ctx := st.ctx.(qualifier := EvaluateQualifier(c).value)))
  {
    var qualified := st.(ctx := st.ctx.(qualifier := EvaluateQualifier(c).value));
    QualifierRunLastWins(st, [c]);
    WhitespaceSkipped(qualified, w);
    ScanAppend(st, [c], w);
  }

  /** Plain characters read in the name stage extend the name. */
  lemma {:induction false} ScanPlainName(st: ScanState, w: string)
    requires st.ctx.target == NameBuffer
    requires forall i :: 0 <= i < |w| ==> IsPlain(w[i])
    ensures Scan(st, w) == Ok(st.(ctx := st.ctx.(name := st.ctx.name + w)))
    decreases |w|
  {
    if w == [] {
      assert st.ctx.name + w == st.ctx.name;
      assert st.(ctx := st.ctx.(name := st.ctx.name)) == st;
    } else {
      var next := st.(ctx := st.ctx.(name := st.ctx.name + [w[0]]));
      assert Step(st, w[0]) == Ok(next);
      ScanPlainName(next, w[1..]);
      assert st.ctx.name + [w[0]] + w[1..] == st.ctx.name + w;
    }
  }

  /** In the value stage every non-whitespace character, including the
      qualifier symbols and further separators, is appended to the value. */
  lemma {:induction false} ScanValueText(st: ScanState, v: string)
    requires st.ctx.target == ValueBuffer && st.ctx.name != []
    requires forall i :: 0 <= i < |v| ==> !IsWhitespace(v[i])
    ensures Scan(st, v) == Ok(st.(ctx := st.ctx.(value := st.ctx.value + v)))
    decreases |v|
  {
    if v == [] {
      assert st.ctx.value + v == st.ctx.value;
      assert st.(ctx := st.ctx.(value := st.ctx.value)) == st;
    } else {
      var next := st.(ctx := st.ctx.(value := st.ctx.value + [v[0]]));
      assert Step(st, v[0]) == Ok(next);
      ScanValueText(next, v[1..]);
      assert st.ctx.value + [v[0]] + v[1..] == st.ctx.value + v;
    }
  }

  /** Once the name has begun, every character other than a separator or
      whitespace, qualifier symbols included, extends it. */
  lemma {:induction false} ScanNameText(st: ScanState, w: string)
    requires st.ctx.target == NameBuffer && st.ctx.name != []
    requires forall i :: 0 <= i < |w| ==> !IsWhitespace(w[i]) && !IsSeparator(w[i])
    ensures Scan(st, w) == Ok(st.(ctx := st.ctx.(name := st.ctx.name + w)))
    decreases |w|
  {
    if w == [] {
      assert st.ctx.name + w == st.ctx.name;
      assert st.(ctx := st.ctx.(name := st.ctx.name)) == st;
    } else {
      var next := st.(ctx := st.ctx.(name := st.ctx.name + [w[0]]));
      assert Step(st, w[0]) == Ok(next);
      ScanNameText(next, w[1..]);
      assert st.ctx.name + [w[0]] + w[1..] == st.ctx.name + w;
    }
  }

  /** A `:` or `=` seen while the name buffer is empty is a syntax error,
      whatever follows; leading whitespace does not change that. */
  lemma SeparatorWithoutName(w: string, c: char, rest: string)
    requires forall i :: 0 <= i < |w| ==> IsWhitespace(w[i])
    requires IsSeparator(c)
    ensures ParseSpf(Version + w + [c] + rest) == Err(Syntax)
  {
    var s := Version + w + [c] + rest;
    assert s[|Version|..] == w + [c] + rest;
    SeparatorWithoutNameScan(Init, w, c, rest);
  }

  /** The same from any state with an empty name buffer, such as the state
      after a qualifier symbol or after an emitted token. */
  lemma SeparatorWithoutNameScan(st: ScanState, w: string, c: char, rest: string)
    requires st.ctx.name == [] && (st.ctx.target == NameBuffer || st.ctx.value == [])
    requires forall i :: 0 <= i < |w| ==> IsWhitespace(w[i])
    requires IsSeparator(c)
    ensures Scan(st, w + [c] + rest) == Err(Syntax)
  {
    WhitespaceSkipped(st, w);
    ScanAppend(st, w, [c] + rest);
    assert w + [c] + rest == w + ([c] + rest);
  }

  /** `v=spf1 a:x :y`: a `:` that follows an emitted directive, with nothing
      before it but blanks, is a syntax error. */
  lemma SeparatorAfterDirective(name: string, k: Kind, v: string, w: string, c: char, rest: string)
    requires IsDirectiveKind(k) && CaseVariant(name, KindName(k))
    requires v != [] && NoWhitespace(v)
    requires w != [] && forall i :: 0 <= i < |w| ==> IsWhitespace(w[i])
    requires IsSeparator(c)
    ensures ParseSpf(Version + " " + name + ":" + v + w + [c] + rest) == Err(Syntax)
  {
    var x := " " + name + ":" + v;
    var t := w + [c] + rest;
    var valued := ScanState(Fresh.(name := name, target := ValueBuffer, value := v), [], []);
    DirectiveRead(name, k, v);
    EmittedThenSeparator(name, k, v, w, c, rest);
    ScanAppend(Init, x, t);
    assert Scan(Init, x + t) == Err(Syntax);
    assert Run(Init, x + t) == Err(Syntax);
    ParseOfFailedRun(x + t);
    SeparatorAfterDirectiveText(name, v, w, c, rest);
  }

  /** The text of `SeparatorAfterDirective`, regrouped. */
  lemma SeparatorAfterDirectiveText(name: string, v: string, w: string, c: char, rest: string)
    ensures Version + " " + name + ":" + v + w + [c] + rest
         == Version + ((" " + name + ":" + v) + (w + [c] + rest))
  {
    var x := " " + name + ":" + v;
    Assoc(Version, " ", name);
    Assoc(Version, " " + name, ":");
    Assoc(Version, " " + name + ":", v);
    assert Version + " " + name + ":" + v == Version + x;
    Assoc(Version + x, w, [c]);
    Assoc(Version + x, w + [c], rest);
    Assoc(Version, x, w + [c] + rest);
  }

  /** A directive written after one blank is read into the pending token. */
  lemma DirectiveRead(name: string, k: Kind, v: string)
    requires IsDirectiveKind(k) && CaseVariant(name, KindName(k))
    requires NoWhitespace(v)
    ensures Scan(Init, " " + name + ":" + v)
         == Ok(ScanState(Fresh.(name := name, target := ValueBuffer, value := v), [], []))
  {
    CaseVariantPlain(name, k);
    LooseScan(" ", name, "", v);
    assert "" + v == v;
  }

  /** From a pending directive with a value, a blank emits it and a
      separator after further blanks meets an empty name. */
  lemma EmittedThenSeparator(name: string, k: Kind, v: string, w: string, c: char, rest: string)
    requires IsDirectiveKind(k) && CaseVariant(name, KindName(k))
    requires v != []
    requires w != [] && forall i :: 0 <= i < |w| ==> IsWhitespace(w[i])
    requires IsSeparator(c)
    ensures Scan(ScanState(Fresh.(name := name, target := ValueBuffer, value := v), [], []), w + [c] + rest)
         == Err(Syntax)
  {
    var valued := ScanState(Fresh.(name := name, target := ValueBuffer, value := v), [], []);
    var done := ScanState(Fresh, [Mechanism(Pass, k, v)], []);
    var t := w + [c] + rest;
    BlankEmitsDirective(name, k, v, w[0]);
    assert t[0] == w[0];
    assert t[1..] == w[1..] + [c] + rest;
    assert Scan(valued, t) == Scan(done, w[1..] + [c] + rest);
    SeparatorWithoutNameScan(done, w[1..], c, rest);
  }

  /** A blank after a pending directive's value emits that directive. */
  lemma BlankEmitsDirective(name: string, k: Kind, v: string, b: char)
    requires IsDirectiveKind(k) && CaseVariant(name, KindName(k))
    requires v != [] && IsWhitespace(b)
    ensures Step(ScanState(Fresh.(name := name, target := ValueBuffer, value := v), [], []), b)
         == Ok(ScanState(Fresh, [Mechanism(Pass, k, v)], []))
  {
    var valued := ScanState(Fresh.(name := name, target := ValueBuffer, value := v), [], []);
    CaseVariantRecognised(valued.ctx, k);
    assert [] + [Mechanism(Pass, k, v)] == [Mechanism(Pass, k, v)];
  }

  /** A directive written loosely: blanks before the keyword, the keyword
      in any mixture of case, blanks between `:` and the value, and blanks
      after it. The blanks are all skipped and the keyword is recognised. */
  lemma LooseDirective(w1: string, name: string, k: Kind, w2: string, v: string, w3: string)
    requires IsDirectiveKind(k) && CaseVariant(name, KindName(k))
    requires forall i :: 0 <= i < |w1| ==> IsWhitespace(w1[i])
    requires forall i :: 0 <= i < |w2| ==> IsWhitespace(w2[i])
    requires forall i :: 0 <= i < |w3| ==> IsWhitespace(w3[i])
    requires v != [] && NoWhitespace(v)
    ensures ParseSpf(Version + w1 + name + ":" + w2 + v + w3) == Ok([Mechanism(Pass, k, v)])
  {
    var head := w1 + name + ":";
    var body := w2 + v;
    LooseRun(w1, name, k, w2, v, w3);
    ParseOfRun(head + body + w3, [Mechanism(Pass, k, v)], []);
    assert [Mechanism(Pass, k, v)] + [] == [Mechanism(Pass, k, v)];
    Assoc(Version, w1, name);
    Assoc(Version, w1 + name, ":");
    Assoc(Version + head, w2, v);
    Assoc(Version, head, body);
    Assoc(Version, head + body, w3);
  }

  /** The same loose layout with a name that is no directive keyword in any
      case: the token is read whole and rejected when it is flushed. */
  lemma LooseUnknown(w1: string, name: string, w2: string, v: string, w3: string)
    requires name != [] && forall i :: 0 <= i < |name| ==> IsPlain(name[i])
    requires forall k :: IsDirectiveKind(k) ==> KindName(k) != Lower(name)
    requires forall i :: 0 <= i < |w1| ==> IsWhitespace(w1[i])
    requires forall i :: 0 <= i < |w2| ==> IsWhitespace(w2[i])
    requires forall i :: 0 <= i < |w3| ==> IsWhitespace(w3[i])
    requires NoWhitespace(v)
    ensures ParseSpf(Version + w1 + name + ":" + w2 + v + w3) == Err(InvalidMechanism)
  {
    var head := w1 + name + ":";
    var x := head + (w2 + v);
    var valued := ScanState(Fresh.(name := name, target := ValueBuffer, value := v), [], []);
    LooseScan(w1, name, w2, v);
    UnknownTail(name, v, w3);
    ScanAppend(Init, x, w3);
    assert Run(Init, x + w3) == Run(valued, w3);
    ParseOfFailedRun(x + w3);
    Assoc(Version, w1, name);
    Assoc(Version, w1 + name, ":");
    Assoc(Version, head, w2 + v);
    Assoc(Version + head, w2, v);
    Assoc(Version, x, w3);
  }

  /** A pending token whose name is no directive keyword is rejected at
      the first blank after a value, or at the end of the text. */
  lemma UnknownTail(name: string, v: string, w3: string)
    requires name != []
    requires forall k :: IsDirectiveKind(k) ==> KindName(k) != Lower(name)
    requires forall i :: 0 <= i < |w3| ==> IsWhitespace(w3[i])
    ensures Run(ScanState(Fresh.(name := name, target := ValueBuffer, value := v), [], []), w3)
         == Err(InvalidMechanism)
  {
    var valued := ScanState(Fresh.(name := name, target := ValueBuffer, value := v), [], []);
    assert Emit(valued) == Err(InvalidMechanism);
    if w3 == [] {
      assert Finish(valued) == Err(InvalidMechanism);
    } else if v == [] {
      WhitespaceSkipped(valued, w3);
      assert Finish(valued) == Err(InvalidMechanism);
    } else {
      assert Step(valued, w3[0]) == Err(InvalidMechanism);
    }
  }

  /** The scan and flush behind `LooseDirective`. */
  lemma LooseRun(w1: string, name: string, k: Kind, w2: string, v: string, w3: string)
    requires IsDirectiveKind(k) && CaseVariant(name, KindName(k))
    requires forall i :: 0 <= i < |w1| ==> IsWhitespace(w1[i])
    requires forall i :: 0 <= i < |w2| ==> IsWhitespace(w2[i])
    requires forall i :: 0 <= i < |w3| ==> IsWhitespace(w3[i])
    requires v != [] && NoWhitespace(v)
    ensures Run(Init, w1 + name + ":" + (w2 + v) + w3) == Ok(ScanState(Fresh, [Mechanism(Pass, k, v)], []))
  {
    CaseVariantPlain(name, k);
    LooseScan(w1, name, w2, v);
    ScanAppend(Init, w1 + name + ":" + (w2 + v), w3);
    LooseTail(name, k, v, w3);
  }

  /** Blanks, a name, `:`, blanks and a value: everything but the blanks
      is read into the pending token, and nothing is emitted yet. */
  lemma LooseScan(w1: string, name: string, w2: string, v: string)
    requires name != [] && forall i :: 0 <= i < |name| ==> IsPlain(name[i])
    requires forall i :: 0 <= i < |w1| ==> IsWhitespace(w1[i])
    requires forall i :: 0 <= i < |w2| ==> IsWhitespace(w2[i])
    requires NoWhitespace(v)
    ensures Scan(Init, w1 + name + ":" + (w2 + v))
         == Ok(ScanState(Fresh.(name := name, target := ValueBuffer, value := v), [], []))
  {
    LooseHead(w1, name);
    LooseValue(name, w2, v);
    ScanAppend(Init, w1 + name + ":", w2 + v);
  }

  /** After `:`, blanks are skipped and the value is read. */
  lemma LooseValue(name: string, w2: string, v: string)
    requires name != []
    requires forall i :: 0 <= i < |w2| ==> IsWhitespace(w2[i])
    requires NoWhitespace(v)
    ensures Scan(ScanState(Fresh.(name := name, target := ValueBuffer), [], []), w2 + v)
         == Ok(ScanState(Fresh.(name := name, target := ValueBuffer, value := v), [], []))
  {
    var sep := ScanState(Fresh.(name := name, target := ValueBuffer), [], []);
    var valued := ScanState(Fresh.(name := name, target := ValueBuffer, value := v), [], []);
    WhitespaceSkipped(sep, w2);
    ScanValueText(sep, v);
    assert sep.ctx.value + v == v;
    assert Scan(sep, v) == Ok(valued);
    ScanAppend(sep, w2, v);
  }

  /** A run of the text after the marker decides the parse. */
  lemma ParseOfRun(x: string, ms: Record, mods: Record)
    requires Run(Init, x) == Ok(ScanState(Fresh, ms, mods))
    ensures ParseSpf(Version + x) == Ok(ms + mods)
  {
    assert (Version + x)[..|Version|] == Version;
    assert (Version + x)[|Version|..] == x;
  }

  /** A failed run of the text after the marker is the parse's error. */
  lemma ParseOfFailedRun(x: string)
    requires Run(Init, x).Err?
    ensures ParseSpf(Version + x) == Err(Run(Init, x).error)
  {
    assert (Version + x)[..|Version|] == Version;
    assert (Version + x)[|Version|..] == x;
  }

  /** Blanks, a name of plain characters and the `:` after it. */
  lemma LooseHead(w1: string, name: string)
    requires name != [] && forall i :: 0 <= i < |name| ==> IsPlain(name[i])
    requires forall i :: 0 <= i < |w1| ==> IsWhitespace(w1[i])
    ensures Scan(Init, w1 + name + ":") == Ok(ScanState(Fresh.(name := name, target := ValueBuffer), [], []))
  {
    var named := ScanState(Fresh.(name := name), [], []);
    assert Scan(Init, w1 + name) == Ok(named) by {
      WhitespaceSkipped(Init, w1);
      ScanPlainName(Init, name);
      assert Fresh.name + name == name;
      ScanAppend(Init, w1, name);
    }
    assert Step(named, ':') == Ok(ScanState(Fresh.(name := name, target := ValueBuffer), [], []));
    ScanAppend(Init, w1 + name, ":");
  }

  /** A case variant of a keyword is a non-empty run of plain characters. */
  lemma CaseVariantPlain(name: string, k: Kind)
    requires IsDirectiveKind(k) && CaseVariant(name, KindName(k))
    ensures name != [] && forall i :: 0 <= i < |name| ==> IsPlain(name[i])
  {
    KindNameShape(k);
    forall i | 0 <= i < |name|
      ensures IsPlain(name[i])
    {
      assert IsPlain(KindName(k)[i]);
    }
  }

  /** The blanks after a loose directive's value emit it, and nothing else
      is left for the end of the input. */
  lemma LooseTail(name: string, k: Kind, v: string, w3: string)
    requires IsDirectiveKind(k) && CaseVariant(name, KindName(k))
    requires forall i :: 0 <= i < |w3| ==> IsWhitespace(w3[i])
    requires v != []
    ensures Run(ScanState(Fresh.(name := name, target := ValueBuffer, value := v), [], []), w3)
         == Ok(ScanState(Fresh, [Mechanism(Pass, k, v)], []))
  {
    var valued := ScanState(Fresh.(name := name, target := ValueBuffer, value := v), [], []);
    var done := ScanState(Fresh, [Mechanism(Pass, k, v)], []);
    CaseVariantRecognised(valued.ctx, k);
    assert [] + [Mechanism(Pass, k, v)] == [Mechanism(Pass, k, v)];
    assert Emit(valued) == Ok(done);
    if w3 == [] {
      assert Finish(valued) == Ok(done);
    } else {
      assert Step(valued, w3[0]) == Ok(done);
      WhitespaceSkipped(done, w3[1..]);
    }
  }

  // ---------------------------------------------------------------------
  // Keywords
  // ---------------------------------------------------------------------

  /** Every keyword is non-empty, lower-case and made of plain characters. */
  lemma KindNameShape(k: Kind)
    requires !k.Unknown?
    ensures KindName(k) != []
    ensures Lower(KindName(k)) == KindName(k)
    ensures forall i :: 0 <= i < |KindName(k)| ==> IsPlain(KindName(k)[i])
  {
    KindNameLower(k);
    KindNamePlain(k);
  }

  /** Every keyword is already lower-case. */
  lemma KindNameLower(k: Kind)
    requires !k.Unknown?
    ensures Lower(KindName(k)) == KindName(k)
  {
  }

  /** Every keyword is made of plain characters. */
  lemma KindNamePlain(k: Kind)
    requires !k.Unknown?
    ensures forall i :: 0 <= i < |KindName(k)| ==> IsPlain(KindName(k)[i])
  {
  }

  /** Directive keywords are recognised in any mixture of upper and lower
      case, and the modifier keyword `redirect` is never a directive. */
  lemma KeywordRecognised(ctx: Context, k: Kind)
    requires !k.Unknown?
    requires Lower(ctx.name) == KindName(k)
    ensures IsDirectiveKind(k) ==> EvaluateMechanism(ctx) == Ok(Mechanism(ctx.qualifier, k, ctx.value))
    ensures k == Redirect ==> EvaluateMechanism(ctx) == Err(InvalidMechanism)
  {
    if k == Redirect {
      assert forall j :: IsDirectiveKind(j) ==> KindName(j) != KindName(Redirect);
    }
  }

  /** `name` spells `word` with any of its ASCII letters written as the
      capital instead. */
  predicate CaseVariant(name: string, word: string) {
    && |name| == |word|
    && forall i :: 0 <= i < |name| ==>
         || name[i] == word[i]
         || ('a' <= word[i] <= 'z' && name[i] as int == word[i] as int - ('a' as int - 'A' as int))
  }

  /** Every case variant of a keyword lower-cases to the keyword. */
  lemma CaseVariantLowered(name: string, k: Kind)
    requires !k.Unknown?
    requires CaseVariant(name, KindName(k))
    ensures Lower(name) == KindName(k)
  {
    var word := KindName(k);
    KindNameShape(k);
    forall i | 0 <= i < |name|
      ensures Lower(name)[i] == word[i]
    {
      assert Lower(word)[i] == word[i];
      if name[i] == word[i] {
        assert !('A' <= word[i] <= 'Z');
      }
    }
  }

  /** A directive keyword written in any mixture of upper and lower case is
      that directive (the test record ` InCluDe:` is one). */
  lemma CaseVariantRecognised(ctx: Context, k: Kind)
    requires IsDirectiveKind(k)
    requires CaseVariant(ctx.name, KindName(k))
    ensures EvaluateMechanism(ctx) == Ok(Mechanism(ctx.qualifier, k, ctx.value))
  {
    CaseVariantLowered(ctx.name, k);
    KeywordRecognised(ctx, k);
  }

  /** No keyword contains a qualifier symbol, so a name with one in it is
      not a mechanism. */
  lemma NameWithSymbolRejected(ctx: Context, i: int)
    requires 0 <= i < |ctx.name| && IsQualifierSymbol(ctx.name[i])
    ensures EvaluateMechanism(ctx) == Err(InvalidMechanism)
  {
    var lowered := Lower(ctx.name);
    assert lowered[i] == ctx.name[i];
    forall k | IsDirectiveKind(k)
      ensures KindName(k) != lowered
    {
      KindNameShape(k);
      assert !IsPlain(lowered[i]);
    }
  }

  /** A valueless mechanism is ended only by the end of the input: the
      whitespace after it is skipped in the name stage, so a following token
      that starts with a qualifier is glued onto the name (`mx -all` reads as
      the single name `mx-all`) and the record is rejected. */
  lemma BareMechanismMerges(k: Kind, w: string, x: string)
    requires IsDirectiveKind(k)
    requires forall i :: 0 <= i < |w| ==> IsWhitespace(w[i])
    requires |x| > 0 && IsQualifierSymbol(x[0])
    requires forall i :: 0 <= i < |x| ==> !IsWhitespace(x[i]) && !IsSeparator(x[i])
    ensures ParseSpf(Version + " " + KindName(k) + w + x) == Err(InvalidMechanism)
  {
    var s := Version + " " + KindName(k) + w + x;
    var glued := ScanState(Fresh.(name := KindName(k) + x), [], []);
    assert s[|Version|..] == " " + KindName(k) + w + x;
    GluedScan(k, w, x);
    NameWithSymbolRejected(glued.ctx, |KindName(k)|);
    assert Finish(glued) == Err(InvalidMechanism);
  }

  /** The scan behind `BareMechanismMerges`: the name, the skipped
      whitespace and the follower end up as one name. */
  lemma GluedScan(k: Kind, w: string, x: string)
    requires IsDirectiveKind(k)
    requires forall i :: 0 <= i < |w| ==> IsWhitespace(w[i])
    requires forall i :: 0 <= i < |x| ==> !IsWhitespace(x[i]) && !IsSeparator(x[i])
    ensures Scan(Init, " " + KindName(k) + w + x) == Ok(ScanState(Fresh.(name := KindName(k) + x), [], []))
  {
    var named := ScanState(Fresh.(name := KindName(k)), [], []);
    KindNameShape(k);
    assert Scan(Init, " " + KindName(k)) == Ok(named) by {
      assert Step(Init, ' ') == Ok(Init);
      ScanPlainName(Init, KindName(k));
      assert Fresh.name + KindName(k) == KindName(k);
      ScanAppend(Init, " ", KindName(k));
    }
    assert Scan(Init, " " + KindName(k) + w) == Ok(named) by {
      WhitespaceSkipped(named, w);
      ScanAppend(Init, " " + KindName(k), w);
    }
    ScanNameText(named, x);
    ScanAppend(Init, " " + KindName(k) + w, x);
  }

  /** Whatever token follows a valueless mechanism, as long as it holds no
      whitespace and no `:` or `=`, it is glued onto the mechanism's name:
      the blanks between them might as well not be there. */
  lemma BareMechanismGlued(k: Kind, w: string, x: string)
    requires IsDirectiveKind(k)
    requires forall i :: 0 <= i < |w| ==> IsWhitespace(w[i])
    requires forall i :: 0 <= i < |x| ==> !IsWhitespace(x[i]) && !IsSeparator(x[i])
    ensures ParseSpf(Version + " " + KindName(k) + w + x) == ParseSpf(Version + " " + KindName(k) + x)
  {
    var spaced := " " + KindName(k) + w + x;
    var joined := " " + KindName(k) + x;
    GluedScan(k, w, x);
    GluedScan(k, "", x);
    assert " " + KindName(k) + "" == " " + KindName(k);
    SameScanSameParse(spaced, joined);
    Assoc(Version + " " + KindName(k), w, x);
    Assoc(Version + " ", KindName(k), w + x);
    Assoc(Version, " ", KindName(k) + (w + x));
    Assoc(" ", KindName(k), w + x);
    Assoc(" " + KindName(k), w, x);
    Assoc(Version, " " + KindName(k), x);
    Assoc(Version, " ", KindName(k));
  }

  /** A modifier comes out as Pass whatever qualifier it was written with. */
  lemma ModifierQualifierDropped(c: char, v: string)
    requires IsQualifierSymbol(c) && NoWhitespace(v)
    ensures ParseSpf(Version + " " + [c] + KindName(Redirect) + "=" + v)
         == Ok([Mechanism(Pass, Redirect, v)])
  {
    var name := KindName(Redirect);
    var s := Version + " " + [c] + name + "=" + v;
    var valued := ScanState(Fresh.(qualifier := EvaluateQualifier(c).value, name := name,
                                   target := ValueBuffer, modifier := true, value := v), [], []);
    assert s[|Version|..] == " " + [c] + name + "=" + v;
    QualifiedModifierScan(c, v);
    assert EvaluateModifier(valued.ctx) == Ok(Mechanism(Pass, Redirect, v));
    assert [] + [Mechanism(Pass, Redirect, v)] == [Mechanism(Pass, Redirect, v)];
    assert Finish(valued) == Ok(ScanState(Fresh, [], [Mechanism(Pass, Redirect, v)]));
  }

  /** A modifier written without a qualifier: `redirect=v` after one blank
      is the record's only entry, a Pass redirect to `v`. */
  lemma BareModifier(v: string)
    requires NoWhitespace(v)
    ensures ParseSpf(Version + " " + KindName(Redirect) + "=" + v)
         == Ok([Mechanism(Pass, Redirect, v)])
  {
    var name := KindName(Redirect);
    var valued := ScanState(Fresh.(name := name, target := ValueBuffer, modifier := true, value := v), [], []);
    KindNamePlain(Redirect);
    NamedModifierScan(KindName(Redirect), v);
    assert EvaluateModifier(valued.ctx) == Ok(Mechanism(Pass, Redirect, v));
    assert [] + [Mechanism(Pass, Redirect, v)] == [Mechanism(Pass, Redirect, v)];
    assert Run(Init, " " + name + "=" + v) == Ok(ScanState(Fresh, [], [Mechanism(Pass, Redirect, v)]));
    ParseOfRun(" " + name + "=" + v, [], [Mechanism(Pass, Redirect, v)]);
    Assoc(Version, " ", name);
    Assoc(Version, " " + name, "=");
    Assoc(Version, " " + name + "=", v);
  }

  /** A name other than `redirect` written with `=` is read as a modifier
      and rejected when it is flushed: `v=spf1 include=x` is
      `invalidmodifier`, not an include. */
  lemma OtherModifierRejected(name: string, v: string)
    requires name != [] && forall i :: 0 <= i < |name| ==> IsPlain(name[i])
    requires name != KindName(Redirect)
    requires NoWhitespace(v)
    ensures ParseSpf(Version + " " + name + "=" + v) == Err(InvalidModifier)
  {
    var valued := ScanState(Fresh.(name := name, target := ValueBuffer, modifier := true, value := v), [], []);
    NamedModifierScan(name, v);
    assert Emit(valued) == Err(InvalidModifier);
    assert Run(Init, " " + name + "=" + v) == Err(InvalidModifier);
    ParseOfFailedRun(" " + name + "=" + v);
    Assoc(Version, " ", name);
    Assoc(Version, " " + name, "=");
    Assoc(Version, " " + name + "=", v);
  }

  /** A plain name, `=` and a value after one blank: the token is marked as
      a modifier and its value is read, with nothing emitted yet. */
  lemma NamedModifierScan(name: string, v: string)
    requires name != [] && forall i :: 0 <= i < |name| ==> IsPlain(name[i])
    requires NoWhitespace(v)
    ensures Scan(Init, " " + name + "=" + v)
         == Ok(ScanState(Fresh.(name := name, target := ValueBuffer, modifier := true, value := v), [], []))
  {
    var sep := ScanState(Fresh.(name := name, target := ValueBuffer, modifier := true), [], []);
    var valued := ScanState(sep.ctx.(value := v), [], []);
    NamedModifierHead(name);
    ScanValueText(sep, v);
    assert sep.ctx.value + v == v;
    assert Scan(sep, v) == Ok(valued);
    ScanAppend(Init, " " + name + "=", v);
  }

  /** A plain name and `=` after one blank: the value stage begins with the
      modifier flag set. */
  lemma NamedModifierHead(name: string)
    requires name != [] && forall i :: 0 <= i < |name| ==> IsPlain(name[i])
    ensures Scan(Init, " " + name + "=")
         == Ok(ScanState(Fresh.(name := name, target := ValueBuffer, modifier := true), [], []))
  {
    var named := ScanState(Fresh.(name := name), [], []);
    var sep := ScanState(Fresh.(name := name, target := ValueBuffer, modifier := true), [], []);
    assert Scan(Init, " " + name) == Ok(named) by {
      WhitespaceSkipped(Init, " ");
      ScanPlainName(Init, name);
      assert Fresh.name + name == name;
      ScanAppend(Init, " ", name);
    }
    assert Scan(named, "=") == Ok(sep) by {
      assert Step(named, '=') == Ok(sep);
    }
    ScanAppend(Init, " " + name, "=");
  }

  /** The scan behind `ModifierQualifierDropped`: the qualifier is recorded
      and the modifier's value is read, with nothing emitted yet. */
  lemma QualifiedModifierScan(c: char, v: string)
    requires IsQualifierSymbol(c) && NoWhitespace(v)
    ensures Scan(Init, " " + [c] + KindName(Redirect) + "=" + v)
         == Ok(ScanState(Fresh.(qualifier := EvaluateQualifier(c).value, name := KindName(Redirect),
                                target := ValueBuffer, modifier := true, value := v), [], []))
  {
    var name := KindName(Redirect);
    var q := EvaluateQualifier(c).value;
    var qualified := ScanState(Fresh.(qualifier := q), [], []);
    var sep := ScanState(Fresh.(qualifier := q, name := name, target := ValueBuffer, modifier := true), [], []);
    assert Scan(Init, " " + [c]) == Ok(qualified) by {
      assert Step(Init, ' ') == Ok(Init);
      QualifierRunLastWins(Init, [c]);
      ScanAppend(Init, " ", [c]);
    }
    assert Scan(Init, " " + [c] + (name + "=")) == Ok(sep) by {
      ScanModifierHead(q, [], []);
      ScanAppend(Init, " " + [c], name + "=");
    }
    Assoc(" " + [c], name, "=");
    ScanValueText(sep, v);
    assert sep.ctx.value + v == v;
    ScanAppend(Init, " " + [c] + name + "=", v);
  }

  // ---------------------------------------------------------------------
  // Rendering and the round trip
  // ---------------------------------------------------------------------

  /** The prefix a qualifier is written with in a token: none for Pass. */
  function QualifierPrefix(q: Qualifier): string {
    if q == Pass || q == None then "" else [QualifierSymbol(q)]
  }

  predicate NoWhitespace(s: string) {
    forall i :: 0 <= i < |s| ==> !IsWhitespace(s[i])
  }

  /** The text of one token: `redirect=value` for the modifier, and
      `[qualifier]name[:value]` for a directive. */
  function Token(m: Mechanism): string {
    if m.kind == Redirect then KindName(Redirect) + "=" + m.value
    else QualifierPrefix(m.qualifier) + KindName(m.kind) + (if m.value == [] then "" else ":" + m.value)
  }

  function Tokens(ts: Record): string {
    if ts == [] then "" else " " + Token(ts[0]) + Tokens(ts[1..])
  }

  /** A record written out as the text of an SPF record. */
  function Render(ts: Record): string {
    Version + Tokens(ts)
  }

  /** A directive token with its qualifier written as a separate symbol
      followed by a blank (`+ ip4:127.0.0.1`, `- a:192.168.178.0`). A
      modifier is written as `Token` writes it. */
  function SpacedToken(m: Mechanism): string {
    if m.kind == Redirect || m.qualifier == None then Token(m)
    else [QualifierSymbol(m.qualifier)] + " " + KindName(m.kind) + (if m.value == [] then "" else ":" + m.value)
  }

  /** The tokens of a list, each written spaced or plain as `spaced` says. */
  function StyledTokens(ts: Record, spaced: seq<bool>): string
    requires |spaced| == |ts|
  {
    if ts == [] then ""
    else " " + (if spaced[0] then SpacedToken(ts[0]) else Token(ts[0])) + StyledTokens(ts[1..], spaced[1..])
  }

  /** The records that survive a trip through `Render`: values have no
      whitespace, and only the last token may have an empty value (a bare
      keyword followed by whitespace would merge with the next token). */
  predicate Renderable(ts: Record) {
    forall i :: 0 <= i < |ts| ==>
      && WellFormedMechanism(ts[i])
      && NoWhitespace(ts[i].value)
      && (i < |ts| - 1 ==> ts[i].value != [])
  }

  /** `Renderable`, checked one token at a time. */
  predicate RenderableList(ts: Record) {
    ts == [] ||
    (&& WellFormedMechanism(ts[0])
     && NoWhitespace(ts[0].value)
     && (|ts| > 1 ==> ts[0].value != [])
     && RenderableList(ts[1..]))
  }

  lemma {:induction false} RenderableListSound(ts: Record)
    requires RenderableList(ts)
    ensures Renderable(ts)
    decreases |ts|
  {
    if ts != [] {
      RenderableListSound(ts[1..]);
      forall i | 1 <= i < |ts|
        ensures ts[i] == ts[1..][i - 1]
      {
      }
    }
  }

  /** The ordinary mechanisms of a list, in order. */
  function Directives(ts: Record): Record {
    if ts == [] then []
    else (if ts[0].kind != Redirect then [ts[0]] else []) + Directives(ts[1..])
  }

  /** The modifiers of a list, in order. */
  function Modifiers(ts: Record): Record {
    if ts == [] then []
    else (if ts[0].kind == Redirect then [ts[0]] else []) + Modifiers(ts[1..])
  }

  /** The parse context after reading one token. */
  function Pending(m: Mechanism): Context
    requires WellFormedMechanism(m)
  {
    if m.kind == Redirect then Context(Pass, KindName(Redirect), m.value, ValueBuffer, true)
    else if m.value == [] then Context(m.qualifier, KindName(m.kind), [], NameBuffer, false)
    else Context(m.qualifier, KindName(m.kind), m.value, ValueBuffer, false)
  }

  /** Reading one token from a fresh context leaves exactly that token pending. */
  lemma ScanToken(acc: Record, mods: Record, m: Mechanism)
    requires WellFormedMechanism(m) && NoWhitespace(m.value)
    ensures Scan(ScanState(Fresh, acc, mods), Token(m)) == Ok(ScanState(Pending(m), acc, mods))
  {
    if m.kind == Redirect {
      ScanModifierToken(acc, mods, m);
    } else if m.value == [] {
      ScanQualifiedKeyword(acc, mods, m);
      assert Token(m) == QualifierPrefix(m.qualifier) + KindName(m.kind);
    } else {
      ScanDirectiveWithValue(acc, mods, m);
    }
  }

  lemma ScanModifierToken(acc: Record, mods: Record, m: Mechanism)
    requires m.kind == Redirect && m.qualifier == Pass && NoWhitespace(m.value)
    ensures Scan(ScanState(Fresh, acc, mods), Token(m)) == Ok(ScanState(Pending(m), acc, mods))
  {
    var st := ScanState(Fresh, acc, mods);
    var sep := st.(ctx := Fresh.(name := KindName(Redirect), target := ValueBuffer, modifier := true));
    assert Fresh.(qualifier := Pass) == Fresh;
    ScanModifierHead(Pass, acc, mods);
    assert Scan(sep, m.value) == Ok(ScanState(Pending(m), acc, mods)) by {
      ScanValueText(sep, m.value);
      assert sep.ctx.value + m.value == m.value;
    }
    ScanAppend(st, KindName(Redirect) + "=", m.value);
  }

  /** The `redirect=` head of a modifier token: the name is read and the
      scan switches to the value with the modifier flag set. */
  lemma ScanModifierHead(q: Qualifier, acc: Record, mods: Record)
    ensures Scan(ScanState(Fresh.(qualifier := q), acc, mods), KindName(Redirect) + "=")
         == Ok(ScanState(Fresh.(qualifier := q, name := KindName(Redirect), target := ValueBuffer, modifier := true), acc, mods))
  {
    var st := ScanState(Fresh.(qualifier := q), acc, mods);
    var named := st.(ctx := st.ctx.(name := KindName(Redirect)));
    var sep := named.(ctx := named.ctx.(target := ValueBuffer, modifier := true));
    assert Scan(st, KindName(Redirect)) == Ok(named) by {
      KindNameShape(Redirect);
      ScanPlainName(st, KindName(Redirect));
      assert Fresh.name + KindName(Redirect) == KindName(Redirect);
    }
    assert Step(named, '=') == Ok(sep);
    assert Scan(named, "=") == Ok(sep);
    ScanAppend(st, KindName(Redirect), "=");
  }

  /** The qualifier prefix and keyword of a directive token. */
  lemma ScanQualifiedKeyword(acc: Record, mods: Record, m: Mechanism)
    requires IsDirectiveKind(m.kind) && m.qualifier != None
    ensures Scan(ScanState(Fresh, acc, mods), QualifierPrefix(m.qualifier) + KindName(m.kind))
         == Ok(ScanState(Fresh.(qualifier := m.qualifier, name := KindName(m.kind)), acc, mods))
  {
    var st := ScanState(Fresh, acc, mods);
    var prefix := QualifierPrefix(m.qualifier);
    var qualified := st.(ctx := Fresh.(qualifier := m.qualifier));
    assert Scan(st, prefix) == Ok(qualified) by {
      if m.qualifier != Pass {
        QualifierRunLastWins(st, prefix);
      }
    }
    assert Scan(qualified, KindName(m.kind))
        == Ok(ScanState(Fresh.(qualifier := m.qualifier, name := KindName(m.kind)), acc, mods)) by {
      KindNameShape(m.kind);
      ScanPlainName(qualified, KindName(m.kind));
      assert Fresh.name + KindName(m.kind) == KindName(m.kind);
    }
    ScanAppend(st, prefix, KindName(m.kind));
  }

  lemma ScanDirectiveWithValue(acc: Record, mods: Record, m: Mechanism)
    requires IsDirectiveKind(m.kind) && m.qualifier != None
    requires m.value != [] && NoWhitespace(m.value)
    ensures Scan(ScanState(Fresh, acc, mods), Token(m)) == Ok(ScanState(Pending(m), acc, mods))
  {
    var st := ScanState(Fresh, acc, mods);
    var keyword := QualifierPrefix(m.qualifier) + KindName(m.kind);
    var named := ScanState(Fresh.(qualifier := m.qualifier, name := KindName(m.kind)), acc, mods);
    var sep := named.(ctx := named.ctx.(target := ValueBuffer));
    ScanQualifiedKeyword(acc, mods, m);
    assert Scan(named, ":" + m.value) == Ok(ScanState(Pending(m), acc, mods)) by {
      assert Step(named, ':') == Ok(sep);
      assert Scan(named, ":") == Ok(sep);
      ScanValueText(sep, m.value);
      assert sep.ctx.value + m.value == m.value;
      ScanAppend(named, ":", m.value);
    }
    ScanAppend(st, keyword, ":" + m.value);
    assert Token(m) == keyword + (":" + m.value);
  }

  /** Emitting a pending token records the token itself, in the list its
      kind belongs to. */
  lemma EmitPending(acc: Record, mods: Record, m: Mechanism)
    requires WellFormedMechanism(m)
    ensures Emit(ScanState(Pending(m), acc, mods)) == Ok(Absorb(acc, mods, m))
  {
    if m.kind != Redirect {
      KindNameShape(m.kind);
      KeywordRecognised(Pending(m), m.kind);
    }
  }

  /** A blank followed by a token, read from a fresh context. */
  lemma LeadingToken(acc: Record, mods: Record, t: Mechanism)
    requires WellFormedMechanism(t) && NoWhitespace(t.value)
    ensures Scan(ScanState(Fresh, acc, mods), " " + Token(t)) == Ok(ScanState(Pending(t), acc, mods))
  {
    var st := ScanState(Fresh, acc, mods);
    assert Step(st, ' ') == Ok(st);
    ScanToken(acc, mods, t);
    ScanAppend(st, " ", Token(t));
  }

  /** Whitespace after a value character ends the token. */
  lemma BlankEndsValue(st: ScanState, c: char)
    requires IsWhitespace(c)
    requires st.ctx.target == ValueBuffer && st.ctx.value != []
    ensures Step(st, c) == Emit(st)
  {
  }

  /** The blank that ends a token emits it; the same blank read again from
      the fresh context is skipped. */
  lemma BlankEmits(pending: ScanState, emitted: ScanState, tail: string)
    requires Step(pending, ' ') == Ok(emitted) && emitted.ctx == Fresh
    ensures Scan(pending, " " + tail) == Scan(emitted, " " + tail)
  {
    ScanAppend(pending, " ", tail);
    assert Step(emitted, ' ') == Ok(emitted);
    ScanAppend(emitted, " ", tail);
  }

  /** The list's effect on the two output lists, one token at a time. */
  function Absorb(acc: Record, mods: Record, t: Mechanism): ScanState {
    if t.kind == Redirect then ScanState(Fresh, acc, mods + [t]) else ScanState(Fresh, acc + [t], mods)
  }

  /** Reading the first token of a list leaves it pending; the blank that
      starts the next token emits it. */
  lemma FirstTokenAbsorbed(acc: Record, mods: Record, ts: Record)
    requires Renderable(ts) && |ts| > 1
    ensures Scan(ScanState(Fresh, acc, mods), Tokens(ts))
         == Scan(Absorb(acc, mods, ts[0]), Tokens(ts[1..]))
  {
    var t := ts[0];
    var rest := ts[1..];
    var tail := Token(rest[0]) + Tokens(rest[1..]);
    RenderableHead(ts);
    TokensCons(ts);
    TokensCons(rest);
    Assoc(" ", Token(rest[0]), Tokens(rest[1..]));
    HeadTokenPending(acc, mods, t, Tokens(rest));
    PendingEmittedByBlank(acc, mods, t, tail);
  }

  lemma RenderableHead(ts: Record)
    requires Renderable(ts) && |ts| > 1
    ensures WellFormedMechanism(ts[0]) && NoWhitespace(ts[0].value) && ts[0].value != []
  {
  }

  lemma Assoc<T>(a: seq<T>, b: seq<T>, c: seq<T>)
    ensures a + b + c == a + (b + c)
  {
  }

  lemma ConsSplit<T>(s: seq<T>)
    requires s != []
    ensures [s[0]] + s[1..] == s
  {
  }

  /** Reading a token and the text after it leaves the token pending. */
  lemma HeadTokenPending(acc: Record, mods: Record, t: Mechanism, tail: string)
    requires WellFormedMechanism(t) && NoWhitespace(t.value)
    ensures Scan(ScanState(Fresh, acc, mods), " " + Token(t) + tail)
         == Scan(ScanState(Pending(t), acc, mods), tail)
  {
    LeadingToken(acc, mods, t);
    ScanAppend(ScanState(Fresh, acc, mods), " " + Token(t), tail);
  }

  /** The blank after a token with a value emits it. */
  lemma PendingEmittedByBlank(acc: Record, mods: Record, t: Mechanism, tail: string)
    requires WellFormedMechanism(t) && t.value != []
    ensures Scan(ScanState(Pending(t), acc, mods), " " + tail) == Scan(Absorb(acc, mods, t), " " + tail)
  {
    var pending := ScanState(Pending(t), acc, mods);
    EmitPending(acc, mods, t);
    BlankEndsValue(pending, ' ');
    BlankEmits(pending, Absorb(acc, mods, t), tail);
  }

  lemma TokensCons(ts: Record)
    requires ts != []
    ensures Tokens(ts) == " " + Token(ts[0]) + Tokens(ts[1..])
  {
  }

  /** The last token of a list is emitted at the end of the input. */
  lemma LastTokenAbsorbed(acc: Record, mods: Record, t: Mechanism)
    requires Renderable([t])
    ensures Run(ScanState(Fresh, acc, mods), Tokens([t])) == Ok(Absorb(acc, mods, t))
  {
    var st := ScanState(Fresh, acc, mods);
    assert [t][0] == t;
    assert WellFormedMechanism(t) && NoWhitespace(t.value);
    var pending := ScanState(Pending(t), acc, mods);
    LeadingToken(acc, mods, t);
    assert Tokens([t]) == " " + Token(t);
    KindNameShape(t.kind);
    EmitPending(acc, mods, t);
    assert Finish(pending) == Ok(Absorb(acc, mods, t));
  }

  /** Scanning the tokens of a list from a fresh context and flushing the
      last one appends the list's directives and modifiers to the outputs. */
  lemma {:induction false} RunTokens(acc: Record, mods: Record, ts: Record)
    requires Renderable(ts)
    ensures Run(ScanState(Fresh, acc, mods), Tokens(ts))
         == Ok(ScanState(Fresh, acc + Directives(ts), mods + Modifiers(ts)))
    decreases |ts|
  {
    if ts == [] {
      assert acc + [] == acc && mods + [] == mods;
    } else {
      var t := ts[0];
      var rest := ts[1..];
      var next := Absorb(acc, mods, t);
      assert next == ScanState(Fresh, acc + Directives([t]), mods + Modifiers([t]));
      AbsorbThenRest(acc, mods, ts);
      if rest == [] {
        assert ts == [t];
        LastTokenAbsorbed(acc, mods, t);
      } else {
        RenderableTail(ts);
        FirstTokenAbsorbed(acc, mods, ts);
        RunTokens(next.mechanisms, next.modifiers, rest);
      }
    }
  }

  /** Absorbing the first token and then the rest is absorbing the list. */
  lemma AbsorbThenRest(acc: Record, mods: Record, ts: Record)
    requires ts != []
    ensures Absorb(acc, mods, ts[0]).mechanisms + Directives(ts[1..]) == acc + Directives(ts)
    ensures Absorb(acc, mods, ts[0]).modifiers + Modifiers(ts[1..]) == mods + Modifiers(ts)
  {
    var t := ts[0];
    var rest := ts[1..];
    if t.kind == Redirect {
      assert Directives(ts) == Directives(rest);
      assert Modifiers(ts) == [t] + Modifiers(rest);
      assert mods + [t] + Modifiers(rest) == mods + ([t] + Modifiers(rest));
    } else {
      assert Directives(ts) == [t] + Directives(rest);
      assert Modifiers(ts) == Modifiers(rest);
      assert acc + [t] + Directives(rest) == acc + ([t] + Directives(rest));
    }
  }

  lemma RenderableTail(ts: Record)
    requires Renderable(ts) && ts != []
    ensures Renderable(ts[1..])
  {
    var rest := ts[1..];
    forall i | 0 <= i < |rest|
      ensures WellFormedMechanism(rest[i]) && NoWhitespace(rest[i].value)
      ensures i < |rest| - 1 ==> rest[i].value != []
    {
      assert rest[i] == ts[i + 1];
    }
  }

  /** Round trip: parsing a rendered list yields its directives in order,
      followed by its modifiers in order, wherever the modifiers stood. */
  lemma RoundTrip(ts: Record)
    requires Renderable(ts)
    ensures ParseSpf(Render(ts)) == Ok(Directives(ts) + Modifiers(ts))
  {
    assert IsSpf(Render(ts));
    assert Render(ts)[|Version|..] == Tokens(ts);
    RunTokens([], [], ts);
    assert [] + Directives(ts) == Directives(ts) && [] + Modifiers(ts) == Modifiers(ts);
  }

  /** Writing a token's qualifier as a separate symbol and blank changes
      nothing about how the token is read. */
  lemma SpacedLikeToken(acc: Record, mods: Record, t: Mechanism, tail: string)
    requires WellFormedMechanism(t)
    ensures Scan(ScanState(Fresh, acc, mods), " " + SpacedToken(t) + tail)
         == Scan(ScanState(Fresh, acc, mods), " " + Token(t) + tail)
  {
    if t.kind != Redirect && t.qualifier != None {
      var st := ScanState(Fresh, acc, mods);
      var c := QualifierSymbol(t.qualifier);
      var qualified := st.(ctx := Fresh.(qualifier := t.qualifier));
      var body := KindName(t.kind) + (if t.value == [] then "" else ":" + t.value);
      var rest := body + tail;
      assert Scan(st, " " + [c] + " ") == Ok(qualified) by {
        assert Step(st, ' ') == Ok(st);
        QualifierThenBlank(st, c, " ");
        Assoc(" ", [c], " ");
        ScanAppend(st, " ", [c] + " ");
      }
      assert Scan(st, " " + QualifierPrefix(t.qualifier)) == Ok(qualified) by {
        assert Step(st, ' ') == Ok(st);
        if t.qualifier != Pass {
          QualifierRunLastWins(st, [c]);
        } else {
          assert qualified == st;
        }
        ScanAppend(st, " ", QualifierPrefix(t.qualifier));
      }
      SpacedSplit(c, QualifierPrefix(t.qualifier), KindName(t.kind), (if t.value == [] then "" else ":" + t.value), tail);
      ScanAppend(st, " " + [c] + " ", rest);
      ScanAppend(st, " " + QualifierPrefix(t.qualifier), rest);
    }
  }

  /** The regrouping behind `SpacedLikeToken`. */
  lemma SpacedSplit(c: char, prefix: string, name: string, value: string, tail: string)
    ensures " " + ([c] + " " + name + value) + tail == " " + [c] + " " + (name + value + tail)
    ensures " " + (prefix + name + value) + tail == " " + prefix + (name + value + tail)
  {
  }

  /** Spaced and plain tokens scan alike, token by token. */
  lemma {:induction false} StyledScan(acc: Record, mods: Record, ts: Record, spaced: seq<bool>)
    requires Renderable(ts) && |spaced| == |ts|
    ensures Scan(ScanState(Fresh, acc, mods), StyledTokens(ts, spaced))
         == Scan(ScanState(Fresh, acc, mods), Tokens(ts))
    decreases |ts|, 0
  {
    if ts != [] {
      var st := ScanState(Fresh, acc, mods);
      var t := ts[0];
      var rest := ts[1..];
      var x := StyledTokens(rest, spaced[1..]);
      var y := Tokens(rest);
      assert [t][0] == t;
      assert WellFormedMechanism(t) && NoWhitespace(t.value);
      var written := if spaced[0] then SpacedToken(t) else Token(t);
      assert StyledTokens(ts, spaced) == " " + written + x;
      TokensCons(ts);
      assert Scan(st, " " + written + x) == Scan(st, " " + Token(t) + x) by {
        if spaced[0] {
          SpacedLikeToken(acc, mods, t, x);
        }
      }
      if rest != [] {
        RenderableHead(ts);
        RenderableTail(ts);
        StyledScanStep(acc, mods, t, rest, spaced[1..]);
      }
    }
  }

  /** One step of `StyledScan`: after the first token is read, the rest of
      the two texts scan alike. */
  lemma {:induction false} StyledScanStep(acc: Record, mods: Record, t: Mechanism, rest: Record, spaced: seq<bool>)
    requires WellFormedMechanism(t) && NoWhitespace(t.value) && t.value != []
    requires Renderable(rest) && rest != [] && |spaced| == |rest|
    ensures Scan(ScanState(Fresh, acc, mods), " " + Token(t) + StyledTokens(rest, spaced))
         == Scan(ScanState(Fresh, acc, mods), " " + Token(t) + Tokens(rest))
    decreases |rest|, 1
  {
    var next := Absorb(acc, mods, t);
    var head := if spaced[0] then SpacedToken(rest[0]) else Token(rest[0]);
    var styled := head + StyledTokens(rest[1..], spaced[1..]);
    var plain := Token(rest[0]) + Tokens(rest[1..]);
    assert StyledTokens(rest, spaced) == " " + styled by {
      Assoc(" ", head, StyledTokens(rest[1..], spaced[1..]));
    }
    assert Tokens(rest) == " " + plain by {
      TokensCons(rest);
      Assoc(" ", Token(rest[0]), Tokens(rest[1..]));
    }
    TokenThenBlank(acc, mods, t, styled);
    TokenThenBlank(acc, mods, t, plain);
    assert next == ScanState(Fresh, next.mechanisms, next.modifiers);
    StyledScan(next.mechanisms, next.modifiers, rest, spaced);
  }

  /** A token with a value, then a blank: the token is read and emitted. */
  lemma TokenThenBlank(acc: Record, mods: Record, t: Mechanism, tail: string)
    requires WellFormedMechanism(t) && NoWhitespace(t.value) && t.value != []
    ensures Scan(ScanState(Fresh, acc, mods), " " + Token(t) + (" " + tail))
         == Scan(Absorb(acc, mods, t), " " + tail)
  {
    HeadTokenPending(acc, mods, t, " " + tail);
    PendingEmittedByBlank(acc, mods, t, tail);
  }

  /** Two texts that scan alike parse alike once the marker is put before
      them. */
  lemma SameScanSameParse(x: string, y: string)
    requires Scan(Init, x) == Scan(Init, y)
    ensures ParseSpf(Version + x) == ParseSpf(Version + y)
  {
    assert (Version + x)[|Version|..] == x;
    assert (Version + y)[|Version|..] == y;
    assert Run(Init, x) == Run(Init, y);
  }

  /** Round trip with any choice of spaced qualifiers: the blank after a
      qualifier symbol changes nothing. */
  lemma StyledRoundTrip(ts: Record, spaced: seq<bool>)
    requires Renderable(ts) && |spaced| == |ts|
    ensures ParseSpf(Version + StyledTokens(ts, spaced)) == Ok(Directives(ts) + Modifiers(ts))
  {
    StyledScan([], [], ts, spaced);
    SameScanSameParse(StyledTokens(ts, spaced), Tokens(ts));
    RoundTrip(ts);
  }

  /** A list that already has its modifiers last is left as it is. */
  lemma {:induction false} GroupedSplit(ts: Record)
    requires Grouped(ts)
    ensures Directives(ts) + Modifiers(ts) == ts
    decreases |ts|
  {
    if ts != [] {
      GroupedTail(ts);
      GroupedSplit(ts[1..]);
      if ts[0].kind == Redirect {
        ModifierHeadSplit(ts);
      } else {
        DirectiveHeadSplit(ts);
      }
    }
  }

  lemma ModifierHeadSplit(ts: Record)
    requires Grouped(ts) && ts != [] && ts[0].kind == Redirect
    requires Directives(ts[1..]) + Modifiers(ts[1..]) == ts[1..]
    ensures Directives(ts) + Modifiers(ts) == ts
  {
    var rest := ts[1..];
    NoDirectivesAfterModifier(ts);
    assert Modifiers(rest) == rest by {
      assert Directives(rest) + Modifiers(rest) == Modifiers(rest);
    }
    assert Directives(ts) == [];
    assert Modifiers(ts) == [ts[0]] + rest;
    assert [ts[0]] + rest == ts;
  }

  lemma DirectiveHeadSplit(ts: Record)
    requires ts != [] && ts[0].kind != Redirect
    requires Directives(ts[1..]) + Modifiers(ts[1..]) == ts[1..]
    ensures Directives(ts) + Modifiers(ts) == ts
  {
    var rest := ts[1..];
    assert Directives(ts) == [ts[0]] + Directives(rest);
    assert Modifiers(ts) == Modifiers(rest);
    Assoc([ts[0]], Directives(rest), Modifiers(rest));
    ConsSplit(ts);
  }

  lemma GroupedTail(ts: Record)
    requires Grouped(ts) && ts != []
    ensures Grouped(ts[1..])
  {
    var rest := ts[1..];
    forall i, j | 0 <= i < j < |rest|
      ensures !(rest[i].kind == Redirect && rest[j].kind != Redirect)
    {
      assert rest[i] == ts[i + 1] && rest[j] == ts[j + 1];
    }
  }

  /** In a grouped list that starts with a modifier, everything is a modifier. */
  lemma {:induction false} NoDirectivesAfterModifier(ts: Record)
    requires Grouped(ts) && |ts| > 0 && ts[0].kind == Redirect
    ensures Directives(ts[1..]) == []
  {
    AllModifiers(ts[1..]);
  }

  lemma {:induction false} AllModifiers(ts: Record)
    requires forall i :: 0 <= i < |ts| ==> ts[i].kind == Redirect
    ensures Directives(ts) == []
    decreases |ts|
  {
    if ts != [] {
      AllModifiers(ts[1..]);
    }
  }

  /** The parser accepts exactly what `Render` writes for a grouped list. */
  lemma RoundTripGrouped(ts: Record)
    requires Renderable(ts) && Grouped(ts)
    ensures ParseSpf(Render(ts)) == Ok(ts)
  {
    RoundTrip(ts);
    GroupedSplit(ts);
  }
}
