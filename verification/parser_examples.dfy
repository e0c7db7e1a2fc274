/** Records from the library's parser tests, written as rendered token lists
    so that the general round-trip theorems carry them. */
module SpfParserExamples {
  import opened SpfTypes
  import opened SpfParser
  import opened SpfParserFacts

  /** The long record of the parser tests
      (`v=spf1 -include:ban.voulter.com include:spf.voulter.com ... ~all`). */
  const LongList: Record := [ Mechanism(Fail, Include, "ban.voulter.com"),
                              Mechanism(Pass, Include, "spf.voulter.com"),
                              Mechanism(Pass, Include, "spf2.voulter.com"),
                              Mechanism(Pass, A, "voulter.com"),
                              Mechanism(Pass, Ip4, "127.0.0.1"),
                              Mechanism(Pass, Ip6, "::1"),
                              Mechanism(SoftFail, All, "") ]

  /** Qualifiers, kinds, values and order come out as written, and `~all`
      has an empty value. */
  lemma LongRecord()
    ensures ParseSpf(Render(LongList)) == Ok(LongList)
  {
    LongListShape();
    RoundTripGrouped(LongList);
  }

  lemma LongListShape()
    ensures Renderable(LongList) && Grouped(LongList)
  {
    LongListRenderable();
    assert forall i :: 0 <= i < |LongList| ==> LongList[i].kind != Redirect;
  }

  lemma LongListRenderable()
    ensures Renderable(LongList)
  {
    LongListTail();
    assert RenderableList(LongList[1..]);
    assert RenderableList(LongList);
    RenderableListSound(LongList);
  }

  lemma LongListTail()
    ensures RenderableList(LongList[2..])
  {
    LongListEnd();
    assert RenderableList(LongList[3..]);
    assert RenderableList(LongList[2..]);
  }

  lemma LongListEnd()
    ensures RenderableList(LongList[4..])
  {
    assert RenderableList(LongList[6..]);
    assert RenderableList(LongList[5..]);
    assert RenderableList(LongList[4..]);
  }

  /** The four qualifiers of the parser tests
      (`v=spf1 + ip4:127.0.0.1 - ip4:192.168.178.0 ~ip4:1.1.1.1 ?ip4:8.8.8.8`). */
  const QualifierList: Record := [ Mechanism(Pass, Ip4, "127.0.0.1"),
                                   Mechanism(Fail, Ip4, "192.168.178.0"),
                                   Mechanism(SoftFail, Ip4, "1.1.1.1"),
                                   Mechanism(Neutral, Ip4, "8.8.8.8") ]

  /** Which tokens of the test text write their qualifier as a separate
      symbol and blank: `StyledTokens(QualifierList, QualifierSpacing)`
      after the marker spells the test's text
      `v=spf1 + ip4:127.0.0.1 - ip4:192.168.178.0 ~ip4:1.1.1.1 ?ip4:8.8.8.8`. */
  const QualifierSpacing: seq<bool> := [true, true, false, false]

  /** Each token keeps the qualifier it was written with, whether or not a
      blank separates the symbol from the name. */
  lemma QualifiersKept()
    ensures ParseSpf(Version + StyledTokens(QualifierList, QualifierSpacing)) == Ok(QualifierList)
  {
    QualifierListShape();
    StyledRoundTrip(QualifierList, QualifierSpacing);
    GroupedSplit(QualifierList);
  }

  lemma QualifierListShape()
    ensures Renderable(QualifierList) && Grouped(QualifierList)
  {
    var ts := QualifierList;
    assert RenderableList(ts[3..]);
    assert RenderableList(ts[2..]);
    assert RenderableList(ts[1..]);
    assert RenderableList(ts);
    RenderableListSound(ts);
    assert forall i :: 0 <= i < |ts| ==> ts[i].kind != Redirect;
  }

  /** A redirect written first, then four `a` mechanisms with different
      qualifiers. */
  const RedirectFirst: Record := [ Mechanism(Pass, Redirect, "_spf.voulter.com"),
                                   Mechanism(Pass, A, "127.0.0.1"),
                                   Mechanism(Fail, A, "192.168.178.0"),
                                   Mechanism(SoftFail, A, "1.1.1.1"),
                                   Mechanism(Neutral, A, "8.8.8.8") ]

  /** With this spacing `StyledTokens(RedirectFirst, RedirectSpacing)`
      after the marker spells the test's text `v=spf1
      redirect=_spf.voulter.com + a:127.0.0.1 - a:192.168.178.0 ~a:1.1.1.1
      ?a:8.8.8.8`. */
  const RedirectSpacing: seq<bool> := [false, true, true, false, false]

  /** The redirect still comes out after the mechanisms, which keep their
      order and qualifiers. */
  lemma RedirectMovedLast()
    ensures ParseSpf(Version + StyledTokens(RedirectFirst, RedirectSpacing)) == Ok(RedirectFirst[1..] + [RedirectFirst[0]])
  {
    RedirectFirstShape();
    StyledRoundTrip(RedirectFirst, RedirectSpacing);
  }

  lemma RedirectFirstShape()
    ensures Renderable(RedirectFirst)
    ensures Directives(RedirectFirst) == RedirectFirst[1..]
    ensures Modifiers(RedirectFirst) == [RedirectFirst[0]]
  {
    RedirectFirstRenderable();
    RedirectFirstSplit();
  }

  lemma RedirectFirstRenderable()
    ensures Renderable(RedirectFirst)
  {
    var ts := RedirectFirst;
    assert RenderableList(ts[4..]);
    assert RenderableList(ts[3..]);
    assert RenderableList(ts[2..]);
    assert RenderableList(ts[1..]);
    assert RenderableList(ts);
    RenderableListSound(ts);
  }

  lemma RedirectFirstSplit()
    ensures Directives(RedirectFirst) == RedirectFirst[1..]
    ensures Modifiers(RedirectFirst) == [RedirectFirst[0]]
  {
    var ts := RedirectFirst;
    assert Directives(ts) == ts[1..] by {
      assert Directives(ts[4..]) == ts[4..];
      assert Directives(ts[3..]) == ts[3..];
      assert Directives(ts[2..]) == ts[2..];
      assert Directives(ts[1..]) == ts[1..];
    }
    assert Modifiers(ts) == [ts[0]] by {
      assert Modifiers(ts[4..]) == [];
      assert Modifiers(ts[3..]) == [];
      assert Modifiers(ts[2..]) == [];
      assert Modifiers(ts[1..]) == [];
    }
  }

  /** `v=spf1 -all` on its own is a single Fail mechanism, but `v=spf1 mx
      -all` is rejected: the valueless `mx` absorbs `-all`. */
  lemma BareMechanismBeforeAll()
    ensures ParseSpf(Render([Mechanism(Fail, All, "")])) == Ok([Mechanism(Fail, All, "")])
    ensures ParseSpf(Version + " " + KindName(Mx) + " " + "-all") == Err(InvalidMechanism)
  {
    var ts := [Mechanism(Fail, All, "")];
    assert Renderable(ts);
    RoundTripGrouped(ts);
    BareMechanismMerges(Mx, " ", "-all");
  }

  /** Gluing joins any follower, not only one that starts with a qualifier:
      `v=spf1 a ll` is the single mechanism `all`, and `v=spf1 mx all` reads
      as the name `mxall` and is rejected. */
  lemma AnyFollowerGlued()
    ensures ParseSpf(Version + " " + KindName(A) + " " + "ll") == Ok([Mechanism(Pass, All, "")])
    ensures ParseSpf(Version + " " + KindName(Mx) + " " + "all") == Err(InvalidMechanism)
  {
    BareMechanismGlued(A, " ", "ll");
    SplitAllParsed();
    BareMechanismGlued(Mx, " ", "all");
    GluedNameRejected();
  }

  /** `v=spf1 all`, written with the name split after its first letter. */
  lemma SplitAllParsed()
    ensures ParseSpf(Version + " " + KindName(A) + "ll") == Ok([Mechanism(Pass, All, "")])
  {
    var ts := [Mechanism(Pass, All, "")];
    assert Token(ts[0]) == "" + KindName(All) + "";
    assert Tokens(ts) == " " + Token(ts[0]) + Tokens([]);
    assert KindName(A) + "ll" == KindName(All);
    assert Render(ts) == Version + " " + KindName(A) + "ll";
    assert Renderable(ts);
    RoundTripGrouped(ts);
  }

  /** `v=spf1 mxall` is not a mechanism. */
  lemma GluedNameRejected()
    ensures ParseSpf(Version + " " + KindName(Mx) + "all") == Err(InvalidMechanism)
  {
    var s := Version + " " + KindName(Mx) + "all";
    var glued := ScanState(Fresh.(name := KindName(Mx) + "all"), [], []);
    GluedMxAll();
    assert s[|Version|..] == " " + KindName(Mx) + "all";
    assert forall k :: IsDirectiveKind(k) ==> |KindName(k)| != |Lower(glued.ctx.name)|;
    assert Finish(glued) == Err(InvalidMechanism);
  }

  /** The scan behind `GluedNameRejected`: `mx` and `all` form one name. */
  lemma GluedMxAll()
    ensures Scan(Init, " " + KindName(Mx) + "all") == Ok(ScanState(Fresh.(name := KindName(Mx) + "all"), [], []))
  {
    GluedScan(Mx, "", "all");
    assert " " + KindName(Mx) + "" == " " + KindName(Mx);
  }


  /** A run of `n` blanks. */
  function Blanks(n: nat): (r: string)
    ensures |r| == n && forall i :: 0 <= i < n ==> r[i] == ' '
  {
    seq(n, _ => ' ')
  }

  /** The unformatted test record `v=spf1` + 18 blanks + `InCluDe:` + 6
      blanks + `spf.voulter.com` + 5 blanks is one Pass include. */
  lemma UnformattedInclude()
    ensures ParseSpf(Version + Blanks(18) + "InCluDe" + ":" + Blanks(6) + "spf.voulter.com" + Blanks(5))
         == Ok([Mechanism(Pass, Include, "spf.voulter.com")])
  {
    assert CaseVariant("InCluDe", KindName(Include));
    LooseDirective(Blanks(18), "InCluDe", Include, Blanks(6), "spf.voulter.com", Blanks(5));
  }

  /** `v=spf1 ~redirect=x` yields a Pass redirect. */
  lemma SoftFailRedirect()
    ensures ParseSpf(Version + " " + ['~'] + KindName(Redirect) + "=" + "x")
         == Ok([Mechanism(Pass, Redirect, "x")])
  {
    ModifierQualifierDropped('~', "x");
  }

  /** `v=spf1 include:spf.voulter.com` is one Pass include. */
  lemma IncludeRecord()
    ensures ParseSpf(Version + " " + "include" + ":" + "spf.voulter.com")
         == Ok([Mechanism(Pass, Include, "spf.voulter.com")])
  {
    SingleDirective("include", Include, "spf.voulter.com");
  }

  /** `v=spf1 include:spf-test.voulter.com`: the `-` inside the value is
      text, not a qualifier, so the include keeps the Pass qualifier and
      the whole name. */
  lemma HyphenInValue()
    ensures ParseSpf(Version + " " + "include" + ":" + "spf-test.voulter.com")
         == Ok([Mechanism(Pass, Include, "spf-test.voulter.com")])
  {
    SingleDirective("include", Include, "spf-test.voulter.com");
  }

  /** One directive after a single blank, with nothing around it. */
  lemma SingleDirective(name: string, k: Kind, v: string)
    requires IsDirectiveKind(k) && name == KindName(k)
    requires v != [] && NoWhitespace(v)
    ensures ParseSpf(Version + " " + name + ":" + v) == Ok([Mechanism(Pass, k, v)])
  {
    var head := Version + " " + name + ":";
    assert CaseVariant(name, KindName(k));
    LooseDirective(" ", name, k, "", v, "");
    assert head + "" == head;
    assert head + v + "" == head + v;
  }

  /** `v=spf1 redirect=_spf.voulter.com` is one Pass redirect. */
  lemma RedirectRecord()
    ensures ParseSpf(Version + " " + KindName(Redirect) + "=" + "_spf.voulter.com")
         == Ok([Mechanism(Pass, Redirect, "_spf.voulter.com")])
  {
    BareModifier("_spf.voulter.com");
  }

  /** `v=spf1 notinstandard: helloworld`: the name is read, the blank after
      `:` is skipped, and at the end the name is not a mechanism. */
  lemma UnknownNameRejected()
    ensures ParseSpf(Version + " " + "notinstandard" + ":" + " " + "helloworld") == Err(InvalidMechanism)
  {
    var name := "notinstandard";
    var text := Version + " " + name + ":" + " " + "helloworld";
    assert forall k :: IsDirectiveKind(k) ==> |KindName(k)| < |Lower(name)|;
    LooseUnknown(" ", name, " ", "helloworld", "");
    assert text + "" == text;
  }

  /** `v=spf1 a:x :y`: after the first directive is emitted, the `:` has no
      name before it and is a syntax error, as it would be at the start. */
  lemma SeparatorAfterToken()
    ensures ParseSpf(Version + " " + "a" + ":" + "x" + " " + [':'] + "y") == Err(Syntax)
  {
    assert CaseVariant("a", KindName(A));
    SeparatorAfterDirective("a", A, "x", " ", ':', "y");
  }

  /** `v=spf1 include=x`: written with `=`, a directive keyword is read as a
      modifier name and rejected, not taken as an include. */
  lemma IncludeAsModifier()
    ensures ParseSpf(Version + " " + KindName(Include) + "=" + "x") == Err(InvalidModifier)
  {
    KindNamePlain(Include);
    OtherModifierRejected(KindName(Include), "x");
  }

  /** `v=spf1  : helloworld` is a syntax error. */
  lemma ColonWithoutName()
    ensures ParseSpf(Version + "  " + [':'] + " helloworld") == Err(Syntax)
  {
    SeparatorWithoutName("  ", ':', " helloworld");
  }
}
