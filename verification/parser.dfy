/** The record parser (parser.go): a single left-to-right character state
    machine turning `v=spf1 ...` text into an ordered record. The Go code
    re-points a string pointer between the name and the value buffer; here
    that pointer is the explicit `Target` tag of the parse context, and the
    loop is a fold of `Step` over the characters. */
module SpfParser {
  import opened SpfTypes

  /** The version marker every record starts with. */
  const Version: string := "v=spf1"

  /** `IsSPF`: the fast prefix test. */
  predicate IsSpf(s: string) {
    Version <= s
  }

  predicate IsQualifierSymbol(c: char) {
    c == '+' || c == '-' || c == '~' || c == '?'
  }

  predicate IsSeparator(c: char) {
    c == ':' || c == '='
  }

  /** A character the state machine has no special case for. */
  predicate IsPlain(c: char) {
    !IsQualifierSymbol(c) && !IsSeparator(c) && !IsWhitespace(c)
  }

  /** `EvaluateQualifier`: the symbol-to-qualifier mapping. */
  function EvaluateQualifier(c: char): (r: Result<Qualifier>)
    ensures r.Ok? <==> IsQualifierSymbol(c)
    ensures r.Ok? ==> r.value != None
    ensures r.Err? ==> r.error == InvalidQualifier
  {
    if c == '+' then Ok(Pass)
    else if c == '-' then Ok(Fail)
    else if c == '~' then Ok(SoftFail)
    else if c == '?' then Ok(Neutral)
    else Err(InvalidQualifier)
  }

  /** The symbol a qualifier is written with; the inverse of `EvaluateQualifier`. */
  function QualifierSymbol(q: Qualifier): (c: char)
    requires q != None
    ensures EvaluateQualifier(c) == Ok(q)
  {
    match q
    case Pass => '+'
    case Fail => '-'
    case SoftFail => '~'
    case Neutral => '?'
  }

  /** Case folding as far as it can matter for the ASCII keywords: the
      ASCII capitals, and the two other characters whose lower case is an
      ASCII letter (capital I with dot above, and the Kelvin sign). Every
      other character is kept; its lower case would not be ASCII either. */
  function LowerChar(c: char): (r: char)
    ensures !('A' <= r <= 'Z')
    ensures r != c ==> 'A' <= c <= 'Z' || c == '\U{130}' || c == '\U{212A}'
    ensures 'A' <= c <= 'Z' ==> 'a' <= r <= 'z' && r as int - 'a' as int == c as int - 'A' as int
    ensures c == '\U{130}' ==> r == 'i'
    ensures c == '\U{212A}' ==> r == 'k'
  {
    if 'A' <= c <= 'Z' then (c as int + 32) as char
    else if c == '\U{130}' then 'i'
    else if c == '\U{212A}' then 'k'
    else c
  }

  function Lower(s: string): (r: string)
    ensures |r| == |s|
    ensures forall i :: 0 <= i < |r| ==> !('A' <= r[i] <= 'Z')
    ensures forall i :: 0 <= i < |s| && !('A' <= s[i] <= 'Z') && s[i] != '\U{130}' && s[i] != '\U{212A}' ==> r[i] == s[i]
    ensures forall i :: 0 <= i < |s| && 'A' <= s[i] <= 'Z' ==>
      'a' <= r[i] <= 'z' && r[i] as int - 'a' as int == s[i] as int - 'A' as int
    ensures forall i :: 0 <= i < |s| && s[i] == '\U{130}' ==> r[i] == 'i'
    ensures forall i :: 0 <= i < |s| && s[i] == '\U{212A}' ==> r[i] == 'k'
  {
    seq(|s|, i requires 0 <= i < |s| => LowerChar(s[i]))
  }

  /** The kinds the parser may attach to an ordinary (non-modifier) token. */
  predicate IsDirectiveKind(k: Kind) {
    !k.Unknown? && k != Redirect
  }

  /** The lower-case keyword of each named kind; a code outside the named
      kinds has none. */
  function KindName(k: Kind): string {
    match k
    case All => "all"
    case Ip4 => "ip4"
    case Ip6 => "ip6"
    case A => "a"
    case Mx => "mx"
    case Ptr => "ptr"
    case Exists => "exists"
    case Include => "include"
    case Redirect => "redirect"
    case Unknown(_) => ""
  }

  /** The switch of `EvaluateMechanism` on an already lower-cased name. */
  function ClassifyName(lowered: string): (r: Option<Kind>)
    ensures r.Some? ==> IsDirectiveKind(r.value) && KindName(r.value) == lowered
    ensures r.Nothing? ==> forall k :: IsDirectiveKind(k) ==> KindName(k) != lowered
  {
    if lowered == "all" then Some(All)
    else if lowered == "ip4" then Some(Ip4)
    else if lowered == "ip6" then Some(Ip6)
    else if lowered == "a" then Some(A)
    else if lowered == "mx" then Some(Mx)
    else if lowered == "ptr" then Some(Ptr)
    else if lowered == "exists" then Some(Exists)
    else if lowered == "include" then Some(Include)
    else Nothing
  }

  /** Which buffer ordinary characters are appended to (the Go `writeValue`
      pointer and `WritingDescriptor` flag). */
  datatype Target = NameBuffer | ValueBuffer

  /** `MechanismParseContext`: the token being read. */
  datatype Context = Context(
    qualifier: Qualifier,
    name: string,
    value: string,
    target: Target,
    modifier: bool)

  /** The context at the start of every token. */
  const Fresh: Context := Context(Pass, "", "", NameBuffer, false)

  /** The whole loop state: the current token and the two output lists. */
  datatype ScanState = ScanState(ctx: Context, mechanisms: Record, modifiers: Record)

  const Init: ScanState := ScanState(Fresh, [], [])

  /** What a parsed mechanism may look like: a directive kind with a real
      qualifier, or a `redirect` modifier, which is always Pass. */
  predicate WellFormedMechanism(m: Mechanism) {
    || (IsDirectiveKind(m.kind) && m.qualifier != None)
    || (m.kind == Redirect && m.qualifier == Pass)
  }

  /** The invariant the scan keeps. */
  predicate Valid(st: ScanState) {
    && st.ctx.qualifier != None
    && (st.ctx.target == ValueBuffer ==> st.ctx.name != [])
    && (st.ctx.target == NameBuffer ==> st.ctx.value == [] && !st.ctx.modifier)
    && (forall i :: 0 <= i < |st.mechanisms| ==>
          IsDirectiveKind(st.mechanisms[i].kind) && st.mechanisms[i].qualifier != None)
    && (forall i :: 0 <= i < |st.modifiers| ==>
          st.modifiers[i].kind == Redirect && st.modifiers[i].qualifier == Pass)
  }

  /** No modifier is followed by an ordinary mechanism. */
  predicate Grouped(rec: Record) {
    forall i, j :: 0 <= i < j < |rec| ==> !(rec[i].kind == Redirect && rec[j].kind != Redirect)
  }

  /** `EvaluateMechanism`: classify an ordinary token, case-insensitively. */
  function EvaluateMechanism(ctx: Context): (r: Result<Mechanism>)
    ensures r.Ok? ==>
      && r.value.qualifier == ctx.qualifier
      && r.value.value == ctx.value
      && IsDirectiveKind(r.value.kind)
      && KindName(r.value.kind) == Lower(ctx.name)
    ensures r.Err? ==>
      && r.error == InvalidMechanism
      && forall k :: IsDirectiveKind(k) ==> KindName(k) != Lower(ctx.name)
  {
    match ClassifyName(Lower(ctx.name))
    case Some(k) => Ok(Mechanism(ctx.qualifier, k, ctx.value))
    case Nothing => Err(InvalidMechanism)
  }

  /** `EvaluateModifier`: only the exact, case-sensitive name `redirect` is
      a modifier, and it is always Pass whatever prefix it was written with. */
  function EvaluateModifier(ctx: Context): (r: Result<Mechanism>)
    ensures r.Ok? <==> ctx.name == KindName(Redirect)
    ensures r.Ok? ==> r.value == Mechanism(Pass, Redirect, ctx.value)
    ensures r.Err? ==> r.error == InvalidModifier
  {
    if ctx.name == "redirect" then Ok(Mechanism(Pass, Redirect, ctx.value))
    else Err(InvalidModifier)
  }

  /** Append a character to the buffer the target tag selects. */
  function Write(ctx: Context, c: char): Context {
    if ctx.target == NameBuffer then ctx.(name := ctx.name + [c])
    else ctx.(value := ctx.value + [c])
  }

  /** Classify the current token, append it to the matching list and start a
      fresh token. */
  function Emit(st: ScanState): (r: Result<ScanState>)
    ensures Valid(st) && r.Ok? ==> Valid(r.value)
    ensures r.Ok? ==> r.value.ctx == Fresh
    ensures r.Ok? ==> |r.value.mechanisms| + |r.value.modifiers| == |st.mechanisms| + |st.modifiers| + 1
    ensures r.Ok? ==> st.mechanisms <= r.value.mechanisms && st.modifiers <= r.value.modifiers
    ensures r.Err? ==> r.error == (if st.ctx.modifier then InvalidModifier else InvalidMechanism)
    ensures st.ctx.modifier ==> (r.Ok? <==> EvaluateModifier(st.ctx).Ok?)
    ensures st.ctx.modifier && r.Ok? ==>
      r.value.mechanisms == st.mechanisms && r.value.modifiers == st.modifiers + [EvaluateModifier(st.ctx).value]
    ensures !st.ctx.modifier ==> (r.Ok? <==> EvaluateMechanism(st.ctx).Ok?)
    ensures !st.ctx.modifier && r.Ok? ==>
      r.value.modifiers == st.modifiers && r.value.mechanisms == st.mechanisms + [EvaluateMechanism(st.ctx).value]
  {
    if st.ctx.modifier then
      var m :- EvaluateModifier(st.ctx);
      Ok(ScanState(Fresh, st.mechanisms, st.modifiers + [m]))
    else
      var m :- EvaluateMechanism(st.ctx);
      Ok(ScanState(Fresh, st.mechanisms + [m], st.modifiers))
  }

  /** One iteration of the parse loop. */
  function Step(st: ScanState, c: char): (r: Result<ScanState>)
    ensures Valid(st) && r.Ok? ==> Valid(r.value)
    ensures r.Ok? ==> st.mechanisms <= r.value.mechanisms && st.modifiers <= r.value.modifiers
    ensures r.Err? ==> r.error in {Syntax, InvalidMechanism, InvalidModifier}
    // a separator with no name before it, in any state, is a syntax error
    ensures IsSeparator(c) && st.ctx.name == [] ==> r == Err(Syntax)
    // the first separator after a name switches to the value buffer, and `=`
    // marks the token as a modifier
    ensures IsSeparator(c) && st.ctx.name != [] && st.ctx.target == NameBuffer ==>
      r == Ok(st.(ctx := st.ctx.(target := ValueBuffer, modifier := st.ctx.modifier || c == '=')))
    // any later separator is text of the value
    ensures IsSeparator(c) && st.ctx.name != [] && st.ctx.target == ValueBuffer ==>
      r == Ok(st.(ctx := st.ctx.(value := st.ctx.value + [c])))
  {
    var ctx := st.ctx;
    if IsQualifierSymbol(c) then
      if ctx.name == [] && ctx.value == [] then
        match EvaluateQualifier(c)
        case Ok(q) => Ok(st.(ctx := ctx.(qualifier := q)))
        case Err(e) => Err(e)
      else
        Ok(st.(ctx := Write(ctx, c)))
    else if IsSeparator(c) then
      if ctx.name == [] then Err(Syntax)
      else if ctx.target == NameBuffer then
        Ok(st.(ctx := ctx.(target := ValueBuffer, modifier := c == '=' || ctx.modifier)))
      else
        Ok(st.(ctx := Write(ctx, c)))
    else if IsWhitespace(c) then
      if ctx.target == NameBuffer || ctx.value == [] then Ok(st)
      else Emit(st)
    else
      Ok(st.(ctx := Write(ctx, c)))
  }

  /** The parse loop: `Step` folded over the characters, stopping at the
      first error. */
  function Scan(st: ScanState, s: string): (r: Result<ScanState>)
    decreases |s|
    ensures Valid(st) && r.Ok? ==> Valid(r.value)
    ensures r.Ok? ==> st.mechanisms <= r.value.mechanisms && st.modifiers <= r.value.modifiers
    ensures r.Err? ==> r.error in {Syntax, InvalidMechanism, InvalidModifier}
  {
    if s == [] then Ok(st)
    else
      var next :- Step(st, s[0]);
      Scan(next, s[1..])
  }

  /** After the loop: a pending token is emitted only if it has a name. */
  function Finish(st: ScanState): (r: Result<ScanState>)
    ensures Valid(st) && r.Ok? ==> Valid(r.value)
    ensures st.ctx.name == [] ==> r == Ok(st)
    ensures r.Err? ==> r.error in {InvalidMechanism, InvalidModifier}
  {
    if st.ctx.name != [] then Emit(st) else Ok(st)
  }

  /** Scan a text and flush the pending token. */
  function Run(st: ScanState, s: string): (r: Result<ScanState>)
    ensures Valid(st) && r.Ok? ==> Valid(r.value)
    ensures r.Err? ==> r.error in {Syntax, InvalidMechanism, InvalidModifier}
  {
    var scanned :- Scan(st, s);
    Finish(scanned)
  }

  /** `ParseSPF`: reject text without the marker, scan exactly what follows
      it, and return the mechanisms followed by the modifiers. */
  function ParseSpf(s: string): (r: Result<Record>)
    ensures !IsSpf(s) <==> r == Err(NoSpf)
    ensures r.Ok? ==> Grouped(r.value)
    ensures r.Ok? ==> forall i :: 0 <= i < |r.value| ==> WellFormedMechanism(r.value[i])
    ensures r.Err? ==> r.error in {NoSpf, Syntax, InvalidMechanism, InvalidModifier}
  {
    if !IsSpf(s) then Err(NoSpf)
    else
      var fin :- Run(Init, s[|Version|..]);
      Ok(fin.mechanisms + fin.modifiers)
  }
}
