# go-spf in Dafny

A model of the core of the Go package `spf` (moverval/go-spf). The package evaluates Sender Policy Framework records: it parses the text of a TXT record that starts with `v=spf1` into an ordered list of mechanisms, then executes those mechanisms against an IP address, following `include:` and `redirect=` into other records with a depth budget.

The model has three parts, in the package's own structure:

- **Record parser** (`parser.dfy`, module `SpfParser`). `ParseSPF` is a fold of `Step` over the characters after `v=spf1`. The parse context is an explicit record holding:
  - the qualifier;
  - the name and value buffers;
  - a `Target` tag, which replaces the Go code's re-pointable `writeValue` string pointer and its `WritingDescriptor` flag;
  - the modifier flag.

  `parser_lemmas.dfy` (`SpfParserFacts`) proves the per-character behaviour and a render/parse round trip. `parser_examples.dfy` (`SpfParserExamples`) states the outcome of every record in the parser tests (parser_test.go:11, 33, 49, 65, 81, 93, 105, 124 and 140). The record at :11 is proved through the round trip on the rendered list. The records at :105 and :140 are proved through the round trip with a blank after some qualifier symbols. The others are proved through the loose-directive, unknown-name, bare-modifier and separator lemmas. The text of the record at :11 and at :105/:140 is given as the rendering it equals, not as a literal string.
- **Lookup helpers** (`lookup.dfy`, module `SpfLookup`). These model only what happens after the DNS exchange returns: filtering the answer list.
  - The exchange is an oracle from (name, query type) to an answer list or an error text.
  - The address library is an oracle too: address equality, the address's text form, and CIDR membership.

  All four oracles sit in an `Env` record.
- **Evaluation engine** (`interpreter.dfy`, module `SpfInterpreter`). `ExecuteMechanism` is `Execute`, and its include/redirect branch is `Follow`. The two are mutually recursive with `Included`, the loop over an included record. The recursion is indexed by a natural-number depth. `ValidateIP` is `ValidateIp` over `Evaluate`, the top-level loop. `interpreter_lemmas.dfy` (`SpfInterpreterFacts`) proves:
  - how a record's verdict composes;
  - how the include loop differs from the top-level loop;
  - that a verdict reached within a budget is stable under any larger budget;
  - how the `exists` macro expands.

`types.dfy` (`SpfTypes`) holds the qualifiers, the mechanism kinds, mechanisms, records and the error names of `errors.go`.

Three behaviours of the code are modelled as written, where the comments or a reader might expect otherwise.

- **The outer include qualifier is ignored.** In the include loop of `ExecuteMechanism`, the loop variable shadows the outer mechanism (interpreter.go:131). The test at interpreter.go:140 therefore reads the *inner* mechanism's qualifier, and the qualifier of the `include`/`redirect` directive itself is never consulted. The comment at interpreter.go:139 says otherwise.
  - `OuterQualifierIgnored` proves this for every environment.
  - `NestedFailNotPropagated` gives a concrete case. A top-level `-include:` of a record `v=spf1 all` yields Pass, while one level deeper the inner `-` does replace the verdict.
- **A valueless mechanism glues onto the next token.** Whitespace is skipped while the name is being read (parser.go:123). So a valueless mechanism is ended only by the end of the input, and whatever token follows it is glued onto its name.
  - `BareMechanismGlued` proves that the blanks between the two might as well not be there, for any follower without whitespace, `:` or `=`.
  - A follower that starts with a qualifier symbol and holds no whitespace, `:` or `=` always makes the record fail: `v=spf1 mx -all` reads as the single name `mx-all` and gives `invalidmechanism` (`BareMechanismMerges`). A follower with a separator takes the separator's path instead: `v=spf1 mx ~redirect=x` reads the modifier name `mx~redirect` and gives `invalidmodifier`.
  - Any other follower is glued too. `v=spf1 mx all` reads as `mxall` and gives `invalidmechanism`, while `v=spf1 a ll` is the valid Pass mechanism `all` (`AnyFollowerGlued`).
- **Only the first MX answer is consulted.** `MatchIPWithMXRec` returns the A-record match of the first MX host and ignores later MX answers.

## Model

| member | source | states |
|---|---|---|
| SpfParser.IsSpf | parser.go:58-60 | see `SpfParserFacts.IsSpfExactly` |
| SpfParser.LowerChar | parser.go:196 | an ASCII capital becomes the small letter at the same alphabet position; capital I with dot above becomes `i` and the Kelvin sign becomes `k`; every other character is unchanged, and the result is never an ASCII capital |
| SpfParser.Lower | parser.go:196 | the length is kept; at each position an ASCII capital becomes the small letter at the same alphabet position, capital I with dot above becomes `i`, the Kelvin sign becomes `k`, and any other character is kept; no ASCII capital remains |
| SpfParser.EvaluateQualifier | parser.go:179-192 | succeeds exactly on `+ - ~ ?`; the result is never None; anything else is `invalidqualifier` |
| SpfParser.QualifierSymbol | parser.go:179-192 | every qualifier other than None has a symbol that `EvaluateQualifier` maps back to it (the inverse direction) |
| SpfParser.ClassifyName | parser.go:196-223 | a lower-cased name is classified as a kind exactly when it is that kind's keyword, and only the eight directive keywords are classified |
| SpfParser.EvaluateMechanism | parser.go:194-224 | success keeps the token's qualifier and value and yields a directive kind whose keyword equals the lower-cased name; failure is `invalidmechanism`, and then no directive keyword matches the lower-cased name |
| SpfParser.EvaluateModifier | parser.go:226-236 | succeeds exactly when the name is `redirect`, case-sensitively; the result is always a Pass redirect carrying the value; otherwise `invalidmodifier` |
| SpfParser.Emit | parser.go:127-150 | a token read with the modifier flag succeeds exactly when `EvaluateModifier` does, and then that modifier is appended to the modifier list and the mechanism list is unchanged; any other token succeeds exactly when `EvaluateMechanism` does, and then that mechanism is appended to the mechanism list and the modifier list is unchanged; a failure is `invalidmodifier` for a modifier-flagged token and `invalidmechanism` otherwise; the context is reset (qualifier Pass, empty buffers, name target, no modifier flag) and the scan invariant is kept |
| SpfParser.Step | parser.go:84-153 | one character keeps the scan invariant (qualifiers never None, value stage only after a name, modifiers always Pass redirects), only extends the output lists, and fails only with `syntax` or a classification error; a `:` or `=` with an empty name is `syntax` in every state; the first separator after a name switches to the value buffer and `=` sets the modifier flag; a later separator is appended to the value |
| SpfParser.Scan | parser.go:83-154 | the loop keeps the invariant, only extends the output lists, and fails only with `syntax` or a classification error |
| SpfParser.Finish | parser.go:156-174 | without a pending name nothing is emitted; the invariant is kept; failure is a classification error |
| SpfParser.ParseSpf | parser.go:63-177 | fails with `nospf` exactly when the prefix is missing; every result lists all ordinary mechanisms before every modifier, and every entry is a directive with a real qualifier or a Pass redirect; other errors are `syntax`, `invalidmechanism` or `invalidmodifier` |
| SpfParserFacts.IsSpfExactly | parser.go:58-60 | a text is a record exactly when it is `v=spf1` followed by anything, so the test is case-sensitive and `v=spf10` passes |
| SpfParserFacts.LowerIdempotent | parser.go:196 | lower-casing a lower-cased name changes nothing |
| SpfParserFacts.CaseVariantLowered | parser.go:196 | a name that differs from a keyword only by upper-case ASCII letters lower-cases to that keyword |
| SpfParserFacts.CaseVariantRecognised | parser.go:194-224 | a token whose name is a directive keyword written in any mixture of ASCII case is that directive, with the token's qualifier and value |
| SpfParserFacts.ScanAppend | parser.go:83-154 | scanning a concatenation is scanning its parts in turn, and an error in the first part stops the scan |
| SpfParserFacts.WhitespaceSkipped | parser.go:122-125 | whitespace while reading the name, or before any value character, changes nothing |
| SpfParserFacts.QualifierRunLastWins | parser.go:85-95 | a run of qualifier symbols before any name sets the qualifier, and the last symbol wins |
| SpfParserFacts.QualifierThenBlank | parser.go:85-125 | a qualifier symbol before any name followed by whitespace only sets the qualifier; the blank neither ends nor starts a token |
| SpfParserFacts.ScanPlainName | parser.go:151-152 | ordinary characters in the name stage extend the name |
| SpfParserFacts.ScanNameText | parser.go:85-97 | once a name has begun, a qualifier symbol is an ordinary name character |
| SpfParserFacts.ScanValueText | parser.go:96-120 | in the value stage every non-whitespace character, including qualifier symbols, `:` and `=`, is appended to the value |
| SpfParserFacts.SeparatorWithoutName | parser.go:98-112 | `:` or `=` before any name is `syntax`, whatever follows and whatever whitespace precedes it |
| SpfParserFacts.SeparatorWithoutNameScan | parser.go:98-112 | from any state with an empty name (after a qualifier symbol, after an emitted token), blanks and then `:` or `=` stop the scan with `syntax`, whatever follows |
| SpfParserFacts.SeparatorAfterDirective | parser.go:98-150 | after a directive with a value and at least one blank, a `:` or `=` has no name before it and the record is `syntax` |
| SpfParserFacts.OtherModifierRejected | parser.go:109-120 | any plain name other than `redirect` written with `=` is read as a modifier and the record is `invalidmodifier`, even when the name is a directive keyword |
| SpfParserFacts.KeywordRecognised | parser.go:194-224 | a directive keyword is recognised in any mixture of case; `redirect` used as a mechanism is `invalidmechanism` |
| SpfParserFacts.NameWithSymbolRejected | parser.go:194-224 | a name containing a qualifier symbol is never a mechanism |
| SpfParserFacts.BareMechanismMerges | parser.go:122-125 | a valueless mechanism followed by whitespace and a token that starts with a qualifier symbol and has no whitespace, `:` or `=` is glued to that token and rejected with `invalidmechanism` |
| SpfParserFacts.BareMechanismGlued | parser.go:122-125 | a valueless mechanism followed by whitespace and any token without whitespace, `:` or `=` parses exactly as if the whitespace were not there |
| SpfParserFacts.LooseDirective | parser.go:83-174 | blanks before a directive keyword in any ASCII case, between its `:` and a value, and after the value are all skipped: the record is that one Pass directive |
| SpfParserFacts.LooseUnknown | parser.go:83-174 | blanks, a plain name that lower-cases to no directive keyword, `:`, blanks, a value (possibly empty) and trailing blanks: the record is `invalidmechanism` |
| SpfParserFacts.BareModifier | parser.go:83-174 | `redirect=v` alone after the marker is the record's only entry, a Pass redirect to `v` |
| SpfParserFacts.ModifierQualifierDropped | parser.go:226-232 | a modifier written with any qualifier symbol comes out as Pass |
| SpfParserFacts.BlankEndsValue | parser.go:122-150 | any whitespace character after a value character emits the token |
| SpfParserFacts.EmitPending | parser.go:127-143 | emitting a token read from a mechanism's text gives back that mechanism, in the list its kind belongs to |
| SpfParserFacts.RunTokens | parser.go:83-174 | scanning a list of rendered tokens appends its directives and its modifiers, each in order, to the two output lists |
| SpfParserFacts.RoundTrip | parser.go:63-177 | parsing a rendered list gives its directives in order followed by its modifiers in order |
| SpfParserFacts.RoundTripGrouped | parser.go:63-177 | a rendered list with no directive after a modifier parses back to itself |
| SpfParserFacts.SpacedLikeToken | parser.go:85-125 | a directive written as qualifier symbol, blank, name scans exactly like the same directive written without the blank |
| SpfParserFacts.StyledRoundTrip | parser.go:63-177 | for any choice of which directives put a blank after their qualifier symbol, parsing the text gives the directives in order followed by the modifiers in order |
| SpfParserExamples.LongRecord | parser_test.go:10-30 | the long test record parses to its seven mechanisms, `~all` with an empty value |
| SpfParserExamples.QualifiersKept | parser_test.go:104-121 | the test's record, with `+` and `-` followed by a blank and `~` and `?` written directly before the name, parses to the four `ip4` mechanisms, each with its own qualifier |
| SpfParserExamples.RedirectMovedLast | parser_test.go:139-157 | the test's record, a leading redirect followed by `+ a:…`, `- a:…`, `~a:…`, `?a:…`, parses to the four `a` mechanisms in order, each with its own qualifier, followed by the redirect |
| SpfParserExamples.AnyFollowerGlued | parser.go:122-125 | `v=spf1 a ll` parses to one Pass `all`, and `v=spf1 mx all` is `invalidmechanism` |
| SpfParserExamples.BareMechanismBeforeAll | parser.go:122-125 | `v=spf1 -all` is one Fail mechanism, while `v=spf1 mx -all` is rejected |
| SpfParserExamples.SoftFailRedirect | parser.go:226-232 | `~redirect=x` yields a Pass redirect |
| SpfParserExamples.IncludeRecord | parser_test.go:32-46 | `v=spf1 include:spf.voulter.com` is one Pass include of `spf.voulter.com` |
| SpfParserExamples.HyphenInValue | parser_test.go:48-62 | `v=spf1 include:spf-test.voulter.com` is one Pass include; the `-` inside the value is text |
| SpfParserExamples.UnformattedInclude | parser_test.go:64-78 | the test's record, with 18 blanks before `InCluDe:`, 6 blanks before the value and 5 after it, is one Pass include of `spf.voulter.com` |
| SpfParserExamples.UnknownNameRejected | parser_test.go:80-90 | `v=spf1 notinstandard: helloworld` is `invalidmechanism` |
| SpfParserExamples.RedirectRecord | parser_test.go:123-137 | `v=spf1 redirect=_spf.voulter.com` is one Pass redirect |
| SpfParserExamples.ColonWithoutName | parser_test.go:92-102 | `v=spf1  : helloworld` is a syntax error |
| SpfParserExamples.SeparatorAfterToken | parser.go:98-101 | `v=spf1 a:x :y` is a syntax error: the `:` follows an emitted directive and has no name |
| SpfParserExamples.IncludeAsModifier | parser.go:109-120 | `v=spf1 include=x` is `invalidmodifier`, not an include |
| SpfLookup.FirstSpfIn | lookup.go:24-28 | no result exactly when no string carries the prefix; otherwise the result is the first string that does |
| SpfLookup.FirstSpf | lookup.go:22-30 | the nested answer-then-string search equals the first SPF string of the flattened TXT strings |
| SpfLookup.FirstSpfInAppend | lookup.go:22-30 | searching two lists in turn is searching their concatenation |
| SpfLookup.LookupSpf | lookup.go:12-33 | the result carries the prefix; an exchange error is returned unchanged; otherwise the result is the first SPF string of the TXT answers, or `notfound` when there is none |
| SpfLookup.FirstA | lookup.go:48-52 | no result exactly when no answer is an A record; otherwise the address of the first A answer |
| SpfLookup.LookupARec | lookup.go:38-55 | an error exactly when the exchange fails, and then that error; no address exactly when there is no A answer; otherwise the address of the first A answer, with no A answer before it |
| SpfLookup.AnyAMatches | lookup.go:70-78 | true exactly when some A answer's address equals the IP |
| SpfLookup.MatchIpWithARec | lookup.go:60-79 | an error exactly when the exchange fails, and then that error; otherwise true exactly when some A answer equals the IP |
| SpfLookup.FirstMx | lookup.go:94-104 | no result exactly when there is no MX answer; otherwise the host of the first MX answer |
| SpfLookup.MatchIpWithMxRec | lookup.go:84-107 | an exchange error is returned unchanged; without an MX answer the result is false; otherwise the result, error included, is the A-record match of the first MX host alone |
| SpfLookup.AnyPtrNamed | lookup.go:122-130 | true exactly when some PTR answer names the domain exactly |
| SpfLookup.MatchIpWithPtrRec | lookup.go:112-131 | the question is the IP's text; an error exactly when that exchange fails; otherwise true exactly when some PTR answer equals the domain, case-sensitively |
| SpfInterpreter.Decide | interpreter.go:47-57 | a matcher error is returned as an error, never as a non-match; a match gives the mechanism's qualifier and no match gives None |
| SpfInterpreter.MatchIpWithCidr | interpreter.go:157-165 | an invalid CIDR text is an error; otherwise the result is the membership answer |
| SpfInterpreter.ExistsVerdict | interpreter.go:98-112 | an error exactly when the A lookup of the expanded name fails, and then the exchange's own error unchanged; otherwise the mechanism's qualifier when the first A answer has an address, and None when there is no A answer or the first one's address is nil |
| SpfInterpreter.ExpandIp | interpreter.go:100 | text in which no `%{i}` starts is unchanged, even if it holds `%` or other macros, and the macro `%{i}` alone becomes the IP's text |
| SpfInterpreter.Execute | interpreter.go:41-152 | `all` yields its qualifier; `ip4`/`ip6`, `a`, `mx` and `ptr` give their matcher's answer through `Decide`; `exists` gives the verdict of the expanded A lookup; include/redirect give the `Follow` result; a kind outside the numbering yields None; every mechanism other than include/redirect yields its own qualifier or None, and only include/redirect can run out of recursions |
| SpfInterpreter.Follow | interpreter.go:113-130 | at depth 0 the result is `outofrecursions`, before any lookup; a lookup failure is returned unchanged; a parse failure of the fetched record is returned unchanged |
| SpfInterpreter.Fetch | interpreter.go:119-129 | a lookup failure is returned unchanged; after a successful lookup the result is the parse of the looked-up text, error or record; no failure is `nospf`, since the fetched text carries the prefix; a fetched record lists its mechanisms before its modifiers |
| SpfInterpreter.Included | interpreter.go:131-148 | `outofrecursions` arises only from an include/redirect in the record; a verdict other than None is the qualifier of some mechanism of the record, or comes through a Pass include/redirect in it |
| SpfInterpreter.Evaluate | interpreter.go:25-37 | None exactly when every mechanism yields None; otherwise the result, error or verdict, is that of the first mechanism that does not yield None, and all mechanisms before it yield None |
| SpfInterpreter.ValidateIp | interpreter.go:12-38 | a lookup failure or a parse failure is returned unchanged, and then no mechanism runs |
| SpfInterpreterFacts.EvaluateAppend | interpreter.go:25-37 | evaluating a concatenation reaches the second record only when the first yields None |
| SpfInterpreterFacts.IncludedVersusEvaluate | interpreter.go:131-148 | the include loop gives the top-level loop's errors and Nones unchanged; a verdict from an inner mechanism that is not Pass is replaced by that mechanism's qualifier |
| SpfInterpreterFacts.AllPassIncluded | interpreter.go:131-148 | an included record of Pass mechanisms gives its top-level verdict |
| SpfInterpreterFacts.OuterQualifierIgnored | interpreter.go:113-148 | an include's own qualifier does not affect its result, and include and redirect behave the same |
| SpfInterpreterFacts.ExecuteStable | interpreter.go:115-132 | a mechanism result other than `outofrecursions` is unchanged by one more unit of depth |
| SpfInterpreterFacts.FollowStable | interpreter.go:115-130 | the same for the include/redirect branch |
| SpfInterpreterFacts.IncludedStable | interpreter.go:131-148 | the same for the include loop |
| SpfInterpreterFacts.EvaluateStable | interpreter.go:25-37 | the same for the top-level loop |
| SpfInterpreterFacts.ValidateIpStable | interpreter.go:10-37 | a verdict or error other than `outofrecursions` reached with some depth is the result for every larger depth |
| SpfInterpreterFacts.ExpandPlainPrefix | interpreter.go:100 | a prefix in which no `%{i}` starts passes through the replacement unchanged |
| SpfInterpreterFacts.ExpandJoin | interpreter.go:100 | for parts without `%{i}` (other macros and `%` allowed), joining them with `%{i}` and replacing gives the parts joined with the IP's text |
| SpfInterpreterFacts.NoStraddle | interpreter.go:100 | no `%{i}` starts inside a part without one when the next `%{i}` follows it |
| SpfInterpreterFacts.ExpandEvery | interpreter.go:100 | every text splits at its `%{i}` occurrences into parts without `%{i}` that join back to it, and the replacement is exactly those parts joined with the IP's text |
| SpfInterpreterFacts.OtherMacroKept | interpreter.go:100 | only `%{i}` is replaced: `%{d}.%{i}` becomes `%{d}.` followed by the IP's text |
| SpfInterpreterFacts.NestedFailNotPropagated | interpreter.go:131-148 | a top-level `-include:` of `v=spf1 all` validates as Pass, and including that record one level deeper gives Fail |

## Left out

- DNS transport: the message, the client, `Exchange`, `dns.Fqdn` and the nameserver address. The exchange is the `exchange` oracle of `Env`. For TXT, A and MX questions the oracle receives the domain before `dns.Fqdn` and stands for canonicalisation and exchange together. A PTR question is the raw `ip.String()` text, which the code sends without `dns.Fqdn` and without an in-addr.arpa name (lookup.go:112-131); the oracle receives exactly that text.
- Address library: `net.ParseCIDR`, `IPNet.Contains`, `net.IP.Equal` and `ip.String()`. They are the oracles `cidr`, `sameIp` and `ipText`; an address is a byte sequence.
- Negative depth. In Go a negative depth never reaches 0, so the bound is off. A non-terminating search cannot be a total function, so depth is a natural number; `ValidateIpStable` stands in for it by showing that a larger budget never changes a result that did not run out.
- Unicode case folding: `strings.ToLower` is modelled only as far as it can make a name equal an ASCII keyword. That means the ASCII capitals plus the two characters whose lower case is an ASCII letter, capital I with dot above and the Kelvin sign. Every other character keeps its own value, which leaves classification unchanged.
- Runes: the Go loop ranges over UTF-8 runes, and invalid bytes become U+FFFD; here the text is already a sequence of characters.
- SpfInterpreter.ExistsVerdict: an address is a byte sequence, and the zero-length sequence stands for Go's nil `net.IP` (an A answer whose `A` field is nil). A non-nil empty slice, which Go would treat as not nil, is not distinguished from it.
- SpfInterpreter.ValidateIp: on a lookup failure Go returns qualifier 0 (Pass) alongside the error, and None alongside every other error. The model returns only the error, as every caller checks the error first.
- SpfParser.EvaluateQualifier: Go returns qualifier 0 alongside `invalidqualifier`; the model returns only the error. The parser calls it only on the four symbols, so that error never leaves `ParseSpf`.
- `spf.go` is not part of this model: it is a superseded parser that redeclares the same identifiers.
- The tests that query live DNS data (interpreter_test.go, lookup_test.go) depend on real zones and are not modelled.
- Rendering: `Render` writes Pass without a prefix and puts one blank between tokens. The round trip therefore covers records whose values have no whitespace and whose valueless mechanism, if any, comes last; the gluing lemma covers the rest.
