# The SPOCP authorization kernel in Dafny

SPOCP decides authorization by one relation on restricted S-expressions: a query is
allowed when it is *less permissive* than some rule. This project models the kernel of the
Go implementation and proves what it promises, and where it falls short of a promise,
exactly when it keeps it.

| modules | what they model |
|---|---|
| `ByteStrings`, `Utf8`, `Wrappers` | Go strings as byte sequences: order, decimal numerals, length-value framing, runes and white space |
| `Elements`, `StarForms`, `Compare` | atoms, lists and star forms, their canonical text, `Match`, and the relation itself |
| `Order`, `Semantics`, `Ranges` | order theory of the relation, its meaning by the definitions of draft-hedberg-spocp-sexp-00, and what byte order makes of numbers and dates |
| `Parsing` | the recursive-descent parser of canonical text |
| `Engines`, `EngineProofs`, `Adaptive` | the rule engine with its tag index, and the engine that switches indexing on and off |
| `Protocol`, `BinaryFiles`, `TextFiles`, `TextProofs`, `AdvancedText`, `AdvancedProofs`, `AdvancedEdges`, `Restoring` | the wire format, the three file formats, and engines rebuilt from files |
| `Servers`, `Sessions`, `Replies`, `Concurrency`, `Histories` | message handlers, whole connections with the client's half, concurrent connections under the two locks, and the calls of such runs with the history they make |
| `Authzen` | AuthZen requests as queries |

Code that updates state is modelled as classes and methods (`Engine`, `AdaptiveEngine`,
`Parser`, `Reader`, `Server`, and the loops of the file formats). Each method is proved
against a function on values (`Add`, `Answer`, `ElementAt`, `MessageAt`, `LoadedText`, ...),
and the theorems are about these functions. Go panics are an outcome of their own
(`Crashed`, `Panics`), errors another (`Failed`, `Malformed`, `Undecodable`). Machine
integers wrap around where the code lets them (`WrapInt` in the parser). Texts are at most
2^63-1 bytes long, and messages at most 2^48, beyond which Go's `make` panics on 64-bit
machines.

## Where the code departs from its documentation

The model follows the code; each departure is stated by a theorem.

- A set on the left is compared with a star form by kind only, against rule 8 of the
  documented algorithm: `s <= s` fails for every element that holds a set, and a chain breaks
  wherever a set on the left stands below a star form on the right, inside lists, too
  (`Order.ReflexiveExactly`, `Semantics.ChainClosesExactly`,
  `Semantics.NestedSetBreaksChain`).
- Containment of ranges and the matching of IP ranges ignore the bounds' operators
  (`Order.ContainedRangesExactly`, `Semantics.IPRangeExactly`), and containments that hold
  only because no string comes between two bounds are missed (`Ranges.MissedExactly`).
- Numeric ranges compare texts: the range from 10 to 20 matches 100, and the only ranges of
  inclusive numbers that are right on all numbers are trivial ones
  (`Ranges.HundredBelowTwenty`, `Ranges.NumericRangeExactly`, `Ranges.NumericSideExactly`).
  Containment of date ranges compares texts too, while matching compares instants
  (`Ranges.TimeZonesMislead`, `Ranges.DateComparisonExactly`).
- With indexing on, a list query never meets a rule that is no list: the wildcard, or a set
  that holds a list (`EngineProofs.SetRuleIsMissed`, `EngineProofs.AgreementExactly`).
- Clearing an adaptive engine while indexing is off leaves its index behind; a later query
  may then panic, though never get a wrong answer (`Adaptive.ClearedIndexPanics`,
  `Adaptive.IndexExactly`, `Adaptive.StaleQueryExactly`).
- A length that is negative, or so large that the end position wraps around, makes the
  parser panic instead of returning an error (`Parsing.NegativeLengthPanics`,
  `Parsing.TextPanicsExactly`), and so does a frame longer than any buffer
  (`Protocol.OverlongFramePanics`, `Protocol.MessagePanicsExactly`). As nothing recovers,
  such a message ends the server (`Sessions.MinusOneEndsServer`, `Sessions.GoesDownExactly`).
- Star forms print as lists tagged `*` and load as such, so a wildcard rule saved and
  loaded no longer allows anything but such lists (`Parsing.RoundTripExactly`,
  `Restoring.WildcardIsLost`).
- Bytes without a colon behind the last argument of a message are silently dropped
  (`Protocol.TrailingBytesExactly`).
- A rule whose text has a newline, ends in a space or is too long for one line makes a saved
  text file unloadable (`TextFiles.TextRoundTripExactly`).
- The advanced form quotes nothing and its reader keeps quotes in the atom
  (`AdvancedProofs.QuotedStays`); an opening parenthesis by itself panics it
  (`AdvancedEdges.LoneParenPanics`, `AdvancedEdges.AdvancedPanicsExactly`).
- The advanced form reads back only for lists with elements, two levels deep
  (`AdvancedProofs.AdvancedRoundTripExactly`).
- The end of a connection is answered with a protocol error, because the decoder wraps the
  error the server tests for (`Sessions.HandleConnection`).

## Model

| member | source | states |
|---|---|---|
| Order.ReflexiveExactly | pkg/compare/compare.go:23-83 | every element is below itself exactly when no set occurs in it |
| Order.AntisymmetricExactly | pkg/compare/compare.go:87-197 | set-free elements are below each other exactly when they are equal up to the operators of range bounds |
| Order.EraseOpsInjective | pkg/compare/compare.go:152-178 | with the operators fixed to ge and le, that is equality: the relation is antisymmetric |
| Order.Transitive | pkg/compare/compare.go:23-106 | a chain from a set-free element closes, for any upper element with inclusive ranges, or any upper element at all when the middle one is simple |
| Order.RangesTransitive | pkg/compare/compare.go:152-178 | containment of ranges is transitive whatever the bounds |
| Order.RangeMonotone | pkg/starform/starform.go:130-189 | a value matched by a range is matched by every inclusive range that contains it |
| Order.ContainedRangesExactly | pkg/compare/compare.go:152-178 | for all types but dates, what the code calls contained is contained, in byte order, exactly when no bound the larger range excludes is a value of the smaller; for IP ranges always, as matching excludes nothing |
| StarForms.ElementsEqualExact | pkg/starform/starform.go:288-318 | the structural comparison is equality on simple elements and fails on all others |
| Semantics.BoundedIsBelow | pkg/compare/compare.go:23-106 | no simple query that a rule bounds by the definition in section 5.3 of draft-hedberg-spocp-sexp-00 is refused, whatever the rule is made of |
| Semantics.QueryExact | pkg/compare/compare.go:23-106 | for every simple query and every rule without excluded bounds of IP ranges, the code decides that definition, with date ranges read as instants and all other ranges in byte order |
| Semantics.Sound | pkg/compare/compare.go:23-83 | whenever the code says s <= t, all that s stands for is bounded within t: for any s, and any t whose ranges exclude no bound and bound no date |
| Semantics.Exact | pkg/compare/compare.go:23-197 | on atoms, lists, wildcards and non-empty prefixes and suffixes the code decides the inclusion of section 5.3 of the draft, both ways |
| Semantics.ExactForQueries | pkg/compare/compare.go:23-197 | on these, s <= t exactly when t authorizes every simple query that s authorizes |
| Semantics.SetExact | pkg/compare/compare.go:39-80 | for a set of such elements below one that is no star form, the code decides the inclusion, both ways |
| Semantics.NoStarFormBelowSet | pkg/compare/compare.go:47-49 | a star form is never below a set |
| Ranges.RangesExactly | pkg/starform/starform.go:149-241 | for ranges of one type other than dates, with any bounds and operators: containment in byte order holds exactly when the left range has no value or its interval of strings lies within the right one's |
| Ranges.MissedExactly | pkg/compare/compare.go:152-178 | of the containments of ranges that have values, the code misses exactly those where a bound excludes just the string next to the other's, or where an empty string bounds what is unbounded |
| Semantics.IPRangeExactly | pkg/starform/starform.go:232-241 | IP matching agrees with the written bounds on all values exactly when no excluded bound is let in by the other |
| Ranges.NumeralOrderExactly | pkg/starform/starform.go:149-168 | byte order and numeric order of two decimal numerals agree exactly when neither is longer or the shorter comes first |
| Ranges.NumericBoundExactly | pkg/starform/starform.go:149-168 | a numeric bound, lower and upper, treats a number as a number exactly then |
| Ranges.NumericRangeExactly | pkg/starform/starform.go:149-168 | a numeric range of two inclusive bounds is right on all numbers exactly when the bounds are equal, or 0 and 1, or out of order both as numbers and as texts |
| Ranges.NumericSideExactly | pkg/starform/starform.go:149-168 | a numeric range of one inclusive bound, lower or upper, is right on all numbers exactly when the bound is 0 or 1 |
| Ranges.HundredBelowTwenty | pkg/starform/starform.go:149-168 | 100 is matched by the range from 10 to 20 |
| Ranges.DateContainmentExactly | pkg/starform/starform.go:191-230 | a span of dates with one, two or no inclusive bounds is contained in a date range of any operators, bounded on no other side, exactly when each end of the span passes the range's bound on its side |
| Ranges.DateComparisonExactly | pkg/compare/compare.go:152-178 | for two such spans the code answers whether the bounds' texts are in order, and containment is whether their instants are |
| Ranges.TimeZonesMislead | pkg/compare/compare.go:152-178 | with bounds written in two time zones, a range that ends an hour later passes for contained |
| Semantics.SuffixInPrefix | pkg/compare/compare.go:109-149 | every suffix form is included in the empty prefix form and in no other, and the code never says so |
| Semantics.ChainClosesExactly | pkg/compare/compare.go:23-149 | for every left end, and every upper end without sets and with inclusive ranges: a chain closes exactly when no set on the left stands where the upper end has a star form other than the wildcard |
| Semantics.NestedSetBreaksChain | pkg/compare/compare.go:109-149 | a chain from a list that holds a set does not close |
| Semantics.SetChainExactly | pkg/compare/compare.go:39-80 | from a set of set-free members, and for upper ends that may hold sets, a chain closes exactly when its upper end is the wildcard or no star form |
| Elements.String | pkg/sexp/sexp.go:25-48 | the buffered writers produce the canonical text |
| Elements.RangeString | pkg/starform/starform.go:95-123 | type, then lower, then upper bound, each only when present |
| Elements.CanonicalWords | pkg/sexp/sexp.go:25-48 | the text of every kind of element with its words spelled out |
| Elements.RangeWords | pkg/starform/starform.go:95-123 | the words of range types and operators; an undeclared type prints none |
| Elements.CanonicalIsText | pkg/starform/starform.go:36-123 | a star form has the same text as the list tagged `*` it demotes to |
| Parsing.Parser.Parse | pkg/sexp/sexp.go:76-85 | reads exactly the specified element, leaves the position behind it |
| Parsing.Parser.ParseAtom | pkg/sexp/sexp.go:88-114 | three outcomes: the atom, an error, or a panic for negative and wrapped lengths |
| Parsing.Parser.ParseList | pkg/sexp/sexp.go:117-146 | the loop reads tag and elements up to the closing parenthesis |
| Parsing.ParsesPrinted | pkg/sexp/sexp.go:76-146 | wherever the text of a simple element stands in an input, the parser reads that element and stops exactly behind it |
| Parsing.PrintedReadsDemoted | pkg/sexp/sexp.go:76-146 | the text of any element, star forms included, before any bytes, reads as its demotion |
| Parsing.RoundTripExactly | pkg/sexp/sexp.go:25-146 | parsing what was printed gives the element back exactly when it holds no star form |
| Parsing.CanonicalPrefixFree | pkg/sexp/sexp.go:25-48 | no canonical text is a proper prefix of another, and equal texts mean equal demotions |
| Parsing.CanonicalIsShortest | pkg/sexp/sexp.go:76-146 | on every input, what is consumed for an element is at least as long as its canonical text, and that long only if it is that text |
| Parsing.ElementAtSimple | pkg/sexp/sexp.go:76-146 | every element the parser returns is simple |
| Parsing.ElementExtends | pkg/sexp/sexp.go:76-146 | a parse that succeeds is not changed by bytes that follow |
| Parsing.AtomPanicsExactly | pkg/sexp/sexp.go:88-114 | an atom panics exactly when its numeral is negative or its end is beyond the machine's int |
| Parsing.TextPanicsExactly | pkg/sexp/sexp.go:76-146 | on every input the recursive parser panics exactly when a flat walk over the tokens meets such an atom as the first it cannot read |
| Parsing.NegativeLengthPanics | pkg/sexp/sexp.go:88-114 | a minus sign, a positive numeral and a colon panic, whatever follows |
| Parsing.CutTextFails | pkg/sexp/sexp.go:76-146 | no proper prefix of a canonical text parses |
| Parsing.AcceptedIsStable | pkg/sexp/sexp.go:76-85 | every accepted input advances, stays in bounds, yields a simple element, and printing and parsing that element yields it again |
| ByteStrings.AtoiOfDecimal | pkg/sexp/sexp.go:25-27 | a decimal length reads back as itself |
| ByteStrings.AtoiReads | pkg/sexp/sexp.go:88-114 | what a length with a sign and leading zeros reads as |
| ByteStrings.AtoiIsLongest | pkg/sexp/sexp.go:88-114 | any accepted numeral of a length is at least as long as the printed one, and equal to it when of that length |
| Engines.Engine.constructor | spocp.go:31-38 | an empty engine with indexing as asked |
| Engines.Engine.AddRuleElement | spocp.go:52-66 | the rule goes last, and with indexing on its position goes last under its tag or among the non-lists |
| Engines.Engine.AddRule | spocp.go:41-49 | a rule in text; the engine is untouched unless it parses |
| Engines.Engine.QueryLinear | spocp.go:88-95 | true exactly when some rule is above the query |
| Engines.Engine.QueryPositions | spocp.go:114-124 | the scan over listed positions, stopping at the first hit, panicking behind the last rule |
| Engines.Engine.QueryIndexed | spocp.go:98-111 | list queries scan their tag's positions, all others the non-lists |
| Engines.Engine.QueryElement | spocp.go:80-85 | answers in either mode |
| Engines.Engine.Query | spocp.go:70-77 | the same for a query in text, with parse errors and panics |
| Engines.Engine.FindMatching | spocp.go:133-165 | all matching rules in order, in either mode |
| Engines.Engine.FindMatchingRules | spocp.go:127-165 | the same for a query in text |
| EngineProofs.FindTextExactly | spocp.go:127-165 | on any text, from any engine in order: an error exactly when it is malformed, a panic exactly when it is bad, and else the rules at an increasing list of positions, which holds a position exactly when its rule is above the query and, indexed, of its kind |
| EngineProofs.FindPrinted | spocp.go:127-165 | in particular for every printed simple query with any bytes behind it |
| EngineProofs.AnswerTextExactly | spocp.go:70-77 | the same three outcomes for a query's answer |
| Engines.Engine.Clear | spocp.go:173-179 | the rules go; the index goes only when indexing is on |
| Engines.Engine.ImportRules | persist_helpers.go:52-57 | clearing, then adding in order |
| Engines.Engine.AddRules | persist_helpers.go:11-22 | adding in order |
| Engines.Engine.ExportRules | persist_helpers.go:44-49 | the rules in order |
| EngineProofs.IndexLastKeeps | spocp.go:52-66 | filing the appended rule keeps the index an ordered partition of the positions |
| EngineProofs.RunKeepsIndex | spocp.go:52-66 | so does every run of additions, clearings and imports, and the rules are those since the last clearing |
| EngineProofs.ExactlyOnce | spocp.go:52-66 | every position occurs exactly once, under its own tag or among the non-lists |
| EngineProofs.IndexedExactly | spocp.go:98-124 | for all rule sets and queries, indexed mode answers and finds what a linear scan over rules of the query's own kind would, in order and without a panic |
| EngineProofs.AnswersByBook | spocp.go:80-124 | every engine in order answers what its rules and its mode grant: some rule above the query, of the query's kind when indexed |
| EngineProofs.GrantsByScan | spocp.go:98-111 | that is a linear scan when, with indexing on, no rule outside the lists could cover one |
| EngineProofs.IndexedIsLinear | spocp.go:80-165 | it equals the full linear scan for atoms always, and for lists when no wildcard or list-covering set is a rule |
| EngineProofs.RunAnswersLinearly | spocp.go:52-165 | the same after every run |
| EngineProofs.AgreementExactly | spocp.go:98-111 | when the lists that set rules hold, at any depth, are simple: both modes agree on all simple list queries, and then on all without sets, exactly when no rule outside the lists reaches the wildcard, nor a list that is below no list rule |
| EngineProofs.AgreementWithoutSets | spocp.go:98-111 | when the lists that set rules hold have any star forms but sets, and list rules only inclusive ranges: both modes agree on all list queries without sets exactly under the same condition |
| EngineProofs.SetRuleIsMissed | spocp.go:98-111 | a set rule that holds a list allows that list in linear mode and not in indexed mode |
| EngineProofs.DownwardClosed | spocp.go:80-124 | for simple q <= q', any rules and either mode: if q' is authorized, so is q |
| Adaptive.AdaptiveEngine.constructor | adaptive_engine.go:50-60 | empty, indexing off |
| Adaptive.AdaptiveEngine.AddRuleElement | adaptive_engine.go:74-92 | files and counts the rule whatever the switch says, then decides the strategy |
| Adaptive.AdaptiveEngine.UpdateIndexingStrategy | adaptive_engine.go:95-119 | the loop over tags, in any order, sums the lists' lengths; fan-out and the three thresholds |
| Adaptive.AdaptiveEngine.Clear | adaptive_engine.go:142-145 | engine cleared by its own rule, statistics zeroed |
| Adaptive.AdaptiveEngine.ForceIndexing | adaptive_engine.go:168-171 | sets the switch in engine and statistics, nothing else |
| Adaptive.ForcedAndCleared | adaptive_engine.go:142-171 | after any run, forcing changes the switches alone; clearing drops rules and statistics and leaves the engine's switch |
| Adaptive.AdaptiveEngine.ImportRules | adaptive_engine.go:212-217 | clearing, then adding in order |
| Adaptive.AdaptiveEngine.QueryElement | adaptive_engine.go:127-129 | the engine's answer |
| Adaptive.AdaptiveEngine.FindMatchingRules | adaptive_engine.go:132-134 | the engine's matching rules |
| Adaptive.IndexedCounts | adaptive_engine.go:95-119 | in every correct index the tags' lists together hold one position per list rule, the other list one per other rule |
| Adaptive.RunConsistent | adaptive_engine.go:74-145 | over every run of additions, forcings, clearings and imports the statistics count the rules, and index entries exceed rules by exactly those dropped while indexing was off |
| Adaptive.IndexExactly | adaptive_engine.go:142-145 | the index is correct after a run exactly when no rule was so dropped |
| Adaptive.StaleOnlyPanics | adaptive_engine.go:142-145 | over every run, rules dropped or not, the answer to a query whose kind is all there is to see (no set, and for lists no rule outside the lists that covers one) is the linear scan's or a panic |
| Adaptive.StaleQueryExactly | adaptive_engine.go:142-145 | for such a query, list or not, it is the linear scan's exactly when indexing is off or no stale position comes before the first rule above the query |
| Adaptive.StaleExactly | adaptive_engine.go:142-145 | after every run whose rules outside the lists cover no list, the list queries with one tag are all answered as by a scan exactly when indexing is off or no stale position comes before the tag's most general rule |
| Adaptive.StrategyIsInvisible | adaptive_engine.go:74-145 | then, whatever the switch says, answers and matching rules are the linear scan's |
| Adaptive.StrategyExactly | adaptive_engine.go:95-119 | after an addition indexing is on exactly with 50 rules, 5 tags and at most 100 list rules per tag; totals are sums of parts, and the average fan-out is list rules per tag |
| Adaptive.ClearedIndexPanics | spocp.go:173-179 | one rule, Clear, indexing forced on: the next query panics where a scan denies |
| Protocol.EncodeMessage | pkg/protocol/protocol.go:51-67 | the framed concatenation of framed operation and arguments |
| Protocol.Reader.ReadFramed | pkg/protocol/protocol.go:136-168 | value, end, error or panic, and what is left unread |
| Protocol.Reader.DecodeMessage | pkg/protocol/protocol.go:80-113 | the message at the head of the stream, and what is left unread |
| Protocol.Reader.DecodeResponse | pkg/protocol/protocol.go:116-132 | the response at the head of the stream, split at its first colon |
| Protocol.MessageRoundTrip | pkg/protocol/protocol.go:51-168 | framed as in section 2 of draft-hedberg-spocp-tcp-00, any message, empty operation and arguments included, decodes to itself before any bytes, and exactly its bytes are consumed |
| Protocol.StreamRoundTrip | pkg/protocol/protocol.go:51-113 | a concatenation of encoded messages decodes to the same messages |
| Protocol.ReadsExactly | pkg/protocol/protocol.go:136-168 | a value is read exactly from a numeral that says its length, a colon and the value |
| Protocol.DecodesExactly | pkg/protocol/protocol.go:80-113 | a message is decoded exactly from a frame around frames of its operation and arguments and colonless bytes |
| Protocol.ResponsesExactly | pkg/protocol/protocol.go:116-132 | a response is decoded exactly from a frame around a colonless code, a colon and its text |
| Protocol.TrailingBytesExactly | pkg/protocol/protocol.go:80-113 | of the bytes that may follow the last argument inside the frame, exactly the colonless ones go unnoticed |
| Protocol.MessagePanicsExactly | pkg/protocol/protocol.go:80-168 | decoding panics exactly when the frame announces more than a buffer can hold, or is whole and holds such a value behind readable ones |
| Protocol.OverlongFramePanics | pkg/protocol/protocol.go:136-168 | in particular for every such number and whatever follows |
| Protocol.ResponseRoundTripExactly | pkg/protocol/protocol.go:70-132 | a response decodes to itself exactly when its code has no colon |
| BinaryFiles.SaveBinary | pkg/persist/persist.go:199-238 | header and length-prefixed rules, or an error for counts and lengths over 32 bits |
| BinaryFiles.LoadBinary | pkg/persist/persist.go:241-292 | header checks, then the rules |
| BinaryFiles.LoadBody | pkg/persist/persist.go:266-292 | the loop over the declared number of rules |
| BinaryFiles.LE32RoundTrip | pkg/persist/persist.go:199-238 | little-endian 32-bit numbers read back |
| BinaryFiles.LE32Bytes | pkg/persist/persist.go:199-238 | their bytes, least significant first |
| BinaryFiles.SavesExactly | pkg/persist/persist.go:199-238 | rules save exactly when their number and text lengths fit 32 bits, as "SPOCP", 1, the count, and each text behind its length |
| BinaryFiles.LoadsExactly | pkg/persist/persist.go:241-292 | a file loads as these rules exactly when it is "SPOCP", 1, a count, so many whole chunks that parse to the rules one by one, and anything behind them |
| BinaryFiles.CutFileFails | pkg/persist/persist.go:241-292 | no proper prefix of a saved file loads |
| BinaryFiles.BodyPanicsExactly | pkg/persist/persist.go:266-292 | loading panics exactly when the first chunk that does not parse is bad |
| BinaryFiles.DeserializesExactly | pkg/persist/persist.go:317-335 | a single rule loads exactly from a chunk that parses to it |
| BinaryFiles.BinaryRoundTripExactly | pkg/persist/persist.go:199-292 | whatever saves loads, in order, with star forms demoted; it is the same rule set exactly when all rules are simple |
| BinaryFiles.RuleRoundTripExactly | pkg/persist/persist.go:295-335 | a serialized rule deserializes to itself exactly when it is simple |
| TextFiles.LoadText | pkg/persist/persist.go:100-154 | lines, blanks, comments, both formats, invalid lines skipped or fatal, maximum count |
| TextFiles.SaveCanonical | pkg/persist/persist.go:157-168 | one canonical text per line |
| TextFiles.TextRoundTripExactly | pkg/persist/persist.go:100-168 | a saved rule set loads as itself exactly when every rule is simple and safe as a line, and loads at all exactly when every rule is safe |
| TextFiles.SafeRuleLoads | pkg/persist/persist.go:100-154 | a safe line loads as the rule's demotion, before any further lines |
| TextFiles.UnsafeRuleFails | pkg/persist/persist.go:100-154 | behind an unsafe rule nothing loads |
| TextFiles.LoadsExactly | pkg/persist/persist.go:100-154 | with the default options a file loads exactly when all its rule lines parse and no line is too long, and panics exactly when the first rule line that does not parse panics the parser |
| TextProofs.LoadsByLines | pkg/persist/persist.go:100-154 | for every file and all options: rule lines are read up to the first error, a malformed line being none when invalid lines are skipped, or until there are rules enough; the result is exactly the rules of the lines read that parse, in order, behind those already there |
| TextProofs.LoadsTheLines | pkg/persist/persist.go:100-154 | with the default options these are the parses of the file's rule lines, one by one |
| TextProofs.LimitTakesFirst | pkg/persist/persist.go:100-154 | with a maximum, the first so many of the rules that load without one |
| TextProofs.IgnoredLine | pkg/persist/persist.go:100-154 | a blank line, or one that starts with `#`, `//` or `;` behind white space, changes nothing, whatever the other options |
| TextProofs.CommentIgnorable | pkg/persist/persist.go:339-346 | a number sign and anything behind it is such a line |
| TextProofs.InterleavedLoads | pkg/persist/persist.go:100-168 | saved rules with any such lines anywhere between them load as without them |
| TextProofs.SaveAdvanced | pkg/persist/persist.go:171-183 | one advanced form per line |
| TextProofs.AdvancedFileRestores | pkg/persist/persist.go:100-183 | saved in advanced form and loaded as such, rules over words of at most two levels come back in order, but for atoms that look like comments |
| Utf8.EncodedIsRune | pkg/persist/persist.go:370-423 | every encoded code point is read as one rune, whatever follows |
| Utf8.SpacesExactly | pkg/persist/persist.go:100-154 | an encoded code point is trimmed as space exactly when Unicode calls it white space |
| TextFiles.LoadedIsSimple | pkg/persist/persist.go:100-154 | loaded rules hold no star form, whatever the file and options |
| AdvancedText.AdvancedForm | pkg/sexp/sexp.go:149-163 | the recursive printer with its parts joined by spaces |
| AdvancedText.Tokenize | pkg/persist/persist.go:370-423 | the rune loop over current token, depth and quotes |
| AdvancedText.TokensToCanonical | pkg/persist/persist.go:425-451 | tag first, then each token |
| AdvancedText.TokenToCanonical | pkg/persist/persist.go:425-451 | nested tokens are stripped, tokenized and converted in turn |
| AdvancedText.AdvancedToCanonical | pkg/persist/persist.go:356-368 | trimming, stripping, tokenizing, converting |
| AdvancedText.TokensWithin | pkg/persist/persist.go:370-423 | no token holds more parentheses than the text, which is why the recursion ends |
| AdvancedProofs.AdvancedRoundTripExactly | pkg/persist/persist.go:356-451 | over words, the advanced form converts to the canonical text exactly for atoms and for non-empty lists whose inner lists are non-empty and hold only atoms |
| AdvancedProofs.BadToken | pkg/persist/persist.go:370-423 | the tokenizer delivers the start of any deeper or empty list as a token whose text is wrong at a definite place |
| AdvancedProofs.WordsAreTokens | pkg/persist/persist.go:370-423 | words come apart at any runs of spaces, tabs and line ends |
| AdvancedProofs.QuotedStays | pkg/persist/persist.go:356-451 | between quotes spaces and parentheses are nothing special, and the quotes stay in the atom |
| AdvancedProofs.BlanksAround | pkg/persist/persist.go:356-368 | white space around a form changes nothing |
| AdvancedEdges.AdvancedPanicsExactly | pkg/persist/persist.go:356-451 | on every text the conversion reports no error, and panics exactly when an opening parenthesis outside quotes is followed by another, by the end, or by white space at depth zero |
| AdvancedEdges.LoneParenPanics | pkg/persist/persist.go:425-451 | a parenthesis by itself is such a text |
| AdvancedEdges.NothingIsNothing | pkg/persist/persist.go:356-451 | white space converts to the empty text |
| AdvancedEdges.ExtraParens | pkg/persist/persist.go:356-451 | parentheses around a list of words change nothing |
| AdvancedEdges.StrayCloseJoins | pkg/persist/persist.go:370-423 | behind a closing parenthesis that closes nothing spaces no longer separate |
| AdvancedEdges.StarFormsVanish | pkg/sexp/sexp.go:149-163 | the advanced form of a star form is empty |
| Restoring.BinaryRestores | pkg/persist/persist.go:199-292 | an indexed engine rebuilt from a binary file decides and finds what a scan over the saved simple rules does |
| Restoring.TextRestores | pkg/persist/persist.go:100-168 | the same through a text file, for rules safe as lines |
| Restoring.WildcardIsLost | pkg/persist/persist.go:157-168 | a wildcard rule allows every query before saving and only lists tagged `*` after loading |
| Servers.Server.HandleMessage | pkg/server/server.go:306-322 | dispatch by operation, with response and new state |
| Servers.Server.HandleQuery | pkg/server/server.go:325-355 | one argument, counters, codes |
| Servers.Server.HandleAdd | pkg/server/server.go:358-383 | one argument, counter, rule added or rejected |
| Servers.Server.HandleReload | pkg/server/server.go:386-397 | counters, new engine or the old one |
| Servers.Server.ReloadRules | pkg/server/server.go:410-463 | a fresh engine with the rules of all files in order, swapped in only if every file loads; otherwise the whole state is as before |
| Servers.FilesPanicExactly | pkg/server/server.go:438-451 | loading the rule files panics exactly when such a file comes behind files that all load |
| Sessions.HandleConnection | pkg/server/server.go:251-303 | a whole stream answered message by message up to LOGOUT, the first undecodable bytes or a panic |
| Sessions.SendQuery | pkg/client/client.go:97-116 | the bytes a client's query sends |
| Sessions.ReceiveAnswer | pkg/client/client.go:194-214 | how a client reads the reply |
| Sessions.QueryOverTheWire | pkg/client/client.go:97-116 | printed, framed, decoded, parsed, answered, framed and decoded, every simple query gets exactly the engine's answer to it, in every engine state |
| Sessions.QueryArrives | pkg/server/server.go:325-355 | the server's reply to a client's query is the engine's answer to its demotion; the engine is unchanged |
| Sessions.StepRefines | pkg/server/server.go:306-397 | with any engine in order, each request of a client gets the response of the engine's rule book, and the engine stays in order |
| Sessions.SessionRefines | pkg/server/server.go:251-303 | over every session of queries, additions and reloads, from any engine in order and with any undecodable bytes at its end, the responses decoded are those of its rule book, and the server ends with that book |
| Sessions.SessionScans | pkg/server/server.go:251-303 | these are the responses of a linear scan over a list of rules, when no rule of the first engine is hidden by its kind |
| Sessions.CrashesExactly | pkg/server/server.go:306-397 | with an engine in order, a message ends the server exactly when it is a query or addition whose one argument has a bad length as its first unreadable atom, or a reload that meets such a line first |
| Sessions.GoesDownExactly | pkg/server/server.go:251-303 | with an engine in order, a connection ends the server exactly when it sends such a message before any logout, or without a logout a bad frame behind its last message; the rules have no part in it |
| Sessions.MinusOneEndsServer | pkg/server/server.go:325-355 | QUERY with the argument `-1:` ends any server |
| Replies.FilesLoadExactly | pkg/server/server.go:438-451 | rule files load exactly when each does, as the parses of all their rule lines in order |
| Replies.RepliesExactly | pkg/server/server.go:306-397 | for every server in order, message and rule files: 200 exactly for a parsing query that is granted, a parsing addition and a reload that loads, 400 exactly for a parsing query that is not granted, 203 for LOGOUT, 501 for an unknown operation, else 500; the rules are changed by such additions and reloads, as these say, and by nothing else |
| Replies.ReplyTexts | pkg/server/server.go:306-397 | the text of every reply, up to an error's own words |
| Replies.OperationWords | pkg/server/server.go:306-322 | the words of the four operations |
| Replies.AnswerWords | pkg/server/server.go:306-397 | the words of replies without an error |
| Replies.ErrorWords | pkg/server/server.go:336-396 | the beginnings of errors |
| Replies.UnknownWords | pkg/server/server.go:306-322 | the beginning of the reply to an unknown operation |
| Replies.ArgumentWords | pkg/server/server.go:325-367 | the error for a wrong number of arguments |
| Replies.CountersExactly | pkg/server/server.go:325-463 | every counter, for every message |
| Replies.ClientReadsExactly | pkg/client/client.go:97-116 | a client takes 200 for yes, 400 for no, and every other code for an error |
| Replies.ClientAnswersExactly | pkg/client/client.go:97-116 | for every reply: yes and no exactly for frames with these codes, a panic exactly for a frame that is too big |
| Replies.LogoutEndsSession | pkg/server/server.go:297-301 | LOGOUT is answered, and nothing behind it is |
| Sessions.MetricsBalance | pkg/server/server.go:325-355 | over every connection, the query total grows by the queries received, and those are the granted, the denied and the malformed ones together |
| Concurrency.StepKeeps | pkg/server/server.go:344-380 | each atomic step of any thread keeps the lock, index and history invariant, whatever the rules |
| Histories.Linearizable | pkg/server/server.go:344-380 | over every interleaving, from any engine in order: one sequential history explains all answers and the live rules; it is made of the calls' own events, each between its call's beginning and its return, one for every accepted call and none shared; a call is what its text says, a reload's event is the rules of the files it read, and it is refused only by a file that cannot be read or loaded |
| Histories.RealTimeOrder | pkg/server/server.go:344-380 | if a call had returned when another began, its event comes first in that history |
| Histories.RefusedReloadChangesNothing | pkg/server/server.go:410-463 | no step of a reload that is refused in the end changes engine or history, over every interleaving, and no event is its own |
| Concurrency.HistoryExplains | pkg/server/server.go:344-380 | every answer in the history is the one the rule book at its place gives, and the live book is the last snapshot and the additions since |
| Concurrency.HistoryScans | pkg/server/server.go:344-355 | these are linear scans over all rules, when no rule of the first engine is hidden by its kind |
| Concurrency.NoHalfAddedSeen | pkg/server/server.go:377-380 | over every interleaving, no reader meets a rule that is appended but not filed |
| Concurrency.ScanListAnswers | pkg/server/server.go:344-347 | the positions fixed when the read lock is taken yield the rule book's answer |
| Concurrency.FiledInOrder | pkg/server/server.go:377-380 | the second half of an addition restores the index |
| Concurrency.NoDeadlock | pkg/server/server.go:410-463 | in every reachable state with a call under way, some call can take a step |
| Authzen.ToSExpression | pkg/authzen/authzen.go:78-138 | the query of a request, section by section, or an error |
| Authzen.PropertyToSExp | pkg/authzen/authzen.go:172-212 | a value, array or object of any depth as an element |
| Authzen.RequestExactly | pkg/authzen/authzen.go:78-138 | a request converts exactly to the query that, place by place, says its resource type over id, resource properties, action, subject with type and id, and context unless empty |
| Authzen.PropertyExactly | pkg/authzen/authzen.go:172-233 | a property converts exactly to its key over its value's text, over the texts of an array's items, or over what an object's members convert to, at any depth |
| Authzen.BareRequestGranted | pkg/authzen/authzen.go:78-138 | a request without properties is granted by the rule (T (id R) (action A) (subject (type S) (id I))), indexed or not, exactly when its five fields are these and R, S and I are not empty |
| Authzen.PropertyBelow | pkg/authzen/authzen.go:172-212 | if a richer value converts, so does the poorer, to an element above |
| Authzen.RicherIsBelow | pkg/authzen/authzen.go:78-138 | a request with more action or subject properties or context, at any depth, converts to a query below the poorer request's |
| Authzen.RicherIsAllowed | pkg/authzen/authzen.go:78-138 | so every engine, indexed or not, that allows the poorer request allows the richer |

## Left out

- RFC 3339: the date parser is an arbitrary function from texts to instants, so every theorem holds for any of them.
- Order.Transitive: not for bounded date ranges at the upper end unless the middle element is simple, because containment compares dates as texts and matching compares instants.
- Semantics.QueryExact: not for strict bounds on IP ranges, which the matching ignores; `Semantics.IPRangeExactly` says when that matters. Section 5.3.3 of the draft makes numeric ranges numbers, which the code does not; module `Ranges` says where that matters.
- Semantics.Sound: not for excluded bounds and bounded dates on the right, where the code is not sound; `Order.ContainedRangesExactly` and `Ranges.DateComparisonExactly` say how far it is.
- Order.ContainedRangesExactly: not for dates, which `Ranges.DateContainmentExactly` covers.
- Ranges.DateContainmentExactly: not when the right range is bounded on a side where the left is not, because the answer then depends on what the earliest and latest dates are.
- EngineProofs.AgreementExactly: for simple queries alone not when a set rule holds a list with star forms, where several list rules may cover it together; `EngineProofs.AgreementWithoutSets` covers such lists for queries that may hold star forms.
- Adaptive.StaleExactly: not for rules outside the lists that cover lists, which a stale position may still point to.
- Semantics.ChainClosesExactly: not for upper ends that hold sets, except as `Semantics.SetChainExactly` says.
- Histories.Linearizable: for engines with a wildcard or a set over lists the answers are those of the engine's own mode, not of a linear scan over all rules. A panic ends a run.
- Semantics.Exact: not for sets and ranges on the left, where the code is not complete; `Semantics.ChainClosesExactly` and `Ranges.RangesExactly` say how far it is.
- AdvancedProofs.AdvancedRoundTripExactly: only for atoms and tags of printable ASCII without spaces, quotes and parentheses, because the form quotes nothing.
- TextProofs.AdvancedFileRestores: only for rules that read back at all, as `AdvancedProofs.AdvancedRoundTripExactly` says, on lines that are short enough.
- Authzen.RicherIsBelow: members that both requests have must come in the same order and first, because a Go map's order is arbitrary.
- Sessions.SessionRefines: for rule files on which the parser does not panic, because a panic ends the server; `Sessions.GoesDownExactly` covers the rest.
- Bound operators other than lt, le, gt and ge, which the types of the original admit as any string; nil elements.
- `Normalize`, which returns its argument.
- Address order of IP ranges: the code compares byte strings.
- Servers.Server.HandleQuery: an error's own words behind the response's fixed beginning, which name positions and causes.
- Servers.Server.HandleAdd: the same.
- Servers.Server.HandleReload: the same.
- Choosing a file format by a file's first bytes.
- `%g` formatting and JSON encoding: arbitrary functions to texts. The average fan-out is a real number, not a float64.
- Sockets, TLS, deadlines, directory scans, PID files, logging; a stream or file is a byte sequence, the directory a list of files.
- The HTTP server, health checks, statistics and metrics pages, connection and reload-time counters, and the HTTP server's own engine pointer after a reload.
- The reload timer: a timed reload takes the same steps as a RELOAD message.
- Fairness of locks: no call is promised to end, only that some call can go on.
- Running out of memory for declared lengths up to 2^48, which end the process otherwise than by a panic.
