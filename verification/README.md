# wasmsh, modelled and proved in Dafny

wasmsh is a Bash-compatible shell. This project models the algorithms its
correctness rests on and proves what each of them promises. Every module
follows one part of the shell; loops and objects of the source are methods and
classes here, each proved against a function that says what it computes, and
the promises are lemmas about those functions.

- **Patterns.** `GlobSpec` says what a glob matches; `RuntimeGlob` and
  `ExpandGlob` are the two greedy matchers, both exact, and the prefix and
  suffix removals built on one of them; `GlobPrint` ties pattern texts to what
  they mean, and `GlobAgreement` says when the two give the same answers.
  `RegexSyntax`, `RegexSearch` and `RegexMatcher` are the backtracking matcher
  behind `=~` with its shared capture list; `RegexPrint` ties pattern texts to
  trees, `RegexAtomic` says for every pattern exactly what is found,
  `RegexOrder` which match is returned, `RegexComplete` on which patterns every
  match is found, and `RegexMisses` shows matches that are missed.
- **Expansion.** `Int64`, `ArithSyntax`, `ArithSpec` and `ArithParser` are
  arithmetic: the recursive-descent evaluator inverts printing for every
  expression tree, `ArithDepth` proves its depth budget exact, and `ArithLaws`
  says which operator binds tighter and what each one gives. `BraceExpansion`
  is brace expansion with its caps, `BraceLaws` the words it gives, and
  `FieldExpansion` the expansion of words into marked argument fields.
- **Compiler.** `AndOrLowering` compiles `&&` and `||` chains to jump code and
  proves that running the code means what the chain means.
- **Streams.** `Utf8` and `StreamingTr` are `tr` over a stream cut anywhere;
  `StreamingGrep` is `grep` with context windows.
- **Text to words.** `LexSpec` and `ShellLexer` are the lexer, `LexBalance`
  says where its bracketed constructs end, `LexKinds` what the kind of a token
  says about its text and `LexForms` which forms are words; `WordParser` splits
  a word into parts, and `Quoting` and `PrintfQuote` prove what lexer and word
  parser make of `@Q` and `%q` output.
- **Filesystem.** `Paths`, `FsSpec` and `MemFs` are path normalization and the
  in-memory filesystem with its quota, inode cap, links, handles, readers and
  write sinks.
- **Services and builtins.** `Dispatcher` routes sessions to runners, `Getopts`
  is the resumable option parser, `Base64` the codec of the host boundary and
  `Decimal` the number texts the others store.

Some results say where the code does not do what its comments or neighbours
suggest.

- The regex search misses matches, because a group settles for the first end of
  an alternative and a repeated group takes no empty turn. `RegexMisses` has
  three pattern texts; `RegexAtomic.SearchIsAtomic` is the exact condition.
- The two glob matchers differ on a quoted byte, on a range whose end is the
  closing bracket and on a class that is not closed
  (`GlobAgreement.DisagreeOnBackslash`, `DisagreeOnRangeToBracket`,
  `DisagreeOnUnclosedClass`). `GlobAgreement.ClassFreeAgreeExactly` and
  `StarFreeAgreeExactly` are the exact conditions without classes and without
  stars.
- The `%q` text of a string with a single quote is not one word to the lexer,
  because the lexer ends an ANSI-C quotation at the first quote, escaped or not
  (`PrintfQuote.OneWordExactlyWithoutQuotes`), and a non-ASCII `%q` text does
  not read back (`PrintfQuote.ReadsBackExactlyAscii`).
- A word with a parameter that only looks multi-field, such as an array length,
  has its expansions evaluated twice, which the comment at
  crates/wasmsh-expand/src/lib.rs:151-153 means to rule out
  (`FieldExpansion.WordsAreExpandedOnceOrTwice`); names such as `a[@]%x` are
  the reverse case (`FieldExpansion.NamesDisagreeExactly`).
- A quoted word that starts with a tilde has the home directory filled in and
  loses its quoting, so a quoted pattern in it becomes active, although the
  comment at crates/wasmsh-expand/src/lib.rs:76-78 says quoted bytes stay
  literal (`FieldExpansion.QuotedTildeIsActive`; `TildeDropsMarks` is the exact
  condition).
- The cached byte total of the filesystem is the real one except after a stream
  reader is opened whose placeholder holds bytes: they stay charged
  (`MemFs.ReaderLeavesBytesCharged`), though the comment at
  crates/wasmsh-fs/src/memfs.rs:85-87 says the total is kept in sync.

`dafny verify dfyconfig.toml` checks the whole project.

## Model

| member | source | states |
|---|---|---|
| `GlobSpec.StarMeansSplit` | crates/wasmsh-runtime/src/pattern.rs:858-866 | a `*` matches exactly when the rest matches behind some split of the text |
| `GlobSpec.FixedPrefix` | crates/wasmsh-runtime/src/pattern.rs:898-929 | a stretch without stars matches exactly when it fits byte by byte and the rest matches behind it |
| `GlobSpec.OnlyStarsMatchEmpty` | crates/wasmsh-runtime/src/pattern.rs:922-929 | at the end of the text exactly the all-star remainders match |
| `GlobSpec.StarStep` | crates/wasmsh-runtime/src/pattern.rs:898-929 | the last-star argument: a new star may replace the remembered one, because a later start of the old one gains nothing |
| `GlobSpec.ConsumeStep` | crates/wasmsh-runtime/src/pattern.rs:898-929 | a byte accepted behind the remembered star keeps the greedy state equivalent to the whole match |
| `GlobSpec.BacktrackStep` | crates/wasmsh-runtime/src/pattern.rs:884-893 | giving the remembered star one more byte keeps the greedy state equivalent to the whole match |
| `GlobSpec.FinishStep` | crates/wasmsh-runtime/src/pattern.rs:922-929 | when the text is used up, the pattern matches exactly when only stars are left |
| `RuntimeGlob.GlobMatchCharClass` | crates/wasmsh-runtime/src/pattern.rs:823-849 | reads a class to its end and accepts exactly the bytes in its ranges, inverted when negated; an unclosed class runs to the end of the pattern |
| `RuntimeGlob.Step` | crates/wasmsh-runtime/src/pattern.rs:858-882 | one element against one byte: star, consumed, class outcome or mismatch |
| `RuntimeGlob.GlobMatchInner` | crates/wasmsh-runtime/src/pattern.rs:898-929 | the loop ends and returns true exactly when the pattern matches the name declaratively |
| `ExpandGlob.ScanMembers` | crates/wasmsh-expand/src/lib.rs:1205-1252 | reads class members up to the closing bracket; nothing when no bracket closes it |
| `ExpandGlob.BracketClassMatches` | crates/wasmsh-expand/src/lib.rs:1205-1252 | invalid exactly when the class is not closed, otherwise accepts exactly its members |
| `ExpandGlob.MatchSingle` | crates/wasmsh-expand/src/lib.rs:1181-1192 | one element of the expansion matcher accepts exactly the bytes it denotes |
| `ExpandGlob.SimpleGlobMatch` | crates/wasmsh-expand/src/lib.rs:1147-1175 | the second matcher ends and returns true exactly when the pattern matches declaratively |
| `ExpandGlob.StripPrefixGlob` | crates/wasmsh-expand/src/lib.rs:1555-1569 | `#` and `##` remove exactly the shortest or longest matching prefix, and report nothing exactly when none matches |
| `ExpandGlob.StripSuffixGlob` | crates/wasmsh-expand/src/lib.rs:1573-1586 | `%` and `%%` remove exactly the shortest or longest matching suffix, and report nothing exactly when none matches |
| `GlobPrint.ItemsRead` | crates/wasmsh-runtime/src/pattern.rs:842-849 | the members and ranges of a class read as they are written |
| `GlobPrint.CaretNegates` | crates/wasmsh-runtime/src/pattern.rs:823-840 | a caret negates a class like an exclamation mark, in both matchers |
| `GlobPrint.RuntimeReadsText` | crates/wasmsh-runtime/src/pattern.rs:823-882 | for every list of elements with classes that can be written, the text written from it (star, question mark, quoted bytes, classes) reads as that list in the runtime matcher |
| `GlobPrint.ExpansionReadsText` | crates/wasmsh-expand/src/lib.rs:1181-1252 | and in the expansion matcher, when no literal needs a backslash and no range ends in a bracket |
| `GlobAgreement.CleanReadsTheSame` | crates/wasmsh-runtime/src/pattern.rs:823-882 | patterns in which no backslash quotes a byte, every class is closed, no range ends in a bracket and no leading bracket starts one read as the same elements in both crates |
| `GlobAgreement.CleanPatternsAgree` | crates/wasmsh-expand/src/lib.rs:1147-1252 | so both matchers give the same answer on all such patterns, for every name |
| `GlobAgreement.MatchesTakeSolid` | crates/wasmsh-expand/src/lib.rs:1147-1175 | a match takes a byte for each element that is not a star, and the shortest names nothing else |
| `GlobAgreement.ShortestNames` | crates/wasmsh-expand/src/lib.rs:1147-1175 | names no longer than the number of such elements match exactly when they have that length and fit byte by byte |
| `GlobAgreement.AgreementFixesShortestNames` | crates/wasmsh-expand/src/lib.rs:1147-1252 | for every pattern: if the matchers agree on all names, then nothing matches in either, or both readings take equally many bytes and accept the same bytes place by place |
| `GlobAgreement.StarFreeAgreeExactly` | crates/wasmsh-expand/src/lib.rs:1181-1252 | for every pattern without a star, classes and backslashes included: the matchers agree on all names exactly when nothing matches in either or the readings accept the same bytes place by place |
| `GlobAgreement.ClassFreeAgreeExactly` | crates/wasmsh-runtime/src/pattern.rs:858-882 | for every pattern without a class: the matchers agree on all names exactly when no backslash stands before another byte |
| `GlobAgreement.DisagreeOnBackslash` | crates/wasmsh-runtime/src/pattern.rs:858-882 | a quoted star is matched by the runtime matcher only |
| `GlobAgreement.DisagreeOnRangeToBracket` | crates/wasmsh-runtime/src/pattern.rs:842-849 | `[a-]` matches a hyphen in the expansion matcher only: the other takes the bracket as the end of a range |
| `GlobAgreement.DisagreeOnUnclosedClass` | crates/wasmsh-runtime/src/pattern.rs:823-856 | an unclosed class is still a class to the runtime matcher only |
| `RegexMatcher.FindMatchingParen` | crates/wasmsh-runtime/src/pattern.rs:592-611 | finds the parenthesis that closes a group, skipping escapes and nested groups |
| `RegexMatcher.SplitAlternatives` | crates/wasmsh-runtime/src/pattern.rs:614-655 | splits a group body at the bars outside nested groups |
| `RegexMatcher.CountMatches` | crates/wasmsh-runtime/src/pattern.rs:385-391 | the longest run of bytes an element accepts |
| `RegexMatcher.Matcher.Truncate` | crates/wasmsh-runtime/src/pattern.rs:209-237 | takes captures back to an earlier length |
| `RegexMatcher.Matcher.Insert` | crates/wasmsh-runtime/src/pattern.rs:240-257 | puts the range of a group in front of the captures of the rest |
| `RegexMatcher.Matcher.MatchCapturing` | crates/wasmsh-runtime/src/pattern.rs:122-148 | computes the search function; on failure the shared captures are unchanged, on success exactly the found ranges are appended |
| `RegexMatcher.Matcher.MatchGroup` | crates/wasmsh-runtime/src/pattern.rs:151-206 | a group with any quantifier computes the search function; captures unchanged on failure, exactly the found ranges appended on success |
| `RegexMatcher.Matcher.MatchGroupRep` | crates/wasmsh-runtime/src/pattern.rs:209-257 | a repeated group is tried at its ends from the far end; captures unchanged on failure, its whole range and those of the rest appended on success |
| `RegexMatcher.Matcher.MatchGroupOpt` | crates/wasmsh-runtime/src/pattern.rs:260-283 | an optional group: one alternative first, otherwise an empty capture |
| `RegexMatcher.Matcher.MatchZero` | crates/wasmsh-runtime/src/pattern.rs:260-283 | the empty branch of an optional group |
| `RegexMatcher.Matcher.TryGroupOneAlt` | crates/wasmsh-runtime/src/pattern.rs:285-304 | the first alternative that lets the rest match |
| `RegexMatcher.Matcher.TryAltThenContinue` | crates/wasmsh-runtime/src/pattern.rs:306-339 | one alternative, its range and the rest of the pattern |
| `RegexMatcher.Matcher.MatchElem` | crates/wasmsh-runtime/src/pattern.rs:356-383 | one element with its quantifier |
| `RegexMatcher.Matcher.MatchSingleElem` | crates/wasmsh-runtime/src/pattern.rs:432-446 | an element without quantifier takes exactly one byte |
| `RegexMatcher.Matcher.MatchOptionalElem` | crates/wasmsh-runtime/src/pattern.rs:414-430 | an optional element: taken if the rest then matches, otherwise skipped |
| `RegexMatcher.Matcher.MatchRepeatedElem` | crates/wasmsh-runtime/src/pattern.rs:393-412 | a repeated element gives bytes back until the rest matches |
| `RegexMatcher.FindFirstMatch` | crates/wasmsh-runtime/src/pattern.rs:63-117 | fails exactly when the search fails at every allowed start; otherwise reports the leftmost success and its captured texts |
| `RegexPrint.ClassReads` | crates/wasmsh-runtime/src/pattern.rs:789-819 | a class written with its members, ranges and negation reads as that class |
| `RegexPrint.OtherSpellings` | crates/wasmsh-runtime/src/pattern.rs:777-819 | an exclamation mark negates a class like a caret, and any byte may be written behind a backslash |
| `RegexPrint.GroupReads` | crates/wasmsh-runtime/src/pattern.rs:592-655 | a written group closes at its own parenthesis and splits at its own bars, nested groups and escapes included |
| `RegexPrint.ReadInvertsPrint` | crates/wasmsh-runtime/src/pattern.rs:592-819 | for every tree without empty or nested quantified groups, and with classes that can be written, the pattern text written from it (dot, escapes, classes, quantifiers, groups, bars) reads as the tree |
| `RegexPrint.FindWritten` | crates/wasmsh-runtime/src/pattern.rs:63-117 | the search for a written pattern reports a match of its tree with the matched texts; when alternatives have fixed widths the leftmost one, and nothing exactly when no match starts at an allowed place |
| `RegexAtomic.CountIsMaximal` | crates/wasmsh-runtime/src/pattern.rs:385-391 | no longer run of accepted bytes exists |
| `RegexAtomic.TryMissesNone` | crates/wasmsh-runtime/src/pattern.rs:449-547 | inside a group: if a match with atomic nested groups starts at a position, the search finds one |
| `RegexAtomic.TryFindsFirst` | crates/wasmsh-runtime/src/pattern.rs:449-547 | inside a group: what the search finds is such a match, and none comes before it in the order longer runs first, earlier alternatives first |
| `RegexAtomic.FirstIsTry` | crates/wasmsh-runtime/src/pattern.rs:449-547 | the end of the first match in that order is the end the search returns |
| `RegexAtomic.FillsAreSteps` | crates/wasmsh-runtime/src/pattern.rs:550-589 | a span reported as filled is a row of first ends of alternatives, each moving on, at least as many as required |
| `RegexAtomic.StepsFill` | crates/wasmsh-runtime/src/pattern.rs:550-589 | and every such row makes the span count as filled |
| `RegexAtomic.MatchIsAtomic` | crates/wasmsh-runtime/src/pattern.rs:122-446 | a successful search found a match with atomic groups and these captures, ending at the end of the text when anchored |
| `RegexAtomic.AtomicIsFound` | crates/wasmsh-runtime/src/pattern.rs:122-446 | every match with atomic groups makes the search succeed |
| `RegexAtomic.SearchIsAtomic` | crates/wasmsh-runtime/src/pattern.rs:122-446 | for every pattern and text the search succeeds exactly where a match with atomic groups starts |
| `RegexAtomic.AtomicIsWhole` | crates/wasmsh-runtime/src/pattern.rs:122-446 | a match with atomic groups is a match |
| `RegexAtomic.MatchSound` | crates/wasmsh-runtime/src/pattern.rs:122-446 | so a successful search found a declarative match with these captures |
| `RegexAtomic.CapturesAreOrdered` | crates/wasmsh-runtime/src/pattern.rs:122-446 | one range per top-level group, in pattern order, with nondecreasing bounds inside the match |
| `RegexOrder.ByIsAtomic` | crates/wasmsh-runtime/src/pattern.rs:122-446 | a match described by its choices (repetitions, alternatives, where a repeated group ends) is a match with atomic groups, with one choice per pattern node |
| `RegexOrder.AtomicHasChoices` | crates/wasmsh-runtime/src/pattern.rs:122-446 | and every match with atomic groups is described by some choices |
| `RegexOrder.ChoicesDecide` | crates/wasmsh-runtime/src/pattern.rs:122-446 | the choices decide the end of the match and all its captures |
| `RegexOrder.GroupSettles` | crates/wasmsh-runtime/src/pattern.rs:151-339 | a group takes the first choice that lets the rest match: the earliest alternative, the empty way last, the farthest end of a repetition |
| `RegexOrder.MatchFindsFirst` | crates/wasmsh-runtime/src/pattern.rs:122-446 | what the search returns is a match that no other allowed match comes before, in the lexicographic order of choices |
| `RegexOrder.MatchIsFirst` | crates/wasmsh-runtime/src/pattern.rs:122-446 | for every pattern, text and start, the search returns an end and captures exactly when they are those of the first match in that order |
| `RegexComplete.WidthFound` | crates/wasmsh-runtime/src/pattern.rs:449-547 | an alternative of fixed width, nested groups included, has one end and the search finds it |
| `RegexComplete.RepeatsAreSteps` | crates/wasmsh-runtime/src/pattern.rs:550-589 | repetitions of fixed-width alternatives, empty turns left out, are steps the search takes |
| `RegexComplete.WholeIsAtomic` | crates/wasmsh-runtime/src/pattern.rs:122-446 | when group alternatives have fixed widths, and none in a one-or-more group is empty, every match is one with atomic groups |
| `RegexComplete.MatchComplete` | crates/wasmsh-runtime/src/pattern.rs:122-446 | on those patterns every existing match makes the search succeed |
| `RegexComplete.SearchIsExact` | crates/wasmsh-runtime/src/pattern.rs:122-446 | on those patterns the search succeeds exactly where a match starts; on all patterns success means a match |
| `RegexMisses.StarGroupNeverMatches` | crates/wasmsh-runtime/src/pattern.rs:306-319 | a starred element in a group followed by the same element finds nothing in any text |
| `RegexMisses.QuantifiedGroupCanMiss` | crates/wasmsh-runtime/src/pattern.rs:306-319 | the pattern text `(a*)ab` matches `aab`, and the search finds nothing from any start |
| `RegexMisses.NestedGroupCanMiss` | crates/wasmsh-runtime/src/pattern.rs:467-483 | a nested group of the alternatives `a` and `ab` before `c` matches `abc`, and the search finds nothing from any start: the nested group settles for its first alternative |
| `RegexMisses.EmptyAlternativeCanMiss` | crates/wasmsh-runtime/src/pattern.rs:550-569 | a one-or-more group of an empty alternative and `a` before `b` matches `b`, and the search finds nothing from any start: it takes no empty turn |
| `Int64.WrapMul` | crates/wasmsh-expand/src/lib.rs:2524-2539 | wrapping a factor early does not change the wrapped product |
| `Int64.WrapPower` | crates/wasmsh-expand/src/lib.rs:2524-2539 | wrapping the base early does not change the wrapped power |
| `Int64.OddStep` | crates/wasmsh-expand/src/lib.rs:2524-2539 | one square-and-multiply step keeps the wrapped value, odd exponent |
| `Int64.EvenStep` | crates/wasmsh-expand/src/lib.rs:2524-2539 | one squaring step keeps the wrapped value, even exponent |
| `Int64.WrappingPow` | crates/wasmsh-expand/src/lib.rs:2524-2539 | binary exponentiation is the mathematical power wrapped to 64 bits, and 0 for a negative exponent |
| `Int64.TruncRemRange` | crates/wasmsh-expand/src/lib.rs:2388-2413 | the remainder is smaller than the divisor and takes the sign of the dividend |
| `Int64.BitwiseActsOnEachBit` | crates/wasmsh-expand/src/lib.rs:2284-2311 | the bitwise operators act on every bit on its own |
| `ArithSpec.NotAnAssignment` | crates/wasmsh-expand/src/lib.rs:2153-2177 | an expression printed for a tighter level does not start like an assignment |
| `ArithSpec.ParseInvertsPrint` | crates/wasmsh-expand/src/lib.rs:2144-2520 | at every precedence level, parsing what was printed for that level consumes exactly those tokens and gives the value and final state of the tree, within the depth budget |
| `ArithSpec.Descend` | crates/wasmsh-expand/src/lib.rs:2153-2520 | a level that is not the one of the tree hands through to the next |
| `ArithSpec.SequenceLoops` | crates/wasmsh-expand/src/lib.rs:2144-2150 | comma lists associate to the left and evaluate in order |
| `ArithSpec.AssignCase` | crates/wasmsh-expand/src/lib.rs:2153-2196 | plain and compound assignments associate to the right and store the value |
| `ArithSpec.TernaryCase` | crates/wasmsh-expand/src/lib.rs:2246-2261 | both branches of a conditional are evaluated and one value is chosen |
| `ArithSpec.BinaryLoops` | crates/wasmsh-expand/src/lib.rs:2264-2413 | the ten binary levels associate to the left and evaluate both operands |
| `ArithSpec.PowerCase` | crates/wasmsh-expand/src/lib.rs:2416-2429 | exponentiation associates to the right |
| `ArithSpec.UnaryCase` | crates/wasmsh-expand/src/lib.rs:2432-2463 | prefix operators apply to the unary expression behind them |
| `ArithSpec.PreStepCase` | crates/wasmsh-expand/src/lib.rs:2466-2475 | a prefix increment or decrement stores and yields the new value |
| `ArithSpec.LeafCase` | crates/wasmsh-expand/src/lib.rs:2483-2520 | numbers, variables and postfix steps |
| `ArithSpec.GroupCase` | crates/wasmsh-expand/src/lib.rs:2483-2520 | a parenthesised expression of any precedence |
| `ArithSpec.EvalOfPrinted` | crates/wasmsh-expand/src/lib.rs:2144-2555 | evaluating the printed form of any tree within the depth budget gives the value and the final variable store of the tree |
| `ArithLaws.ChainFollowsLadder` | crates/wasmsh-expand/src/lib.rs:2264-2413 | for every chain of operands and binary operators, of any length: the operator applied last is the rightmost in the lowest of ten listed sets of operators, and it joins the values of its two sides |
| `ArithLaws.HigherRungBindsTighter` | crates/wasmsh-expand/src/lib.rs:2264-2413 | for all pairs of operators and all numbers: two operators group to the right exactly when the second stands in a later set |
| `ArithLaws.PowerGroupsRight` | crates/wasmsh-expand/src/lib.rs:2416-2429 | exponentiation groups to the right |
| `ArithLaws.PowerBindsTighter` | crates/wasmsh-expand/src/lib.rs:2388-2429 | exponentiation on either side of any binary operator comes first |
| `ArithLaws.PrefixBeforePower` | crates/wasmsh-expand/src/lib.rs:2416-2463 | prefix operators on either side of an exponentiation come first |
| `ArithLaws.PrefixBeforeBinary` | crates/wasmsh-expand/src/lib.rs:2388-2463 | prefix operators on either side of any binary operator come first |
| `ArithLaws.PrefixesNest` | crates/wasmsh-expand/src/lib.rs:2432-2463 | of two prefix operators the inner one comes first |
| `ArithLaws.ConditionalBindsLooser` | crates/wasmsh-expand/src/lib.rs:2246-2261 | any binary operator in the condition or the last branch of a conditional comes first; the condition chooses the value, both branches being evaluated |
| `ArithLaws.ConditionalGroupsRight` | crates/wasmsh-expand/src/lib.rs:2246-2261 | conditionals group to the right |
| `ArithLaws.AssignmentsNest` | crates/wasmsh-expand/src/lib.rs:2144-2196 | assignments group to the right and store in that order; the comma is loosest and yields the last value |
| `ArithLaws.OperatorMeans` | crates/wasmsh-expand/src/lib.rs:2264-2413 | every binary operator as a fact about integers: congruence modulo 2^64, truncating division with its remainder, floor shift, truth values, bit by bit; an error exactly for a division by zero |
| `ArithLaws.PrefixMeans` | crates/wasmsh-expand/src/lib.rs:2441-2463 | every prefix operator as a fact about integers |
| `ArithLaws.PowerMeans` | crates/wasmsh-expand/src/lib.rs:2524-2544 | the power modulo 2^64, and 0 for a negative exponent |
| `ArithLaws.StepsMean` | crates/wasmsh-expand/src/lib.rs:2466-2520 | increment and decrement change the variable by one modulo 2^64; in front they yield the new value, behind the old one |
| `ArithLaws.CompoundMeans` | crates/wasmsh-expand/src/lib.rs:2181-2243 | a compound assignment stores and yields what its operator gives for the old value |
| `ArithDepth.TooDeepFails` | crates/wasmsh-expand/src/lib.rs:2092-2520 | at every precedence level, parsing what was printed for that level with too little depth left ends with an error recorded |
| `ArithDepth.BudgetIsExact` | crates/wasmsh-expand/src/lib.rs:2092-2555 | the depth budget is exact: within it the printed tree gives its value and store, beyond it an error is recorded |
| `ArithParser.Parser.EnterDepth` | crates/wasmsh-expand/src/lib.rs:2092-2100 | the counter never passes 64; beyond it an error is recorded and nothing is entered |
| `ArithParser.Parser.ExitDepth` | crates/wasmsh-expand/src/lib.rs:2102-2104 | leaves one level, never below zero |
| `ArithParser.Parser.Eat` | crates/wasmsh-expand/src/lib.rs:2116-2123 | consumes a token exactly when it is the next one |
| `ArithParser.Parser.ParseExpr` | crates/wasmsh-expand/src/lib.rs:2144-2150 | on every token sequence: terminates, stays within the tokens, restores the depth and computes the reference parse of a comma list |
| `ArithParser.Parser.ParseAssign` | crates/wasmsh-expand/src/lib.rs:2153-2177 | terminates, stays within the tokens, restores the depth and computes the reference parse of an assignment, also when the depth error is recorded |
| `ArithParser.Parser.TryCompoundAssign` | crates/wasmsh-expand/src/lib.rs:2181-2243 | reads an operator and a right side exactly when an assignment operator follows, and stores the result |
| `ArithParser.Parser.ParseTernary` | crates/wasmsh-expand/src/lib.rs:2246-2261 | terminates, stays within the tokens, restores the depth and computes the reference parse of a conditional |
| `ArithParser.Parser.Combine` | crates/wasmsh-expand/src/lib.rs:2388-2413 | applies an operator and records a division by zero |
| `ArithParser.Parser.ParseBinary` | crates/wasmsh-expand/src/lib.rs:2264-2413 | terminates, stays within the tokens, restores the depth and computes the reference parse of each of the ten left-associative levels |
| `ArithParser.Parser.ParseExponentiation` | crates/wasmsh-expand/src/lib.rs:2416-2429 | terminates, stays within the tokens, restores the depth and computes the reference parse of an exponentiation |
| `ArithParser.Parser.ParseUnary` | crates/wasmsh-expand/src/lib.rs:2432-2463 | terminates, stays within the tokens, restores the depth and computes the reference parse of a prefix expression |
| `ArithParser.Parser.ParsePreIncdec` | crates/wasmsh-expand/src/lib.rs:2466-2475 | stays within the tokens and computes the reference parse of a prefix step, storing the new value |
| `ArithParser.Parser.ParsePrimary` | crates/wasmsh-expand/src/lib.rs:2478-2520 | terminates, stays within the tokens, restores the depth and computes the reference parse of an operand |
| `ArithParser.EvalArithmetic` | crates/wasmsh-expand/src/lib.rs:2548-2555 | an empty token list is 0, any other is the reference parse from depth 0 |
| `BraceExpansion.FindBracePair` | crates/wasmsh-expand/src/lib.rs:2569-2595 | the first top-level pair of braces |
| `BraceExpansion.SplitBraceItems` | crates/wasmsh-expand/src/lib.rs:2697-2723 | the items between top-level commas, nothing when there is no comma |
| `BraceExpansion.ValuesAreTheProgression` | crates/wasmsh-expand/src/lib.rs:2672-2694 | a range is exactly the arithmetic progression up to its bound, also next to the 64-bit limits |
| `BraceExpansion.GenerateRange` | crates/wasmsh-expand/src/lib.rs:2672-2694 | the first 10,000 items of the range |
| `BraceExpansion.ReadChoices` | crates/wasmsh-expand/src/lib.rs:2602-2653 | a range or a comma list, capped only for ranges |
| `BraceExpansion.ChoicesShrink` | crates/wasmsh-expand/src/lib.rs:2602-2617 | putting a choice in place of its pair removes an opening brace, so the recursion ends |
| `BraceExpansion.EnoughIsEnough` | crates/wasmsh-expand/src/lib.rs:2620-2631 | once 10,000 words are there, the remaining items change nothing |
| `BraceExpansion.CappedItemsSuffice` | crates/wasmsh-expand/src/lib.rs:2620-2653 | capping a range before combining loses none of the first 10,000 words |
| `BraceExpansion.CombineAndRecurse` | crates/wasmsh-expand/src/lib.rs:2620-2631 | combining with the early exit is the first 10,000 words of combining without it |
| `BraceExpansion.ExpandBraces` | crates/wasmsh-expand/src/lib.rs:2562-2617 | terminates, is never empty, and equals the first 10,000 words of the uncapped expansion |
| `BraceLaws.FindsPair` | crates/wasmsh-expand/src/lib.rs:2569-2595 | in a word with a pair of braces behind plain text, that pair is found, whatever matched braces are inside |
| `BraceLaws.CommaWords` | crates/wasmsh-expand/src/lib.rs:2597-2631 | a comma list whose items may hold nested lists: the words around each item, expanded in turn |
| `BraceLaws.RangeWords` | crates/wasmsh-expand/src/lib.rs:2634-2694 | a range between two numbers: the words around each number from one to the other, upwards or downwards, filled with zeros to the longer bound when one has a leading zero |
| `BraceLaws.SteppedChoices` | crates/wasmsh-expand/src/lib.rs:2634-2694 | a range with a step: exactly the numbers reached by that step without passing the bound; no choices for a step of zero or one that leads away |
| `BraceLaws.EscapedBracesStay` | crates/wasmsh-expand/src/lib.rs:2569-2595 | a word whose opening braces are all escaped is its own expansion |
| `BraceLaws.PlainWordsStay` | crates/wasmsh-expand/src/lib.rs:2562-2595 | a word without braces is its own expansion |
| `BraceLaws.PlainListIsLiteral` | crates/wasmsh-expand/src/lib.rs:2597-2631 | around plain items the words are prefix, item and suffix |
| `Decimal.ParseAccepts` | crates/wasmsh-expand/src/lib.rs:2634-2670 | a plus sign is allowed and a number beyond 64 bits refused |
| `Decimal.ParseAcceptsNegative` | crates/wasmsh-expand/src/lib.rs:2634-2670 | likewise with a minus sign |
| `Decimal.ParseInvertsShow` | crates/wasmsh-expand/src/lib.rs:2634-2653 | the decimal text of a 64-bit number reads back as that number |
| `FieldExpansion.NamesDisagreeExactly` | crates/wasmsh-expand/src/lib.rs:184-195 | for every name: it expands to fields exactly when a usable base without bracket stands before its first `[@]`; exactly which names pass the syntactic test and are refused by the expansion, and exactly which the expansion takes and the test refuses |
| `FieldExpansion.PushMasked` | crates/wasmsh-expand/src/lib.rs:121-124 | text and mask grow by the same bytes, all with the same mark |
| `FieldExpansion.QuotedIsLiteral` | crates/wasmsh-expand/src/lib.rs:87-119 | inside quotes every byte is marked literal, also those of expansions |
| `FieldExpansion.QuotesMakeLiteral` | crates/wasmsh-expand/src/lib.rs:87-119 | every byte of a quoted part is marked literal |
| `FieldExpansion.UnquotedIsActive` | crates/wasmsh-expand/src/lib.rs:87-119 | in a word without quotes no byte is |
| `FieldExpansion.TildeDropsMarks` | crates/wasmsh-expand/src/lib.rs:126-140 | exactly when a home directory is filled in, the field is that directory and the rest of the text with no byte marked; otherwise its marks are those of the parts |
| `FieldExpansion.QuotedTildeIsActive` | crates/wasmsh-expand/src/lib.rs:126-140 | so a quoted pattern below a tilde becomes active |
| `FieldExpansion.FieldsConserveText` | crates/wasmsh-expand/src/lib.rs:211-247 | the fields concatenate to the concatenation of the atoms, byte and mark, and there is one field more than the multi-field parameters add |
| `FieldExpansion.WeldJoins` | crates/wasmsh-expand/src/lib.rs:228-245 | joining the last field of one run with the first of the next keeps the concatenation |
| `FieldExpansion.BlankWelds` | crates/wasmsh-expand/src/lib.rs:249-254 | atoms that are all empty leave one empty field, which then disappears |
| `FieldExpansion.PathsAgree` | crates/wasmsh-expand/src/lib.rs:87-119 | a word without multi-field parameters gives the same bytes, marks and state on both paths |
| `FieldExpansion.FieldsComeFromNames` | crates/wasmsh-expand/src/lib.rs:276-328 | a word has multi-field atoms exactly when some name within the nesting limit expands to fields |
| `FieldExpansion.WordsAreExpandedOnceOrTwice` | crates/wasmsh-expand/src/lib.rs:148-169 | the state passes through a word once, or twice exactly when a name passes the syntactic test and none expands to fields |
| `FieldExpansion.CounterAdvancesTwice` | crates/wasmsh-expand/src/lib.rs:148-169 | a word in which a counter is advanced twice |
| `FieldExpansion.AppendElements` | crates/wasmsh-expand/src/lib.rs:233-245 | the first element continues the last field, each other element starts one |
| `FieldExpansion.AssembleFields` | crates/wasmsh-expand/src/lib.rs:218-247 | the loop over the atoms builds the welded fields and notices whether there was any text |
| `FieldExpansion.FieldsOrNothing` | crates/wasmsh-expand/src/lib.rs:249-272 | a blank word disappears, any other yields its fields with a mask of the length of the text and a quoted flag that is true exactly when some byte is quoted |
| `FieldExpansion.Expander.ExpandPartMasked` | crates/wasmsh-expand/src/lib.rs:87-119 | one part, its marked bytes and the state it leaves; nothing beyond the nesting limit |
| `FieldExpansion.Expander.ExpandPartsMasked` | crates/wasmsh-expand/src/lib.rs:126-131 | the parts of a word in order |
| `FieldExpansion.Expander.ExpandWordMasked` | crates/wasmsh-expand/src/lib.rs:126-140 | the single field of a word with its mask, after tilde expansion |
| `FieldExpansion.Expander.CollectPartAtoms` | crates/wasmsh-expand/src/lib.rs:287-327 | one part as atoms |
| `FieldExpansion.Expander.CollectMultiAtoms` | crates/wasmsh-expand/src/lib.rs:276-328 | the atoms of a word, the state after them and whether any is multi-field |
| `FieldExpansion.Expander.ExpandWordMulti` | crates/wasmsh-expand/src/lib.rs:211-273 | nothing exactly when no atom is multi-field, otherwise the welded fields |
| `FieldExpansion.Expander.ExpandWordArgv` | crates/wasmsh-expand/src/lib.rs:148-169 | the argument fields of one word and the state they leave |
| `FieldExpansion.Expander.ExpandWordsArgv` | crates/wasmsh-expand/src/lib.rs:148-169 | the fields of all words in order, each word expanded in the state its predecessor left |
| `AndOrLowering.AppendLiteralPart` | crates/wasmsh-ir/src/lib.rs:168-182 | appends the text of a part, opened double quotes included, and fails exactly when it contains an expansion |
| `AndOrLowering.AppendLiteralParts` | crates/wasmsh-ir/src/lib.rs:168-182 | appends the texts of all parts in order, and fails exactly when one contains an expansion |
| `AndOrLowering.LiteralWordText` | crates/wasmsh-ir/src/lib.rs:159-166 | the name of a command is the concatenation of the literal parts of its first word |
| `AndOrLowering.LowerCommand` | crates/wasmsh-ir/src/lib.rs:116-157 | succeeds exactly for assignments without redirections and commands without environment whose name is literal; otherwise gives a reason that is true of the command |
| `AndOrLowering.LowerPipeline` | crates/wasmsh-ir/src/lib.rs:98-114 | succeeds exactly for a pipeline that is not negated and has one such command |
| `AndOrLowering.LowerLink` | crates/wasmsh-ir/src/lib.rs:78-92 | a placeholder jump before a further pipeline, patched to the place behind it |
| `AndOrLowering.LowerAndOr` | crates/wasmsh-ir/src/lib.rs:74-96 | succeeds exactly when every pipeline is of that shape, and then yields the jump code; otherwise the reason is true of one of the pipelines |
| `AndOrLowering.JumpsAreForward` | crates/wasmsh-ir/src/lib.rs:74-96 | every jump is patched, strictly forward and inside the program |
| `AndOrLowering.RunWithExecutor` | crates/wasmsh-vm/src/lib.rs:426-506 | the run loop computes the reference run within its step budget |
| `AndOrLowering.PipelineRuns` | crates/wasmsh-ir/src/lib.rs:98-157 | the code of a pipeline does what the pipeline means |
| `AndOrLowering.LinkRuns` | crates/wasmsh-ir/src/lib.rs:78-92 | the code of one link of a chain runs or skips its pipeline as the status says |
| `AndOrLowering.ChainRuns` | crates/wasmsh-ir/src/lib.rs:74-96 | the code of the chain ends just behind itself with the meaning of the chain, in at most one step per instruction |
| `AndOrLowering.RunFollows` | crates/wasmsh-vm/src/lib.rs:455-506 | the run loop follows any reachable stretch of code as far as the budget allows and yields otherwise |
| `AndOrLowering.LoweringPreservesMeaning` | crates/wasmsh-ir/src/lib.rs:74-157 | for every primitive-step semantics there is one step count, a function of semantics, chain and machine: with that budget the program ends with the state and status the shell gives the chain, negation and short-circuit included, with less it yields |
| `Utf8.HeadIsStable` | crates/wasmsh-runtime/src/streaming_tr.rs:113-149 | a complete or invalid decision does not depend on what follows |
| `Utf8.DecodeResumes` | crates/wasmsh-runtime/src/streaming_tr.rs:105-124 | decoding can be cut anywhere if the undecided tail is kept |
| `Utf8.ChunkingIsIrrelevant` | crates/wasmsh-runtime/src/streaming_tr.rs:105-149 | every way of cutting a stream gives the same characters and the same pending tail |
| `Utf8.EncodedHead` | crates/wasmsh-runtime/src/streaming_tr.rs:175-180 | an encoded character is recognised as complete, as that character |
| `Utf8.HeadIsEncoding` | crates/wasmsh-runtime/src/streaming_tr.rs:113-149 | a buffer front taken as complete is the encoding of the character it is taken for |
| `Utf8.WaitsExactlyForTheRest` | crates/wasmsh-runtime/src/streaming_tr.rs:113-149 | a buffer has to wait for more exactly when it is the start of an encoding |
| `Utf8.DecodeInvertsEncode` | crates/wasmsh-runtime/src/streaming_tr.rs:105-124 | encoding and decoding returns every character sequence with nothing left over |
| `Utf8.ValidPrefixDecodes` | crates/wasmsh-runtime/src/streaming_tr.rs:113-149 | the valid prefix is decoded completely and what follows is not a complete character |
| `Utf8.LossyOnValid` | crates/wasmsh-runtime/src/streaming_tr.rs:113-149 | on complete characters the lossy conversion is plain decoding |
| `Utf8.OneBadByte` | crates/wasmsh-runtime/src/streaming_tr.rs:126-149 | an invalid byte becomes one replacement character |
| `StreamingTr.EditResumes` | crates/wasmsh-runtime/src/streaming_tr.rs:191-243 | editing can be cut anywhere if the last emitted character is kept |
| `StreamingTr.DeleteFilters` | crates/wasmsh-runtime/src/streaming_tr.rs:206-214 | deleting without squeezing filters out exactly the members of the set |
| `StreamingTr.TranslateMaps` | crates/wasmsh-runtime/src/streaming_tr.rs:216-243 | translating without squeezing replaces every character on its own |
| `StreamingTr.MembersAreReplaced` | crates/wasmsh-runtime/src/streaming_tr.rs:216-235 | without complement a character becomes what stands in its first place of the set, or the last replacement when there are fewer |
| `StreamingTr.OthersAreReplaced` | crates/wasmsh-runtime/src/streaming_tr.rs:216-235 | with complement the place is the number of smaller ASCII characters outside the set |
| `StreamingTr.RestIsUnchanged` | crates/wasmsh-runtime/src/streaming_tr.rs:216-235 | every other character stays as it is |
| `StreamingTr.SqueezeLeavesNoRepeats` | crates/wasmsh-runtime/src/streaming_tr.rs:206-243 | a squeezing stage never emits a member of its set twice in a row |
| `StreamingTr.SqueezeCollapses` | crates/wasmsh-runtime/src/streaming_tr.rs:206-243 | the output with squeezing is the output without it, each run of one squeezed character cut to one: nothing else is removed |
| `StreamingTr.IdentityCopies` | crates/wasmsh-runtime/src/streaming_tr.rs:191-204 | a stage with nothing to delete copies every well-formed stream |
| `StreamingTr.TrResumes` | crates/wasmsh-runtime/src/streaming_tr.rs:105-243 | the whole-stream output splits at every cut |
| `StreamingTr.TrFinishes` | crates/wasmsh-runtime/src/streaming_tr.rs:151-160 | at the end an incomplete tail is converted lossily |
| `StreamingTr.TrStreamReader.EmitChar` | crates/wasmsh-runtime/src/streaming_tr.rs:175-180 | appends the encoding and remembers the character |
| `StreamingTr.TrStreamReader.ProcessChar` | crates/wasmsh-runtime/src/streaming_tr.rs:191-243 | emits exactly what the stage emits for the character behind the previous one |
| `StreamingTr.TrStreamReader.ProcessChars` | crates/wasmsh-runtime/src/streaming_tr.rs:247-282 | emits the edit of a run of characters |
| `StreamingTr.TrStreamReader.DrainOnce` | crates/wasmsh-runtime/src/streaming_tr.rs:113-149 | takes complete characters or one bad byte from the buffer and loses nothing |
| `StreamingTr.TrStreamReader.ProcessUtf8Chunk` | crates/wasmsh-runtime/src/streaming_tr.rs:105-108 | decodes all that is decided and keeps the tail |
| `StreamingTr.TrStreamReader.TakePendingOutput` | crates/wasmsh-runtime/src/lib.rs:3030-3049 | hands out a prefix of the pending output, empty only when nothing is pending |
| `StreamingTr.TrStreamReader.Refill` | crates/wasmsh-runtime/src/streaming_tr.rs:247-282 | one upstream read changes nothing about what will be returned in all |
| `StreamingTr.TrStreamReader.Read` | crates/wasmsh-runtime/src/streaming_tr.rs:247-282 | for every chunking and every buffer size, the reads concatenate to the edit of the whole stream, and an empty read means the end |
| `StreamingGrep.Job.ClearBounds` | crates/wasmsh-runtime/src/streaming_grep.rs:241-288 | how far the after-context of the selected lines so far reaches |
| `StreamingGrep.Job.FullSkips` | crates/wasmsh-runtime/src/streaming_grep.rs:270-288 | an unselected line is shown now exactly while an after-context lasts |
| `StreamingGrep.Job.FullGrows` | crates/wasmsh-runtime/src/streaming_grep.rs:241-308 | a selected line adds the lines held back, behind a separator if a line was selected before, and itself |
| `StreamingGrep.Job.WindowIsExact` | crates/wasmsh-runtime/src/streaming_grep.rs:221-308 | shown are exactly the lines within the before-context or after-context of a selected line |
| `StreamingGrep.Job.WindowIncreases` | crates/wasmsh-runtime/src/streaming_grep.rs:221-308 | each shown line once, in input order |
| `StreamingGrep.Job.FullLines` | crates/wasmsh-runtime/src/streaming_grep.rs:221-308 | without the separators the output is the lines of the windows |
| `StreamingGrep.Job.SeparatorsAreExact` | crates/wasmsh-runtime/src/streaming_grep.rs:290-308 | a separator stands exactly before the first line held back for a selected line, adjacent to earlier output or not, once a line was selected before |
| `StreamingGrep.Job.StopIsFirst` | crates/wasmsh-runtime/src/streaming_grep.rs:310-321 | reading stops at the first selected line that reaches the maximum, or at the end |
| `StreamingGrep.BlockSlides` | crates/wasmsh-runtime/src/streaming_grep.rs:270-288 | the held-back lines are the last unshown ones, at most the before-context |
| `StreamingGrep.MatchesMeansSelected` | crates/wasmsh-runtime/src/streaming_grep.rs:241-268 | the counter is positive exactly when a line was selected |
| `StreamingGrep.MatchesIsTheNumber` | crates/wasmsh-runtime/src/streaming_grep.rs:241-244 | the count is the number of selected lines |
| `StreamingGrep.GrepStreamReader.EmitCountSummary` | crates/wasmsh-runtime/src/streaming_grep.rs:186-198 | the count is written once, and only in count mode |
| `StreamingGrep.GrepStreamReader.FlushBeforeContext` | crates/wasmsh-runtime/src/streaming_grep.rs:290-308 | writes the held-back lines in order, behind a separator if anything was shown before, and empties the buffer |
| `StreamingGrep.GrepStreamReader.ShowMatch` | crates/wasmsh-runtime/src/streaming_grep.rs:241-268 | brings the output to the windows and separators that include the selected line |
| `StreamingGrep.GrepStreamReader.OnMatch` | crates/wasmsh-runtime/src/streaming_grep.rs:241-268 | a selected line keeps the reader in step with the windows, counts and status |
| `StreamingGrep.GrepStreamReader.CountMatch` | crates/wasmsh-runtime/src/streaming_grep.rs:241-244 | counts a selected line and sets the status |
| `StreamingGrep.GrepStreamReader.OnHiddenMatch` | crates/wasmsh-runtime/src/streaming_grep.rs:246-268 | a selected line that is not shown ends the reading exactly when it makes enough, with the count only outside file-name mode |
| `StreamingGrep.GrepStreamReader.OnNonmatch` | crates/wasmsh-runtime/src/streaming_grep.rs:270-288 | an unselected line keeps the reader in step |
| `StreamingGrep.GrepStreamReader.ShowOrHold` | crates/wasmsh-runtime/src/streaming_grep.rs:270-288 | brings the output and the held-back lines in step with an unselected line |
| `StreamingGrep.GrepStreamReader.PumpOneLine` | crates/wasmsh-runtime/src/streaming_grep.rs:221-239 | consumes one line or finishes, and keeps the reader in step |
| `StreamingGrep.GrepStreamReader.Drain` | crates/wasmsh-runtime/src/streaming_grep.rs:202-321 | for all flags: in line mode the output is exactly the windows and separators of the selected lines read, so with a maximum the after-context of the last one is dropped; otherwise it is their number in count mode, and nothing when quiet, without count mode, or when a maximum ends the reading in file-name mode; and the status is 0 exactly when a line was selected |
| `LexSpec.TokensTile` | crates/wasmsh-lex/src/lib.rs:583-720 | the tokens are non-empty, in order and disjoint, and only blanks, line continuations and comments lie between them |
| `LexSpec.GapBeforeToken` | crates/wasmsh-lex/src/lib.rs:161-177 | everything skipped before a token is blanks, line continuations and whole comments |
| `LexSpec.CommentEndStops` | crates/wasmsh-lex/src/lib.rs:213-220 | a comment ends at the end of its line |
| `LexSpec.TokenFrom` | crates/wasmsh-lex/src/lib.rs:583-620 | a token is inside the source at or behind the position, empty only at the end |
| `LexKinds.OperatorIsSpelled` | crates/wasmsh-lex/src/lib.rs:622-675 | an operator token has the text its kind is spelled with, and no longer spelling fits there |
| `LexKinds.WordKindIsText` | crates/wasmsh-lex/src/lib.rs:569-580 | which words are double brackets and which may be reserved words, by their text alone |
| `LexKinds.TokenIsKinded` | crates/wasmsh-lex/src/lib.rs:594-677 | the kind of each token says what its text is: a spelling of the table, taken as long as possible, or a word that starts and ends where words do |
| `LexKinds.TokensAreKinded` | crates/wasmsh-lex/src/lib.rs:583-720 | so for every accepted source and every token of it |
| `LexForms.SpecialParameters` | crates/wasmsh-lex/src/lib.rs:318-337 | the one-byte parameters end right behind their byte |
| `LexForms.FormsAreWords` | crates/wasmsh-lex/src/lib.rs:224-567 | quotations, parameters, substitutions, arithmetic, extended globs and process substitutions around any text without quotes, escapes or brackets are each one word, blanks and operators inside included |
| `LexBalance.FenceEndsAtMatch` | crates/wasmsh-lex/src/lib.rs:364-393 | command, process, brace and extended-glob scans end exactly at the first place where, outside quotations, expansions and escapes, as many marks are closed as opened |
| `LexBalance.ArithmeticEndsAtMatch` | crates/wasmsh-lex/src/lib.rs:397-454 | an arithmetic scan ends exactly at the first place where all double parentheses are closed |
| `ShellLexer.Lexer.EnterSubst` | crates/wasmsh-lex/src/lib.rs:122-131 | the counter never passes 48; beyond it an error at the position |
| `ShellLexer.Lexer.ExitSubst` | crates/wasmsh-lex/src/lib.rs:133-135 | leaves one level, never below zero |
| `ShellLexer.Lexer.SkipBlankBytes` | crates/wasmsh-lex/src/lib.rs:161-177 | skips blanks and both forms of line continuation |
| `ShellLexer.Lexer.ConsumeComment` | crates/wasmsh-lex/src/lib.rs:213-220 | skips to the end of the line |
| `ShellLexer.Lexer.ConsumeSingleQuoted` | crates/wasmsh-lex/src/lib.rs:224-244 | ends behind the next quote or reports it missing |
| `ShellLexer.Lexer.ConsumeDoubleQuoted` | crates/wasmsh-lex/src/lib.rs:246-278 | ends behind the closing quote with escapes and nested expansions skipped; the depth is restored, also on errors |
| `ShellLexer.Lexer.ConsumeBackslash` | crates/wasmsh-lex/src/lib.rs:280-285 | skips the escaped byte, if there is one |
| `ShellLexer.Lexer.ConsumeBacktick` | crates/wasmsh-lex/src/lib.rs:290-316 | ends behind the closing backquote |
| `ShellLexer.Lexer.ConsumeDollar` | crates/wasmsh-lex/src/lib.rs:318-336 | one expansion, or a lone dollar sign; the depth is restored |
| `ShellLexer.Lexer.ConsumeDollarParen` | crates/wasmsh-lex/src/lib.rs:339-350 | one level deeper inside, and the depth restored after it whatever happened |
| `ShellLexer.Lexer.ConsumeIdentifier` | crates/wasmsh-lex/src/lib.rs:353-361 | the longest run of name bytes |
| `ShellLexer.Lexer.ConsumeCommandSubst` | crates/wasmsh-lex/src/lib.rs:364-393 | ends behind the matching parenthesis: the first balanced place outside quotations, expansions and escapes |
| `ShellLexer.Lexer.ConsumeArithmetic` | crates/wasmsh-lex/src/lib.rs:397-430 | on success the position is the first place where all double parentheses are closed |
| `ShellLexer.Lexer.ConsumeArithmeticCloseParen` | crates/wasmsh-lex/src/lib.rs:435-454 | closes a single parenthesis first, then a double one, and takes a stray one literally |
| `ShellLexer.Lexer.ConsumeBraceParam` | crates/wasmsh-lex/src/lib.rs:457-485 | ends behind the matching brace: the first balanced place outside quotations and escapes |
| `ShellLexer.Lexer.ConsumeExtglob` | crates/wasmsh-lex/src/lib.rs:490-517 | ends behind the matching parenthesis of an extended pattern: the first balanced place outside escapes |
| `ShellLexer.Lexer.ReadWordPart` | crates/wasmsh-lex/src/lib.rs:535-567 | one part of a word |
| `ShellLexer.Lexer.ReadWord` | crates/wasmsh-lex/src/lib.rs:520-580 | a word up to the next break, and its kind |
| `ShellLexer.Lexer.ConsumeProcessSubst` | crates/wasmsh-lex/src/lib.rs:671-707 | ends behind the matching parenthesis of a process substitution: the first balanced place outside quotations, expansions and escapes |
| `ShellLexer.Lexer.OperatorToken` | crates/wasmsh-lex/src/lib.rs:622-668 | the longest operator at the position |
| `ShellLexer.Lexer.VisibleToken` | crates/wasmsh-lex/src/lib.rs:595-620 | the token at a byte that is neither blank nor a comment |
| `ShellLexer.Lexer.NextToken` | crates/wasmsh-lex/src/lib.rs:583-593 | the next token behind any comment; always terminates |
| `ShellLexer.Lexer.NextNormalToken` | crates/wasmsh-lex/src/lib.rs:595-620 | the next token, with the position moved to its end |
| `ShellLexer.Lexer.TokenizeAll` | crates/wasmsh-lex/src/lib.rs:706-720 | the token list, which tiles the source, with every token of the kind its text has and the depth restored |
| `WordParser.Parser.Flush` | crates/wasmsh-parse/src/word_parser.rs:543-547 | moves collected literal text, if any, to the parts |
| `WordParser.Parser.ParseSingleQuotedPart` | crates/wasmsh-parse/src/word_parser.rs:78-95 | takes one quoted part and leaves the parts of the whole word as they will be |
| `WordParser.Parser.ParseEscapedLiteral` | crates/wasmsh-parse/src/word_parser.rs:108-123 | takes an escaped byte or drops a line continuation |
| `WordParser.Parser.ParseOctalDigits` | crates/wasmsh-parse/src/word_parser.rs:510-519 | up to three octal digits |
| `WordParser.Parser.ParseHexDigits` | crates/wasmsh-parse/src/word_parser.rs:522-537 | up to two hexadecimal digits |
| `WordParser.Parser.AnsiCEscape` | crates/wasmsh-parse/src/word_parser.rs:446-507 | one escape of an ANSI-C quotation |
| `WordParser.OctalDenotes` | crates/wasmsh-parse/src/word_parser.rs:446-519 | octal digits denote the byte with their number, modulo 256 |
| `WordParser.HexDenotes` | crates/wasmsh-parse/src/word_parser.rs:446-537 | hexadecimal digits behind an x denote the byte with their number |
| `WordParser.HexDigitsInOrder` | crates/wasmsh-parse/src/word_parser.rs:522-537 | the sixteen digits, small and capital, have their values in order |
| `WordParser.LettersDenote` | crates/wasmsh-parse/src/word_parser.rs:446-507 | the letters with a meaning stand for their ASCII codes |
| `WordParser.ExpansionsStart` | crates/wasmsh-parse/src/word_parser.rs:24-45 | double quotes, backquotes, dollar signs that open no quotation and process substitutions are left to the scanner |
| `WordParser.EscapesDenote` | crates/wasmsh-parse/src/word_parser.rs:108-123 | outside quotes a backslash stands for the byte behind it and takes a line end away |
| `WordParser.PushedIsUtf8` | crates/wasmsh-parse/src/word_parser.rs:422-443 | a byte pushed as a character is its UTF-8 encoding |
| `WordParser.Parser.ParseAnsiCQuoted` | crates/wasmsh-parse/src/word_parser.rs:422-443 | the text of an ANSI-C quotation and the position behind it |
| `WordParser.Parser.ParseDollarPart` | crates/wasmsh-parse/src/word_parser.rs:125-152 | an ANSI-C quotation, or an expansion, or a lone dollar sign |
| `WordParser.Parser.ParseWordPart` | crates/wasmsh-parse/src/word_parser.rs:24-45 | always advances and leaves the parts of the whole word as they will be |
| `WordParser.Parser.ParseWordParts` | crates/wasmsh-parse/src/word_parser.rs:10-22 | the parts of the word |
| `Quoting.LexInside` | crates/wasmsh-lex/src/lib.rs:224-244 | from inside the quoted form the lexer leaves the quotation and reaches the end of the word |
| `Quoting.AtQIsOneWord` | crates/wasmsh-expand/src/lib.rs:1441-1445 | for every string, the `@Q` text is exactly one word token, spans all of it and is never a candidate for a reserved word |
| `Quoting.ParseInside` | crates/wasmsh-parse/src/word_parser.rs:78-123 | from inside the quoted form the parts complete the quoted text |
| `Quoting.AtQRoundTrips` | crates/wasmsh-expand/src/lib.rs:1441-1445 | for every string, the parts of the `@Q` text contain no expansion and concatenate to the string |
| `PrintfQuote.ShellQuote` | crates/wasmsh-builtins/src/lib.rs:612-638 | the loop builds the quoted form: empty quotes, the text itself, or an ANSI-C quotation |
| `PrintfQuote.AnsiCReads` | crates/wasmsh-parse/src/word_parser.rs:422-507 | an escaped text is read back byte by byte, up to its closing quote |
| `PrintfQuote.LatinIsIdentity` | crates/wasmsh-parse/src/word_parser.rs:422-443 | pushing bytes as characters changes nothing exactly when all are ASCII |
| `PrintfQuote.ReadsBackExactlyAscii` | crates/wasmsh-builtins/src/lib.rs:612-638 | the word parser gives a `%q` text back unchanged exactly when it is ASCII |
| `PrintfQuote.LexerLeavesQuotation` | crates/wasmsh-lex/src/lib.rs:318-336 | the lexer leaves an ANSI-C quotation at the first quote of the text, escaped or not |
| `PrintfQuote.ArmoredWord` | crates/wasmsh-lex/src/lib.rs:520-567 | a word that has left the quotation early never gets past the closing quote |
| `PrintfQuote.OneWordExactlyWithoutQuotes` | crates/wasmsh-builtins/src/lib.rs:612-638 | the `%q` text is one word token spanning all of it exactly when the text has no single quote |
| `PrintfQuote.OrdinaryWordExactly` | crates/wasmsh-lex/src/lib.rs:569-580 | it is a word token that is no candidate for a reserved word exactly when, besides, it was quoted or is not a reserved word |
| `PrintfQuote.ApostropheBreaksTheWord` | crates/wasmsh-builtins/src/lib.rs:612-638 | a text for which it is not |
| `Paths.NormalizePath` | crates/wasmsh-fs/src/lib.rs:257-281 | the loop over the components computes the normal form |
| `Paths.ComponentsOfNormalized` | crates/wasmsh-fs/src/lib.rs:257-281 | no empty, `.` or `..` component is left, and the components read back unchanged |
| `Paths.NormalizeIsIdempotent` | crates/wasmsh-fs/src/lib.rs:257-281 | normalizing twice is normalizing once |
| `Paths.NormalizeOfJoin` | crates/wasmsh-fs/src/lib.rs:257-281 | normalizing an absolute prefix first makes no difference |
| `Paths.ProperIsAdded` | crates/wasmsh-fs/src/lib.rs:257-281 | a proper component is added behind the others |
| `Paths.DotDotDropsComponent` | crates/wasmsh-fs/src/lib.rs:257-281 | `..` takes the component before it away and nothing at the root; `.` and empty components do nothing |
| `Paths.NormalText` | crates/wasmsh-fs/src/lib.rs:257-281 | the normal form is the components with one slash between them, behind one if absolute, and a slash or a dot without any |
| `Paths.ProperPathsStay` | crates/wasmsh-fs/src/lib.rs:257-281 | a path of proper components is its own normal form |
| `FsSpec.SumWithout` | crates/wasmsh-fs/src/memfs.rs:175-211 | the real total does not depend on the order of summing |
| `FsSpec.PutKeepsQuota` | crates/wasmsh-fs/src/memfs.rs:175-211 | storing a file with the total adjusted keeps quota and inode cap, and the difference between cached and real total |
| `FsSpec.DropKeepsQuota` | crates/wasmsh-fs/src/memfs.rs:644-675 | removing a node keeps them with its bytes given back, and without adds exactly them to the difference |
| `FsSpec.FollowStops` | crates/wasmsh-fs/src/memfs.rs:239-260 | following links past a node that is no link changes nothing |
| `FsSpec.AncestorsArePrefixes` | crates/wasmsh-fs/src/memfs.rs:145-172 | the ancestors of an absolute path are the paths of its first components, itself left out |
| `FsSpec.UnsetModePermits` | crates/wasmsh-fs/src/memfs.rs:228-236 | a file whose mode was never set can be opened in every way |
| `FsSpec.LinksLeadFromTheirDirectory` | crates/wasmsh-fs/src/memfs.rs:239-260 | a link leads to its target, read from its own directory unless it is absolute |
| `FsSpec.ResolvesWithinLimit` | crates/wasmsh-fs/src/memfs.rs:239-260 | a path whose links end within the limit leads to one place |
| `FsSpec.TargetSame` | crates/wasmsh-fs/src/memfs.rs:239-260 | paths lead where they led as long as no link changes |
| `FsSpec.OwnerDigitDecides` | crates/wasmsh-fs/src/memfs.rs:297-303 | after setting an octal mode, reading needs the 4 of the owner digit and writing its 2 |
| `MemFs.MemoryFs.constructor` | crates/wasmsh-fs/src/memfs.rs:119-132 | only the root, within quota, with an exact total |
| `MemFs.MemoryFs.ResolveNormalized` | crates/wasmsh-fs/src/memfs.rs:239-260 | follows links to a node that is no link, and fails exactly when forty links in a row do not end |
| `MemFs.MemoryFs.Locate` | crates/wasmsh-fs/src/memfs.rs:267-269 | the place the links of a path lead to, failing exactly when they do not end within the limit |
| `MemFs.MemoryFs.AllocHandle` | crates/wasmsh-fs/src/memfs.rs:134-142 | a new handle is not in use |
| `MemFs.MemoryFs.EnsureParents` | crates/wasmsh-fs/src/memfs.rs:145-172 | adds exactly the missing directories above the path, and fails exactly when they exceed the inode cap |
| `MemFs.MemoryFs.CreateFile` | crates/wasmsh-fs/src/memfs.rs:314-325 | an empty file and the missing directories above it, failing exactly when there is no room |
| `MemFs.MemoryFs.OpenVirtual` | crates/wasmsh-fs/src/memfs.rs:271-286 | the reader moves to a new handle, its placeholder goes, and the cached total keeps charging exactly the bytes of the placeholder |
| `MemFs.MemoryFs.Open` | crates/wasmsh-fs/src/memfs.rs:267-338 | succeeds exactly when a reader waits where the path leads, the file there permits it by its mode, or it is to be created and there is room; the handle is for that place, and the nodes and the total are exactly those after creating, emptying or leaving it; a failure names its one reason: links without end, a directory, the mode, no file or no room |
| `MemFs.MemoryFs.ReadFile` | crates/wasmsh-fs/src/memfs.rs:340-372 | succeeds exactly on a readable handle to a file or reader; gives the content, and drains a reader; otherwise which of handle, permission and file is missing |
| `MemFs.MemoryFs.WriteChunk` | crates/wasmsh-fs/src/memfs.rs:175-211 | succeeds exactly when file size and quota allow and stores exactly the new content; a failure changes nothing and says whether the file, its size or the quota is the reason |
| `MemFs.MemoryFs.WriteFile` | crates/wasmsh-fs/src/memfs.rs:401-427 | succeeds exactly on a handle to a file opened for writing when the data fits; otherwise changes nothing and says why |
| `MemFs.MemoryFs.OpenWriteSink` | crates/wasmsh-fs/src/memfs.rs:429-471 | succeeds exactly when the path leads to a file or to an unused place with room; the sink is for that place, which is there, and empty unless appending; a failure says whether links, a directory or room is the reason |
| `MemFs.MemoryFs.InstallStreamReader` | crates/wasmsh-fs/src/memfs.rs:473-498 | succeeds exactly when no directory is there and new nodes fit; a placeholder replaces the node, its bytes are given back, nothing else changes but missing directories, and the difference between cached and real total stays |
| `MemFs.MemoryFs.Close` | crates/wasmsh-fs/src/memfs.rs:500-502 | forgets the handle |
| `MemFs.MemoryFs.CreateSymlink` | crates/wasmsh-fs/src/memfs.rs:561-587 | succeeds exactly when the path is unused, everything above it is a directory or missing, and there is room; then adds exactly the link and the missing directories; a failure gives a reason that is true of the path |
| `MemFs.MemoryFs.CreateDir` | crates/wasmsh-fs/src/memfs.rs:632-642 | succeeds exactly when the path is unused and there is room; then adds exactly it and the missing directories; a failure says which of the two it was |
| `MemFs.MemoryFs.RemoveFile` | crates/wasmsh-fs/src/memfs.rs:644-675 | succeeds exactly when the path itself is a file or link, and removes exactly that, giving the bytes back; a failure changes nothing and says whether nothing or a directory is there |
| `MemFs.MemoryFs.RemoveDir` | crates/wasmsh-fs/src/memfs.rs:677-705 | succeeds exactly when the path is a directory with nothing below it, and removes exactly that; a failure says whether nothing, no directory or a full one is there |
| `MemFs.MemoryFs.SetMode` | crates/wasmsh-fs/src/memfs.rs:707-715 | sets the nine permission bits of an existing path, and fails exactly when there is none |
| `MemFs.MemoryWriteSink.Write` | crates/wasmsh-fs/src/memfs.rs:175-218 | succeeds exactly when the chunk fits; the first write of a replacing sink replaces, later ones append; a failure changes nothing |
| `MemFs.MemoryWriteSink.WriteAll` | crates/wasmsh-fs/src/memfs.rs:175-218 | after any run of writes, refused ones included, the file holds what it started with and the accepted chunks in order |
| `MemFs.WriteByPath` | crates/wasmsh-fs/src/memfs.rs:267-427 | opening a path for writing and writing succeeds exactly when the path can be opened and the data fits, and leaves the data where the path leads |
| `MemFs.WriteThenRead` | crates/wasmsh-fs/src/memfs.rs:267-427 | writing a path and reading the same path gives the data, through any links, unless a reader waits there; and exactly when that succeeds |
| `MemFs.WriteVia` | crates/wasmsh-fs/src/memfs.rs:429-471 | chunks sent to a sink for a path end up in order in the file the path leads to |
| `MemFs.ReaderLeavesBytesCharged` | crates/wasmsh-fs/src/memfs.rs:271-286 | the one way the cached total drifts: a reader opened after its placeholder was written leaves the bytes charged with no file |
| `Getopts.FindOption` | crates/wasmsh-builtins/src/lib.rs:1216-1237 | finds the next option letter, or that there is none, from any stored position |
| `Getopts.FlagStep` | crates/wasmsh-builtins/src/lib.rs:1254-1342 | an option without argument, known or not, reports the head of the scan and moves forward |
| `Getopts.AttachedStep` | crates/wasmsh-builtins/src/lib.rs:1279-1285 | an attached argument reports the head of the scan and moves to the next word |
| `Getopts.SeparateStep` | crates/wasmsh-builtins/src/lib.rs:1286-1290 | a separate argument reports the head of the scan and moves over two words |
| `Getopts.MissingStep` | crates/wasmsh-builtins/src/lib.rs:1291-1323 | a missing argument is the last event of the scan |
| `Getopts.StepFollowsScan` | crates/wasmsh-builtins/src/lib.rs:1173-1356 | one call reports the head of what the one-shot scan still has, moves strictly forward, and stops exactly when nothing is left |
| `Getopts.ScanStopsAtOperand` | crates/wasmsh-builtins/src/lib.rs:1216-1237 | the one-shot scan ends at the end of the words, behind `--`, or at a word that is no option |
| `Getopts.OneOption` | crates/wasmsh-builtins/src/lib.rs:1254-1342 | by the option string alone: what is reported for an option without argument, with an attached or separate one, and with a missing one, where a leading colon turns the question mark into a colon |
| `Getopts.OperandsStop` | crates/wasmsh-builtins/src/lib.rs:1216-1237 | a word that is no option ends the scan before it, `--` behind it |
| `Getopts.FlagsMayCluster` | crates/wasmsh-builtins/src/lib.rs:1254-1342 | options without arguments may share a word |
| `Getopts.UnknownOption` | crates/wasmsh-builtins/src/lib.rs:1254-1278 | an unknown option reports a question mark, and its letter only after a leading colon |
| `Getopts.Shell.SavePosition` | crates/wasmsh-builtins/src/lib.rs:1343-1355 | the stored variables read back as the position |
| `Getopts.Shell.Finish` | crates/wasmsh-builtins/src/lib.rs:1239-1246 | stores the final index and clears the offset |
| `Getopts.Shell.Report` | crates/wasmsh-builtins/src/lib.rs:1248-1356 | sets the named variable, OPTARG and the position as the step says |
| `Getopts.Shell.Getopts` | crates/wasmsh-builtins/src/lib.rs:1173-1356 | the status, the named variable, OPTARG and the next position are those of the step from the stored position |
| `Getopts.Shell.Poll` | crates/wasmsh-builtins/src/lib.rs:1173-1356 | one call and what its caller reads off, as the head of the scan |
| `Getopts.Shell.CollectRest` | crates/wasmsh-builtins/src/lib.rs:1173-1356 | calling until the status is 1 yields the rest of the scan |
| `Getopts.Shell.CollectAll` | crates/wasmsh-builtins/src/lib.rs:1173-1361 | a whole run from index 1 yields exactly the one-shot scan and leaves OPTIND at its first operand |
| `Decimal.ParseInvertsDigits` | crates/wasmsh-builtins/src/lib.rs:1343-1355 | the decimal text of a position reads back |
| `Dispatcher.TextOrder` | crates/wasmsh-dispatcher/src/lib.rs:197-197 | runner names compare in dictionary order |
| `Dispatcher.BestIsLeastLoaded` | crates/wasmsh-dispatcher/src/lib.rs:167-198 | against the best runner no accepting one has more free slots, nor at a tie a shorter queue, then a faster restore, then fewer sessions, then a smaller name |
| `Dispatcher.PriorityFlips` | crates/wasmsh-dispatcher/src/lib.rs:186-198 | the comparison is antisymmetric, and equal only for the same runner |
| `Dispatcher.PriorityTransitive` | crates/wasmsh-dispatcher/src/lib.rs:186-198 | the comparison is transitive |
| `Dispatcher.BestIsUnique` | crates/wasmsh-dispatcher/src/lib.rs:167-173 | there is at most one best runner |
| `Dispatcher.SelectRunner` | crates/wasmsh-dispatcher/src/lib.rs:167-173 | for every iteration order, the choice is the one accepting runner that no other outranks, least loaded in that sense, and fails exactly when none accepts |
| `Dispatcher.DiscoveredTables` | crates/wasmsh-dispatcher/src/service.rs:491-508 | after a refresh snapshots and addresses are known for exactly the discovered runners |
| `Dispatcher.LastReportCounts` | crates/wasmsh-dispatcher/src/service.rs:491-508 | of several reports about a runner the last one counts |
| `Dispatcher.Next` | crates/wasmsh-dispatcher/src/service.rs:491-624 | every locked step keeps snapshots and addresses for the same runners |
| `Dispatcher.Run` | crates/wasmsh-dispatcher/src/service.rs:491-624 | so does every interleaving of locked steps |
| `Dispatcher.StepAndPin` | crates/wasmsh-dispatcher/src/lib.rs:154-183 | a step keeps the pin of a session, unless it is its release or a dispatch that finds the runner gone, and then the pin is gone |
| `Dispatcher.AffinityIsSticky` | crates/wasmsh-dispatcher/src/lib.rs:154-183 | through every run without such a step a session keeps its runner |
| `Dispatcher.PinsComeFromDispatch` | crates/wasmsh-dispatcher/src/lib.rs:154-183 | in every reachable state each pin goes back to a dispatch that chose the best runner, healthy, not draining and with a free slot, and nothing unpinned it since |
| `Dispatcher.LookupAfterDispatch` | crates/wasmsh-dispatcher/src/service.rs:583-618 | after a dispatch, lookups go to the same runner until it is unpinned, and fail only while that runner is gone |
| `Dispatcher.RefusedExactlyWhenFull` | crates/wasmsh-dispatcher/src/service.rs:583-596 | a session is refused exactly when it has no live runner and no runner accepts |
| `Dispatcher.RoutingState.constructor` | crates/wasmsh-dispatcher/src/service.rs:247-247 | the tables start empty and consistent |
| `Dispatcher.RoutingState.RoutableRunnerCount` | crates/wasmsh-dispatcher/src/lib.rs:146-151 | counts exactly the accepting runners |
| `Dispatcher.RoutingState.RemoveAll` | crates/wasmsh-dispatcher/src/service.rs:498-501 | forgets runners that were not rediscovered, in both tables |
| `Dispatcher.RoutingState.InsertAll` | crates/wasmsh-dispatcher/src/service.rs:503-506 | files every report in both tables |
| `Dispatcher.RoutingState.RefreshRunners` | crates/wasmsh-dispatcher/src/service.rs:491-508 | afterwards the tables hold exactly the discovered runners, affinity is untouched, and the count is returned |
| `Dispatcher.RoutingState.SelectRunnerUrl` | crates/wasmsh-dispatcher/src/service.rs:583-602 | the dispatch step; a selected runner always has an address |
| `Dispatcher.RoutingState.RunnerUrlForExistingSession` | crates/wasmsh-dispatcher/src/service.rs:604-619 | an address exactly when the session is pinned to a known runner |
| `Dispatcher.RoutingState.ReleaseSessionAffinity` | crates/wasmsh-dispatcher/src/service.rs:621-624 | forgets the pin and nothing else |
| `Base64.Encode` | crates/wasmsh-pyodide/src/python_cmd.rs:228-250 | the loop over three-byte chunks; four symbols for each started chunk |
| `Base64.TripleSplits` | crates/wasmsh-pyodide/src/python_cmd.rs:228-250 | the four sextets of three bytes put the bytes back together |
| `Base64.ChunkIsItsBits` | crates/wasmsh-pyodide/src/python_cmd.rs:228-250 | four symbols hold the bits of a chunk from the highest on, and `=` stands for each byte that is missing |
| `Base64.Decode` | crates/wasmsh-pyodide/src/network.rs:99-122 | the loop over the symbols; the buffer never holds more than twelve bits |
| `Base64.RoundTrip` | crates/wasmsh-pyodide/src/network.rs:99-122 | decoding an encoded byte string gives it back |
| `Base64.OnlyLettersMatter` | crates/wasmsh-pyodide/src/network.rs:99-122 | bytes outside the alphabet, padding included, change nothing |

## Left out

- RegexComplete.MatchComplete: a sufficient condition on the pattern alone; the exact condition, for every pattern and text, is `RegexAtomic.SearchIsAtomic`.
- GlobAgreement.AgreementFixesShortestNames: for patterns with a star and a class this is a necessary condition and `GlobAgreement.CleanPatternsAgree` a sufficient one. Between them agreement depends on where stars stand among overlapping sets: `*[!x]*[!y]*` and `*[!x][!y]*` match the same names.
- ArithSpec.EvalOfPrinted: trees within the depth budget of 64, counted by `Cost`; `ArithDepth.BudgetIsExact` covers those beyond it.
- ArithParser.Parser.ParseBinary: the ten binary-level functions of the source are one method with the level as a parameter.
- ArithParser.EvalArithmetic: starts from tokens; the tokenizer, which reads variables and number bases, is not part of the model. Variables hold 64-bit integers; read-only variables, name references and dynamic variables are not modelled.
- ExpandGlob.StripPrefixGlob: cuts at bytes; the source slices text and relies on cuts between characters.
- RegexMatcher.FindFirstMatch: receives the pattern without its anchors; anchor stripping and the shortcut for patterns without operators are not modelled.
- RegexPrint.ReadInvertsPrint: trees that have a text. Nested groups have no quantifier there, and a class inside a group has no parenthesis, bar or backslash, because the search for the end of a group does not know classes.
- AndOrLowering.LowerAndOr: timing and the flags of `|&` are not part of a pipeline here; the caller refuses timed pipelines before lowering (crates/wasmsh-runtime/src/lib.rs:5304-5313).
- AndOrLowering.RunWithExecutor: the step budget is modelled, cancellation and the output limit are not; jump code that is not strictly forward needs a budget to end.
- StreamingTr.TrStreamReader.Read: upstream read errors are not modelled, nor is the parsing of sets; a stage is given by its expanded sets.
- StreamingGrep.GrepStreamReader.Drain: the test of a line is an arbitrary predicate, the output is a list of events, and `-o` output, prefixes and the hand-out of the output buffer are not modelled.
- WordParser.Parser.ParseExpansion: double quotes, parameters, substitutions and backquotes are scanned by an arbitrary function that advances; no result depends on what it returns. Octal escapes above 255 wrap, as in a release build.
- FieldExpansion.Expander.ExpandWordArgv: parameter and arithmetic expansion and array elements are arbitrary functions of name and state.
- Getopts.Shell.Getopts: diagnostics on the error stream are not modelled, and shell variables are a map without read-only or dynamic ones; `OPTIND` is unbounded.
- MemFs.MemoryFs.Open: handles are unbounded numbers; the wording of error messages is not modelled; `stat`, `lstat`, `read_link`, `read_dir` and streaming reads are not modelled; branches for links behind link resolution are proved unreachable and omitted; a stream reader is its remaining content and does not fail.
- Dispatcher.SelectRunner: latencies are real numbers, so a latency that is not a number is outside the model; discovery over HTTP is a parameter.
- Base64.Decode: shifts and masks are written as multiplication, division and remainder.
- Extended globs, which work by textual substitution with a repetition cap, the unanchored pattern replacements and substring expansion.
- The shell grammar, here-documents, AST lowering, and the agreement of lexer and word parser on the extent of nested expansions.
- The HTTP service, JavaScript and Python bindings, other builtins, traps, jobs and the file descriptor table.
