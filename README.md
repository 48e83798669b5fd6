# Wildcard matcher of `glob.hpp`, modelled and proved in Dafny

The repository's only self-contained algorithm is the wildcard matcher in
`src/glob.hpp`. It is adapted from Partow's wildcard-matching code.
`glob::match(s, p)` decides whether the whole data string `s` matches the
whole pattern `p`. In the pattern, `zero_or_more` (default `*`) stands for any
run of characters and `exactly_one` (default `.`) for any one character.
`glob::isGlob(s)` tells whether a string holds either symbol.

The matcher `glob::details::match_impl` walks two cursors, one over the pattern
and one over the data. It keeps a single backtrack point: the last `*` run it
entered, and the data index at which to retry that run. The character
comparison is a policy: `cs_match` (equality) or `cis_match` (equality after
lower-casing).

The project has four modules:

- `GlobSpec` (`glob_spec.dfy`) holds the reference semantics. `GlobMatches`
  is a recursive predicate over the data and the pattern. Around it are
  lemmas for the properties of wildcard matching: the empty pattern,
  exhausted data, patterns without wildcards, trailing `*` runs, collapsing
  of adjacent `*`, splitting at a pattern concatenation, and an independent
  formulation by cutting the data into one piece per pattern symbol.
- `GlobDetails` (`glob_details.dfy`) holds `match_impl` as an imperative
  method, `MatchImpl`. Its `for (;;)` loop runs the method `Pass`, which is the
  loop body of lines 22-47 with the four iterators as integer indices; -1
  stands for the null iterator. `Pass` is proved to compute `Step`, the same
  body as a function defined for all inputs. `MatchImpl` is proved equal to
  `GlobMatches`, it is proved to terminate, and its answer is the one `Step`,
  repeated from the initial cursors, returns. The two comparison policies live
  here too.
- `Glob` (`glob.dfy`) holds the `match` wrapper, `isGlob`, and the example
  outcomes.
- `GlobFindings` (`glob_findings.dfy`) runs `Step` on data that holds the
  `zero_or_more` character. It shows what the code as written does there.

`match` only calls the imperative loop. A Dafny function cannot call a
method, so `Match` is a method.

The comparison policy is a parameter `cmp: (char, char) -> bool`. Its first
argument is the pattern character. `cis_match` is modelled with an ASCII-only
`ToLower`.

The source reads `*(p_itr)` at line 33 even when the `*` run ends the
pattern. The model reads that symbol as `PastEnd`, a sentinel that accepts no
data character. The scan at lines 34-37 then runs to the end of the data. The
value `nd = d + 1` can then lie one past the data's end; the loop returns
before it is used. For `std::string` the read in practice yields `'\0'`. With
that value the scan may stop at a `'\0'` in the data. The loop then backtracks
to the same run and scans on, so the answer is still true.

Two consequences of the code that a user might not expect:

- The interface does not exclude the wildcard symbols from the data. But the
  loop misbehaves when the data holds `zero_or_more`: see "## Findings".
- With `.` as the default `exactly_one`, every file name with an extension is
  a glob (`Glob.IsGlobOnFileNames`).

## Model

| member | source | states |
|---|---|---|
| `GlobDetails.MatchImpl` | src/glob.hpp:8-50 | The loop terminates and returns true exactly when the data matches the pattern under the reference semantics, for every pattern and data string. This needs the two wildcard symbols to differ and no data character to compare equal to `zero_or_more`. The answer is what `Step`, repeated `passes` times from the initial cursors, returns. |
| `GlobDetails.Pass` | src/glob.hpp:22-47 | One pass of the loop body computes exactly `Step` of the cursors. |
| `GlobDetails.Step` | src/glob.hpp:22-47 | One pass of the loop body as written, for all inputs. It keeps the cursors in range: the backtrack pair is set together and `nd <= d + 1`. |
| `GlobDetails.Iterate` | src/glob.hpp:21-48 | The `for (;;)` loop as `k` passes of `Step` from given cursors, stopping at the first return; every state it reaches keeps the cursors in range. |
| `GlobDetails.Peek` | src/glob.hpp:23-33 | The read `*(p_itr)`: the pattern symbol at the index when it is inside the pattern, and the end sentinel `PastEnd` when it is past the end. |
| `GlobDetails.Aligns` | src/glob.hpp:34-35 | The condition on which the scan at line 35 stops: the end sentinel stops it nowhere, `exactly_one` stops it at every character, and any other symbol where the policy relates it to the data character. |
| `GlobDetails.IterateOneMore` | src/glob.hpp:21-48 | After `k` passes that have not returned, pass `k + 1` is one more `Step` from the cursors reached. |
| `GlobDetails.StepKeepsScanState` | src/glob.hpp:22-47 | Under `MatchImpl`'s preconditions, one pass keeps the loop invariant, and any value it returns is the reference answer. |
| `GlobDetails.StepProgress` | src/glob.hpp:22-47 | Under `MatchImpl`'s preconditions, a pass that goes on either moves the retry index `nd` forward or keeps it and brings the pattern cursor closer to the end or back to the remembered `*`. So the loop terminates. |
| `GlobDetails.ScanStateEnter` | src/glob.hpp:29-39 | Entering a run of `*` sets a backtrack point that keeps the loop invariant. |
| `GlobDetails.EnterZeroOrMore` | src/glob.hpp:29-37 | On a `*`: the pattern cursor ends just past the whole run of `*` and the data cursor at the first character the next symbol accepts (or at the data's end). The match from the run's last `*` at the new data index equals the match from the first `*` at the old one. |
| `GlobDetails.SkipRun` | src/glob.hpp:30-32 | The index past a run of `zero_or_more`: every skipped symbol is `zero_or_more`, and the index is the pattern's end or a different symbol. |
| `GlobDetails.Align` | src/glob.hpp:33-37 | The first data index from the cursor on that the symbol after the run accepts, or the data's end. No skipped index is accepted; the end sentinel accepts nothing. |
| `GlobDetails.ScanStateSymbol` | src/glob.hpp:24-28 | Consuming an accepted character with a non-`*` symbol keeps the loop invariant. |
| `GlobDetails.ScanStateZeroOrMore` | src/glob.hpp:29 | Reaching a fresh `*`: the overall answer is the match from that `*`, and the data cursor is not behind the remembered retry index. This makes the retry index grow. |
| `GlobDetails.ScanStateBothEnds` | src/glob.hpp:42-43 | Both cursors at their end means the data matches. |
| `GlobDetails.ScanStateMismatch` | src/glob.hpp:44-47 | After a failed symbol: (a) with the data exhausted or no backtrack point, the data does not match; (b) otherwise, going back to the remembered `*` and retry index keeps the invariant. |
| `GlobDetails.ZeroOrMorePair` | src/glob.hpp:30-38 | Two adjacent `zero_or_more` symbols match from any data index exactly when the second alone does. So `np` may point at the run's last `*`. |
| `GlobDetails.ZeroOrMoreResumes` | src/glob.hpp:34-39 | A matching `*` hands some data index at or after the cursor on to the rest of the pattern. |
| `GlobDetails.LiteralStretch` | src/glob.hpp:24-28 | A stretch of `n` symbols without `*` consumes exactly `n` data characters. |
| `GlobDetails.CsMatch` | src/glob.hpp:52-56 | `cs_match` holds exactly when the two characters are equal, and then `cis_match` holds too. |
| `GlobDetails.ToLower` | src/glob.hpp:59 | The ASCII stand-in for `std::tolower`: an upper-case letter becomes its lower-case form, every other character is kept, and no result is upper-case. |
| `GlobDetails.CisMatch` | src/glob.hpp:57-61 | Two characters compare equal case-insensitively exactly when they are equal, or one is an ASCII upper-case letter and the other its lower-case form. |
| `GlobDetails.CompareRelations` | src/glob.hpp:52-61 | `cs_match` implies `cis_match`. `cis_match` is reflexive, symmetric and transitive. |
| `GlobDetails.MatchImplStarFirst` | src/glob.hpp:21-48 | The loop with the `zero_or_more` test moved ahead of the literal comparison. It terminates and equals the reference semantics for all inputs, with no precondition. |
| `GlobSpec.GlobMatchesIffSplit` | src/glob.hpp:11-50 | A data string matches exactly when it can be cut into one piece per pattern symbol: any run for each `zero_or_more`, and one accepted character for each other symbol. |
| `GlobSpec.SplitSound` | src/glob.hpp:11-50 | Every such cut gives a match. |
| `GlobSpec.SplitComplete` | src/glob.hpp:11-50 | Every match yields such a cut. |
| `GlobSpec.EmptyPatternMatchesOnlyEmpty` | src/glob.hpp:22-45 | The empty pattern matches the empty data string and nothing else. |
| `GlobSpec.EmptyDataMatches` | src/glob.hpp:24-45 | Empty data matches exactly the patterns made only of `zero_or_more`. So the answer is false whenever the data is exhausted while a non-`*` symbol remains. |
| `GlobSpec.NoZeroOrMoreMatches` | src/glob.hpp:24-45 | A pattern without `*` matches iff it has the data's length and each position is `exactly_one` or compares equal to the data character there. |
| `GlobSpec.LiteralPatternMatches` | src/glob.hpp:22-45 | A pattern with no wildcard matches iff it has the data's length and the policy relates every position. |
| `GlobSpec.ZeroOrMoreRunMatchesAll` | src/glob.hpp:29-43 | A non-empty pattern made only of `zero_or_more` matches every data string. |
| `GlobSpec.TrailingZeroOrMoreMatches` | src/glob.hpp:29-43 | A pattern ending in a `*` run matches a data string iff some prefix of it matches the part before the run. |
| `GlobSpec.ZeroOrMorePairCollapses` | src/glob.hpp:30-38 | Anywhere in a pattern, `**` matches exactly what `*` matches. |
| `GlobSpec.DoubledZeroOrMoreHead` | src/glob.hpp:30-32 | A pattern starting `**` matches exactly what the same pattern starting `*` matches. |
| `GlobSpec.ConcatMatches` | src/glob.hpp:11-50 | Matches of two patterns concatenate to a match of the concatenated pattern. |
| `GlobSpec.SplitMatches` | src/glob.hpp:11-50 | A match of a concatenated pattern divides the data at some index between the two parts. |
| `GlobSpec.ConcatPatternMatches` | src/glob.hpp:11-50 | `p1 + p2` matches iff some split of the data matches `p1` then `p2`. |
| `Glob.Match` | src/glob.hpp:63-69 | `match(s, p)` takes the data first and always uses `cs_match`. It returns the reference answer whenever the two symbols differ and `s` does not contain `zero_or_more`. |
| `Glob.Find` | src/glob.hpp:74-75 | `find` returns `npos` iff the character is absent; otherwise it returns the first index holding it. |
| `Glob.IsGlob` | src/glob.hpp:71-76 | `isGlob(s)` holds iff `s` contains `exactly_one` or `zero_or_more`. |
| `Glob.NonGlobMatchesItselfOnly` | src/glob.hpp:63-76 | A pattern that is not a glob matches, under `cs_match`, exactly the data string equal to it. |
| `Glob.MatchWithoutZeroOrMore` | src/glob.hpp:63-69 | Under `cs_match`, a pattern of literals and `.` matches iff it has the data's length and every literal equals the data character there. |
| `Glob.StarMatchesEverything` | src/glob.hpp:29-43 | Under the reference semantics `*` matches every data string. `match(s, "*")` agrees with it whenever `s` holds no `*`; on some data holding `*` it does not (see "## Findings"). |
| `Glob.ExampleOutcomesFixedLength` | src/glob.hpp:63-69 | `("", "")` matches and `("abc", "")` does not. `("abc", "a.c")` matches and `("abc", "a.d")` does not. `("ABC", "abc")` matches only under `cis_match`. |
| `Glob.ExampleOutcomesInnerStar` | src/glob.hpp:63-69 | `("abcdef", "a*f")` matches and `("abcdef", "a*g")` does not. |
| `Glob.ExampleOutcomesShortStar` | src/glob.hpp:63-69 | `("aaaa", "a*a")` matches: the `*` may take fewer characters than it can. |
| `Glob.IsGlobOnFileNames` | src/glob.hpp:71-76 | `report_*.csv` and `report_01.csv` are globs; `report_01` is not. |
| `GlobFindings.CycleRepeats` | src/glob.hpp:24-47 | From the cursors reached by `match("a*c", "*ab")`, the loop goes round a two-pass cycle for ever. |
| `GlobFindings.StarInDataNeverReturns` | src/glob.hpp:24-47 | `match("a*c", "*ab")` never returns, though the reference answer is false. |
| `GlobFindings.StarInDataSometimesRight` | src/glob.hpp:22-45 | `match("*", "*")` and `match("a*", "*")` return true, the reference answer: the precondition of `MatchImpl` also excludes data on which the loop is right. |
| `GlobFindings.StarInDataWrongResult` | src/glob.hpp:24-45 | `match("*a", "*")` returns false, though `*` matches every data string. |

## Findings

| source | as written | input that shows it | evidently intended | confidence | as-written member | corrected member |
|---|---|---|---|---|---|---|
| src/glob.hpp:24-29 | The literal comparison is tried before the `zero_or_more` test. After a backtrack to a `*`, a `*` in the data is consumed as a literal, and the same cursors come back every second pass. | `match("a*c", "*ab")` | The pattern's `*` is always a wildcard. The call returns false. | not executed | `GlobFindings.StarInDataNeverReturns` | `GlobDetails.MatchImplStarFirst` |
| src/glob.hpp:24-45 | A pattern `*` facing a data `*` is matched as a literal. The wildcard is never entered, and leftover data fails. | `match("*a", "*")` returns false | `*` matches every data string. The call returns true. | not executed | `GlobFindings.StarInDataWrongResult` | `GlobDetails.MatchImplStarFirst` |

`MatchImpl` and `Match` keep the code as written: each pass of `MatchImpl` is
`Step`, the function these lemmas run. Their precondition excludes all data
holding `zero_or_more`, which includes the inputs of these findings; on some
such data the loop is still right (`GlobFindings.StarInDataSometimesRight`).
`MatchImplStarFirst` is the corrected loop.

## Left out

- `src/plotting.cpp` and `src/plotting.h` are not part of this model. They
  are glue over the ROOT object model (canvases, pads, histograms, stacks,
  legends), with file-system I/O and floating-point ranges.
- `getStyleString` is not part of this model. It depends on `Style::Mode`
  from `style.h`, which is not part of this model either.
- The commented-out `executePlot` and `PlotDescription` code is not modelled.
- `MatchImpl` and `Match`: require the two wildcard symbols to differ
  (`zeroOrMore != exactlyOne`, `matchOneOrMore != matchExactlyOne`), even
  though the source terminates when the two coincide. In that case `*` acts as `exactly_one`
  while data remains. That odd reading has no reference semantics here, so the
  model leaves it out.
- `MatchImpl`: requires that no data character compares equal to
  `zeroOrMore`. On such data the source may loop for ever or answer wrongly
  (see "## Findings"). `Match` requires the same (`zero_or_more` not in `s`).
- `CisMatch` models `std::tolower` for ASCII only. Locale-dependent
  lower-casing is left out.
- The template works over any iterator type and value type. The model works on
  `string` (`seq<char>`) only.
- The read of `*pattern_end` at line 33 is modelled as a sentinel that accepts
  nothing, not as the `'\0'` that `std::string` yields. The argument that the
  answer is the same is given above in prose only; it is not proved.
