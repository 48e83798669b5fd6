/**
 * What the loop of `match_impl` does when the data holds the `zero_or_more`
 * character: it may never return, or return the wrong answer. The loop is taken
 * one pass at a time by `Step`, which each pass of `MatchImpl` computes.
 */
module GlobFindings {
  import opened GlobSpec
  import opened GlobDetails

  // Finding 1: `match("a*c", "*ab")` never returns.

  const CycleAt := Cursors(0, 1, 0, 1)

  lemma {:induction false} CycleRepeats(k: nat)
    ensures Iterate(CsMatch, "*ab", "a*c", '*', '.', CycleAt, k).Running?
    decreases k
  {
    var p, d := "*ab", "a*c";
    // Back at the `*` with data index 1, the literal branch takes the data's own `*` ...
    assert Step(CsMatch, p, d, '*', '.', CycleAt) == Running(Cursors(1, 2, 0, 1));
    // ... then `a` fails against `c` and the backtrack restores the same cursors.
    assert Step(CsMatch, p, d, '*', '.', Cursors(1, 2, 0, 1)) == Running(CycleAt);
    if k >= 2 {
      CycleRepeats(k - 2);
    }
  }

  /** As written: in `match("a*c", "*ab")` the loop runs for ever, though the reference answer is a plain no. */
  lemma StarInDataNeverReturns(k: nat)
    ensures Iterate(CsMatch, "*ab", "a*c", '*', '.', Initial, k).Running?
    ensures !GlobMatches("a*c", "*ab", Wildcards('*', '.'), CsMatch)
  {
    var p, d := "*ab", "a*c";
    assert SkipRun(p, '*', 0) == 1 && Align(CsMatch, '.', Char('a'), d, 0) == 0;
    assert Step(CsMatch, p, d, '*', '.', Initial) == Running(Cursors(1, 0, 0, 1));
    assert Step(CsMatch, p, d, '*', '.', Cursors(1, 0, 0, 1)) == Running(Cursors(2, 1, 0, 1));
    assert Step(CsMatch, p, d, '*', '.', Cursors(2, 1, 0, 1)) == Running(CycleAt);
    if k >= 3 {
      CycleRepeats(k - 3);
      assert Iterate(CsMatch, p, d, '*', '.', Initial, k) == Iterate(CsMatch, p, d, '*', '.', Cursors(1, 0, 0, 1), k - 1);
      assert Iterate(CsMatch, p, d, '*', '.', Cursors(1, 0, 0, 1), k - 1) == Iterate(CsMatch, p, d, '*', '.', Cursors(2, 1, 0, 1), k - 2);
      assert Iterate(CsMatch, p, d, '*', '.', Cursors(2, 1, 0, 1), k - 2) == Iterate(CsMatch, p, d, '*', '.', CycleAt, k - 3);
    }
    var w := Wildcards('*', '.');
    assert p == "*" + "ab";
    TrailingZeroOrMoreMatches(d, "", "*", w, CsMatch);
    ConcatPatternMatches(d, "*", "ab", w, CsMatch);
    forall j | 0 <= j <= |d| ensures !GlobMatches(d[j..], "ab", w, CsMatch) {
      MatchSuffixLiteral(d[j..], "ab");
    }
  }

  lemma MatchSuffixLiteral(s: string, p: string)
    requires p == "ab" && (|s| != 2 || s[1] != 'b')
    ensures !GlobMatches(s, p, Wildcards('*', '.'), CsMatch)
  {
    LiteralPatternMatches(s, p, Wildcards('*', '.'), CsMatch);
  }

  // Finding 2: `match("*a", "*")` returns false.

  /** As written: `match("*a", "*")` returns false, though `*` matches every data string. */
  lemma StarInDataWrongResult()
    ensures Iterate(CsMatch, "*", "*a", '*', '.', Initial, 2) == Returned(false)
    ensures GlobMatches("*a", "*", Wildcards('*', '.'), CsMatch)
  {
    var p, d := "*", "*a";
    assert Step(CsMatch, p, d, '*', '.', Initial) == Running(Cursors(1, 1, -1, -1));
    assert Step(CsMatch, p, d, '*', '.', Cursors(1, 1, -1, -1)) == Returned(false);
    ZeroOrMoreRunMatchesAll(d, p, Wildcards('*', '.'), CsMatch);
  }

  /**
   * A `*` in the data does not always go wrong: `match("*", "*")` and
   * `match("a*", "*")` return true, the reference answer.
   */
  lemma StarInDataSometimesRight()
    ensures Iterate(CsMatch, "*", "*", '*', '.', Initial, 2) == Returned(true)
    ensures Iterate(CsMatch, "*", "a*", '*', '.', Initial, 2) == Returned(true)
    ensures GlobMatches("*", "*", Wildcards('*', '.'), CsMatch)
    ensures GlobMatches("a*", "*", Wildcards('*', '.'), CsMatch)
  {
    var p := "*";
    // The pattern `*` is taken as a literal against the data `*`, then both cursors are at their end.
    assert Step(CsMatch, p, "*", '*', '.', Initial) == Running(Cursors(1, 1, -1, -1));
    assert Step(CsMatch, p, "*", '*', '.', Cursors(1, 1, -1, -1)) == Returned(true);
    // Against `a` the pattern `*` is entered as a wildcard and the scan runs to the data's end.
    assert SkipRun(p, '*', 0) == 1 && Align(CsMatch, '.', PastEnd, "a*", 0) == 2;
    assert Step(CsMatch, p, "a*", '*', '.', Initial) == Running(Cursors(1, 2, 0, 3));
    assert Step(CsMatch, p, "a*", '*', '.', Cursors(1, 2, 0, 3)) == Returned(true);
    ZeroOrMoreRunMatchesAll("*", p, Wildcards('*', '.'), CsMatch);
    ZeroOrMoreRunMatchesAll("a*", p, Wildcards('*', '.'), CsMatch);
  }
}
