/**
 * The public entry points of namespace `glob`: `match`, which runs the
 * matching loop with the case-sensitive policy, and `isGlob`.
 */
module Glob {
  import opened GlobSpec
  import opened GlobDetails

  /**
   * `match(s, p)`: data first, pattern second, always `cs_match`. The source
   * names the `zero_or_more` parameter `match_one_or_more`; it is passed on as
   * `zero_or_more`.
   */
  method Match(s: string, p: string, matchOneOrMore: char := '*', matchExactlyOne: char := '.')
    returns (r: bool)
    requires matchOneOrMore != matchExactlyOne
    requires matchOneOrMore !in s
    ensures r == GlobMatches(s, p, Wildcards(matchOneOrMore, matchExactlyOne), CsMatch)
  {
    ghost var passes;
    r, passes := MatchImpl(CsMatch, p, s, matchOneOrMore, matchExactlyOne);
  }

  /** The result of `std::string::find`: an index or `npos`. */
  datatype Position = At(index: nat) | NPos

  /** `s.find(c)`: the first index holding `c`. */
  function Find(s: string, c: char): (r: Position)
    ensures r.NPos? <==> c !in s
    ensures r.At? ==> r.index < |s| && s[r.index] == c && c !in s[..r.index]
  {
    if s == [] then NPos
    else if s[0] == c then At(0)
    else match Find(s[1..], c)
      case NPos => NPos
      case At(i) =>
        assert s[..i + 1] == [s[0]] + s[1..][..i];
        At(i + 1)
  }

  /** `isGlob(s)`: the string holds one of the two wildcard symbols. */
  function IsGlob(s: string, matchOneOrMore: char := '*', matchExactlyOne: char := '.'): (r: bool)
    ensures r <==> matchExactlyOne in s || matchOneOrMore in s
  {
    Find(s, matchExactlyOne) != NPos || Find(s, matchOneOrMore) != NPos
  }

  /**
   * A string for which `isGlob` is false matches, under `cs_match`, exactly
   * the data string equal to it.
   */
  lemma NonGlobMatchesItselfOnly(s: string, p: string, zeroOrMore: char, exactlyOne: char)
    requires !IsGlob(p, zeroOrMore, exactlyOne)
    ensures GlobMatches(s, p, Wildcards(zeroOrMore, exactlyOne), CsMatch) <==> s == p
  {
    LiteralPatternMatches(s, p, Wildcards(zeroOrMore, exactlyOne), CsMatch);
    if |s| == |p| && forall k :: 0 <= k < |p| ==> CsMatch(p[k], s[k]) {
      assert s == p;
    }
  }

  /**
   * With a pattern of literals and `exactly_one` only, `match` holds exactly
   * for the data strings of the pattern's length that agree with every literal.
   */
  lemma MatchWithoutZeroOrMore(s: string, p: string, zeroOrMore: char, exactlyOne: char)
    requires zeroOrMore !in p
    ensures GlobMatches(s, p, Wildcards(zeroOrMore, exactlyOne), CsMatch) <==>
      |s| == |p| && forall k :: 0 <= k < |p| ==> p[k] == exactlyOne || p[k] == s[k]
  {
    NoZeroOrMoreMatches(s, p, Wildcards(zeroOrMore, exactlyOne), CsMatch);
  }

  /**
   * Under the reference semantics `*` matches every data string. `match(s, "*")`
   * agrees with it whenever `s` holds no `*`; on some data holding `*` it does
   * not (`GlobFindings.StarInDataWrongResult`).
   */
  lemma StarMatchesEverything(s: string)
    ensures GlobMatches(s, "*", Wildcards('*', '.'), CsMatch)
  {
    ZeroOrMoreRunMatchesAll(s, "*", Wildcards('*', '.'), CsMatch);
  }

  /** Example outcomes without `zero_or_more`, with the default symbols. */
  lemma ExampleOutcomesFixedLength()
    ensures GlobMatches("", "", Wildcards('*', '.'), CsMatch)
    ensures !GlobMatches("abc", "", Wildcards('*', '.'), CsMatch)
    ensures GlobMatches("abc", "a.c", Wildcards('*', '.'), CsMatch)
    ensures !GlobMatches("abc", "a.d", Wildcards('*', '.'), CsMatch)
    ensures !GlobMatches("ABC", "abc", Wildcards('*', '.'), CsMatch)
    ensures GlobMatches("ABC", "abc", Wildcards('*', '.'), CisMatch)
  {
    MatchWithoutZeroOrMore("abc", "a.c", '*', '.');
    MatchWithoutZeroOrMore("abc", "a.d", '*', '.');
    MatchWithoutZeroOrMore("ABC", "abc", '*', '.');
    NoZeroOrMoreMatches("ABC", "abc", Wildcards('*', '.'), CisMatch);
  }

  /** `match("abcdef", "a*f")` holds and `match("abcdef", "a*g")` does not. */
  lemma ExampleOutcomesInnerStar()
    ensures GlobMatches("abcdef", "a*f", Wildcards('*', '.'), CsMatch)
    ensures !GlobMatches("abcdef", "a*g", Wildcards('*', '.'), CsMatch)
  {
    var w := Wildcards('*', '.');
    assert "a*f" == "a*" + "f" && "a*g" == "a*" + "g";
    ConcatPatternMatches("abcdef", "a*", "f", w, CsMatch);
    assert "abcdef"[5..] == "f";
    MatchWithoutZeroOrMore("f", "f", '*', '.');
    assert "a*" == "a" + "*";
    TrailingZeroOrMoreMatches("abcdef"[..5], "a", "*", w, CsMatch);
    assert "abcdef"[..5][..1] == "a";
    MatchWithoutZeroOrMore("a", "a", '*', '.');
    ConcatPatternMatches("abcdef", "a*", "g", w, CsMatch);
    forall k | 0 <= k <= 6 ensures !GlobMatches("abcdef"[k..], "g", w, CsMatch) {
      MatchWithoutZeroOrMore("abcdef"[k..], "g", '*', '.');
    }
  }

  /** `match("aaaa", "a*a")` holds: the `*` may take fewer characters than it can. */
  lemma ExampleOutcomesShortStar()
    ensures GlobMatches("aaaa", "a*a", Wildcards('*', '.'), CsMatch)
  {
    var w := Wildcards('*', '.');
    assert "a*a" == "a*" + "a";
    ConcatPatternMatches("aaaa", "a*", "a", w, CsMatch);
    assert "aaaa"[3..] == "a";
    MatchWithoutZeroOrMore("a", "a", '*', '.');
    assert "a*" == "a" + "*";
    TrailingZeroOrMoreMatches("aaaa"[..3], "a", "*", w, CsMatch);
    assert "aaaa"[..3][..1] == "a";
  }

  /**
   * With the default symbols `.` is a wildcard, so any file name with an
   * extension counts as a glob, `report_01.csv` included.
   */
  lemma IsGlobOnFileNames()
    ensures IsGlob("report_*.csv") && IsGlob("report_01.csv") && !IsGlob("report_01")
  {
    assert "report_*.csv"[7] == '*';
    assert "report_01.csv"[9] == '.';
    var plain := "report_01";
    assert forall k :: 0 <= k < |plain| ==> plain[k] != '.' && plain[k] != '*';
  }
}
