/**
 * The matching loop `glob::details::match_impl` and its two comparison
 * policies, `cs_match` and `cis_match`.
 */
module GlobDetails {
  import opened GlobSpec

  /** Policy `cs_match`: the characters are equal, which `cis_match` then also accepts. */
  function CsMatch(c0: char, c1: char): (r: bool)
    ensures r <==> c0 == c1
    ensures r ==> CisMatch(c0, c1)
  {
    c0 == c1
  }

  predicate IsUpper(c: char)
  {
    'A' <= c <= 'Z'
  }

  /**
   * `std::tolower` restricted to ASCII: an upper-case letter becomes its
   * lower-case form, every other character is kept, and no result is upper-case.
   */
  function ToLower(c: char): (r: char)
    ensures !IsUpper(r)
    ensures IsUpper(c) ==> r as int == c as int + 32
    ensures !IsUpper(c) ==> r == c
  {
    if IsUpper(c) then (c as int + 32) as char else c
  }

  /** Policy `cis_match`: the characters are equal once both are lower-cased. */
  function CisMatch(c0: char, c1: char): (r: bool)
    ensures r <==> c0 == c1 ||
                   (IsUpper(c0) && c1 as int == c0 as int + 32) ||
                   (IsUpper(c1) && c0 as int == c1 as int + 32)
  {
    ToLower(c0) == ToLower(c1)
  }

  /** `cs_match` is finer than `cis_match`, and `cis_match` is an equivalence. */
  lemma CompareRelations(a: char, b: char, c: char)
    ensures CsMatch(a, b) ==> CisMatch(a, b)
    ensures CisMatch(a, a)
    ensures CisMatch(a, b) ==> CisMatch(b, a)
    ensures CisMatch(a, b) && CisMatch(b, c) ==> CisMatch(a, c)
  {
  }

  // ---------------------------------------------------------------------------
  // The loop's view of the reference semantics: pattern suffix from index `i`
  // against data suffix from index `j`.

  ghost predicate SuffixMatches(d: string, p: string, w: Wildcards, cmp: Compare, i: int, j: int)
    requires 0 <= i <= |p| && 0 <= j <= |d|
  {
    GlobMatches(d[j..], p[i..], w, cmp)
  }

  lemma UnfoldZeroOrMore(d: string, p: string, w: Wildcards, cmp: Compare, i: int, j: int)
    requires 0 <= i < |p| && 0 <= j <= |d| && p[i] == w.zeroOrMore
    ensures SuffixMatches(d, p, w, cmp, i, j) ==
      (SuffixMatches(d, p, w, cmp, i + 1, j) || (j < |d| && SuffixMatches(d, p, w, cmp, i, j + 1)))
  {
    assert p[i..][0] == p[i] && p[i..][1..] == p[i + 1..];
    if j < |d| { assert d[j..][1..] == d[j + 1..]; }
  }

  lemma UnfoldSymbol(d: string, p: string, w: Wildcards, cmp: Compare, i: int, j: int)
    requires 0 <= i < |p| && 0 <= j <= |d| && p[i] != w.zeroOrMore
    ensures SuffixMatches(d, p, w, cmp, i, j) ==
      (j < |d| && Accepts(w, cmp, p[i], d[j]) && SuffixMatches(d, p, w, cmp, i + 1, j + 1))
  {
    assert p[i..][0] == p[i] && p[i..][1..] == p[i + 1..];
    if j < |d| { assert d[j..][0] == d[j] && d[j..][1..] == d[j + 1..]; }
  }

  /** A `zero_or_more` that matches from data index `k` also matches from any earlier index. */
  lemma {:induction false} ZeroOrMoreMonotone(d: string, p: string, w: Wildcards, cmp: Compare, i: int, j: int, k: int)
    requires 0 <= i < |p| && 0 <= j <= k <= |d| && p[i] == w.zeroOrMore
    requires SuffixMatches(d, p, w, cmp, i, k)
    ensures SuffixMatches(d, p, w, cmp, i, j)
    decreases k - j
  {
    if j < k {
      ZeroOrMoreMonotone(d, p, w, cmp, i, j + 1, k);
      UnfoldZeroOrMore(d, p, w, cmp, i, j);
    }
  }

  /** A matching `zero_or_more` hands some data index `k` on to the rest of the pattern. */
  lemma {:induction false} ZeroOrMoreResumes(d: string, p: string, w: Wildcards, cmp: Compare, i: int, j: int)
    returns (k: int)
    requires 0 <= i < |p| && 0 <= j <= |d| && p[i] == w.zeroOrMore
    requires SuffixMatches(d, p, w, cmp, i, j)
    ensures j <= k <= |d| && SuffixMatches(d, p, w, cmp, i + 1, k)
    decreases |d| - j
  {
    UnfoldZeroOrMore(d, p, w, cmp, i, j);
    if SuffixMatches(d, p, w, cmp, i + 1, j) {
      k := j;
    } else {
      k := ZeroOrMoreResumes(d, p, w, cmp, i, j + 1);
    }
  }

  /** A run of two `zero_or_more` behaves as its second one. */
  lemma ZeroOrMorePair(d: string, p: string, w: Wildcards, cmp: Compare, i: int, j: int)
    requires 0 <= i && i + 1 < |p| && 0 <= j <= |d|
    requires p[i] == w.zeroOrMore && p[i + 1] == w.zeroOrMore
    ensures SuffixMatches(d, p, w, cmp, i, j) == SuffixMatches(d, p, w, cmp, i + 1, j)
  {
    UnfoldZeroOrMore(d, p, w, cmp, i, j);
    if SuffixMatches(d, p, w, cmp, i, j) {
      var k := ZeroOrMoreResumes(d, p, w, cmp, i, j);
      ZeroOrMoreMonotone(d, p, w, cmp, i + 1, j, k);
    }
  }

  predicate NoZeroOrMoreIn(p: string, w: Wildcards, lo: int, hi: int)
    requires 0 <= lo <= hi <= |p|
  {
    forall k :: lo <= k < hi ==> p[k] != w.zeroOrMore
  }

  /**
   * A stretch of `n` symbols without `zero_or_more` consumes exactly `n` data
   * characters, so a match from there needs that many.
   */
  lemma {:induction false} LiteralStretch(d: string, p: string, w: Wildcards, cmp: Compare, i: int, j: int, n: nat)
    requires 0 <= i && i + n <= |p| && 0 <= j <= |d| && NoZeroOrMoreIn(p, w, i, i + n)
    requires SuffixMatches(d, p, w, cmp, i, j)
    ensures j + n <= |d| && SuffixMatches(d, p, w, cmp, i + n, j + n)
    decreases n
  {
    if n > 0 {
      UnfoldSymbol(d, p, w, cmp, i, j);
      LiteralStretch(d, p, w, cmp, i + 1, j + 1, n - 1);
    }
  }

  // ---------------------------------------------------------------------------
  // The loop state of match_impl: cursors `pi` (p_itr) and `di` (d_itr), the
  // backtrack point `np` (np_itr) and `nd` (nd_itr), with -1 for the null
  // iterator.

  /**
   * What the loop keeps: with no backtrack point the answer is the match of the
   * two suffixes; right after a backtrack (`pi == np`) it is the match from the
   * remembered `zero_or_more` at the remembered data index; otherwise the
   * remembered `zero_or_more` is aligned at data index `nd - 1` and the cursors
   * have since walked a stretch without `zero_or_more`.
   */
  ghost predicate ScanState(d: string, p: string, w: Wildcards, cmp: Compare, pi: int, di: int, np: int, nd: int)
  {
    0 <= pi <= |p| && 0 <= di <= |d| && -1 <= np < |p| && nd <= |d| + 1 &&
    (np < 0 ==>
       nd == -1 && GlobMatches(d, p, w, cmp) == SuffixMatches(d, p, w, cmp, pi, di)) &&
    (np >= 0 ==>
       p[np] == w.zeroOrMore && np <= pi &&
       (pi == np ==>
          di == nd && GlobMatches(d, p, w, cmp) == SuffixMatches(d, p, w, cmp, np, nd)) &&
       (pi > np ==>
          (np + 1 == |p| || p[np + 1] != w.zeroOrMore) &&
          NoZeroOrMoreIn(p, w, np + 1, pi) && 1 <= nd && di - nd == pi - np - 2 &&
          GlobMatches(d, p, w, cmp) == SuffixMatches(d, p, w, cmp, np, nd - 1) &&
          SuffixMatches(d, p, w, cmp, np + 1, nd - 1) == SuffixMatches(d, p, w, cmp, pi, di)))
  }

  lemma ScanStateInitial(d: string, p: string, w: Wildcards, cmp: Compare)
    ensures ScanState(d, p, w, cmp, 0, 0, -1, -1)
  {
    assert d[0..] == d && p[0..] == p;
  }

  /** Lines 24-28: a symbol other than `zero_or_more` consumes an accepted character. */
  lemma ScanStateSymbol(d: string, p: string, w: Wildcards, cmp: Compare, pi: int, di: int, np: int, nd: int)
    requires ScanState(d, p, w, cmp, pi, di, np, nd)
    requires pi < |p| && di < |d| && p[pi] != w.zeroOrMore && Accepts(w, cmp, p[pi], d[di])
    ensures ScanState(d, p, w, cmp, pi + 1, di + 1, np, nd)
  {
    UnfoldSymbol(d, p, w, cmp, pi, di);
  }

  /**
   * Line 29: on reaching a `zero_or_more` the answer is the match from there,
   * and the data cursor has not fallen behind the remembered resumption point.
   */
  lemma ScanStateZeroOrMore(d: string, p: string, w: Wildcards, cmp: Compare, pi: int, di: int, np: int, nd: int)
    requires ScanState(d, p, w, cmp, pi, di, np, nd)
    requires pi < |p| && p[pi] == w.zeroOrMore
    ensures GlobMatches(d, p, w, cmp) == SuffixMatches(d, p, w, cmp, pi, di)
    ensures nd <= di
  {
    if np >= 0 && pi > np {
      var n := pi - np - 1;
      UnfoldZeroOrMore(d, p, w, cmp, np, nd - 1);
      if SuffixMatches(d, p, w, cmp, np, nd - 1) {
        var k := ZeroOrMoreResumes(d, p, w, cmp, np, nd - 1);
        LiteralStretch(d, p, w, cmp, np + 1, k, n);
        ZeroOrMoreMonotone(d, p, w, cmp, pi, di, k + n);
      }
    }
  }

  /** The symbol at pattern index `i`, or the end sentinel read at line 33. */
  datatype Symbol = Char(c: char) | PastEnd

  function Peek(p: string, i: int): (r: Symbol)
    requires 0 <= i
    ensures r.Char? <==> i < |p|
    ensures r.Char? ==> r.c == p[i]
  {
    if i < |p| then Char(p[i]) else PastEnd
  }

  /** The condition of line 35 before negation: the sentinel accepts nothing. */
  predicate Aligns(cmp: Compare, exactlyOne: char, s: Symbol, x: char): (r: bool)
    ensures s.PastEnd? ==> !r
    ensures s == Char(exactlyOne) ==> r
    ensures s.Char? && s.c != exactlyOne ==> (r <==> cmp(s.c, x))
  {
    s.Char? && (cmp(s.c, x) || exactlyOne == s.c)
  }

  /** Lines 30-32: the index just past the run of `zero_or_more` that starts at or after `i`. */
  function SkipRun(p: string, zeroOrMore: char, i: int): (r: int)
    requires 0 <= i <= |p|
    ensures i <= r <= |p| && (r == |p| || p[r] != zeroOrMore)
    ensures forall k :: i <= k < r ==> p[k] == zeroOrMore
    decreases |p| - i
  {
    if i < |p| && p[i] == zeroOrMore then SkipRun(p, zeroOrMore, i + 1) else i
  }

  /** Lines 34-37: the first data index from `j` on that the symbol `s` accepts, or the end. */
  function Align(cmp: Compare, exactlyOne: char, s: Symbol, d: string, j: int): (r: int)
    requires 0 <= j <= |d|
    ensures j <= r <= |d| && (r < |d| ==> Aligns(cmp, exactlyOne, s, d[r]))
    ensures forall k :: j <= k < r ==> !Aligns(cmp, exactlyOne, s, d[k])
    decreases |d| - j
  {
    if j < |d| && !Aligns(cmp, exactlyOne, s, d[j]) then Align(cmp, exactlyOne, s, d, j + 1) else j
  }

  /** Lines 34-37: a data index where the next symbol cannot start is skipped at no loss. */
  lemma ScanSkip(d: string, p: string, w: Wildcards, cmp: Compare, pi: int, di: int)
    requires 0 < pi <= |p| && 0 <= di < |d| && p[pi - 1] == w.zeroOrMore
    requires pi == |p| || p[pi] != w.zeroOrMore
    requires !Aligns(cmp, w.exactlyOne, Peek(p, pi), d[di])
    ensures SuffixMatches(d, p, w, cmp, pi - 1, di) == SuffixMatches(d, p, w, cmp, pi - 1, di + 1)
  {
    UnfoldZeroOrMore(d, p, w, cmp, pi - 1, di);
    if pi < |p| { UnfoldSymbol(d, p, w, cmp, pi, di); }
  }

  /** Lines 22-23 and 42-43: both cursors at their end. */
  lemma ScanStateBothEnds(d: string, p: string, w: Wildcards, cmp: Compare, np: int, nd: int)
    requires ScanState(d, p, w, cmp, |p|, |d|, np, nd)
    ensures GlobMatches(d, p, w, cmp)
  {
    if np >= 0 {
      UnfoldZeroOrMore(d, p, w, cmp, np, nd - 1);
    }
  }

  /**
   * Lines 44-47: after a failed symbol, or at pattern end with data left, the
   * match fails when the data is exhausted or no backtrack point exists, and
   * otherwise equals the match from the backtrack point.
   */
  lemma ScanStateMismatch(d: string, p: string, w: Wildcards, cmp: Compare, pi: int, di: int, np: int, nd: int)
    requires ScanState(d, p, w, cmp, pi, di, np, nd)
    requires (pi < |p| && p[pi] != w.zeroOrMore && !(di < |d| && Accepts(w, cmp, p[pi], d[di]))) ||
             (pi == |p| && di < |d|)
    ensures pi != np
    ensures di == |d| || np < 0 ==> !GlobMatches(d, p, w, cmp)
    ensures di < |d| && np >= 0 ==> ScanState(d, p, w, cmp, np, nd, np, nd)
  {
    if pi < |p| {
      UnfoldSymbol(d, p, w, cmp, pi, di);
    }
    if np >= 0 {
      UnfoldZeroOrMore(d, p, w, cmp, np, nd - 1);
      if di == |d| && nd <= |d| && SuffixMatches(d, p, w, cmp, np, nd) {
        var k := ZeroOrMoreResumes(d, p, w, cmp, np, nd);
        LiteralStretch(d, p, w, cmp, np + 1, k, pi - np);
      }
    }
  }

  /** Skipping a run of `zero_or_more` keeps the match, from the last symbol of the run. */
  lemma {:induction false} SkipRunKeepsMatch(d: string, p: string, w: Wildcards, cmp: Compare, i: int, j: int)
    requires 0 <= i < |p| && p[i] == w.zeroOrMore && 0 <= j <= |d|
    ensures SuffixMatches(d, p, w, cmp, i, j) == SuffixMatches(d, p, w, cmp, SkipRun(p, w.zeroOrMore, i) - 1, j)
    decreases |p| - i
  {
    if i + 1 < |p| && p[i + 1] == w.zeroOrMore {
      ZeroOrMorePair(d, p, w, cmp, i, j);
      SkipRunKeepsMatch(d, p, w, cmp, i + 1, j);
    }
  }

  /** Aligning the data cursor after a run of `zero_or_more` keeps the match. */
  lemma {:induction false} AlignKeepsMatch(d: string, p: string, w: Wildcards, cmp: Compare, i: int, j: int)
    requires 0 < i <= |p| && p[i - 1] == w.zeroOrMore && (i == |p| || p[i] != w.zeroOrMore)
    requires 0 <= j <= |d|
    ensures SuffixMatches(d, p, w, cmp, i - 1, j) ==
            SuffixMatches(d, p, w, cmp, i - 1, Align(cmp, w.exactlyOne, Peek(p, i), d, j))
    decreases |d| - j
  {
    if j < |d| && !Aligns(cmp, w.exactlyOne, Peek(p, i), d[j]) {
      ScanSkip(d, p, w, cmp, i, j);
      AlignKeepsMatch(d, p, w, cmp, i, j + 1);
    }
  }

  /** Lines 29-39: entering a run of `zero_or_more` sets a backtrack point that keeps the loop invariant. */
  lemma ScanStateEnter(d: string, p: string, w: Wildcards, cmp: Compare, pi: int, di: int, np: int, nd: int)
    requires ScanState(d, p, w, cmp, pi, di, np, nd)
    requires pi < |p| && p[pi] == w.zeroOrMore
    ensures var pi' := SkipRun(p, w.zeroOrMore, pi);
            var di' := Align(cmp, w.exactlyOne, Peek(p, pi'), d, di);
            ScanState(d, p, w, cmp, pi', di', pi' - 1, di' + 1)
  {
    var pi' := SkipRun(p, w.zeroOrMore, pi);
    var di' := Align(cmp, w.exactlyOne, Peek(p, pi'), d, di);
    ScanStateZeroOrMore(d, p, w, cmp, pi, di, np, nd);
    SkipRunKeepsMatch(d, p, w, cmp, pi, di);
    AlignKeepsMatch(d, p, w, cmp, pi', di);
    assert GlobMatches(d, p, w, cmp) == SuffixMatches(d, p, w, cmp, pi' - 1, di');
  }

  /**
   * Lines 30-37: skip the run of `zero_or_more` that starts at `pi0`, then move
   * the data cursor to the first character the symbol after the run accepts
   * (to the end of the data when the run ends the pattern). No data index
   * passed over could have started a match of the rest of the pattern.
   */
  method EnterZeroOrMore(cmp: Compare, pattern: string, data: string, zeroOrMore: char, exactlyOne: char,
                         pi0: int, di0: int)
    returns (pi: int, di: int)
    requires 0 <= pi0 < |pattern| && pattern[pi0] == zeroOrMore && 0 <= di0 <= |data|
    ensures pi == SkipRun(pattern, zeroOrMore, pi0) && pi0 < pi
    ensures di == Align(cmp, exactlyOne, Peek(pattern, pi), data, di0)
    ensures SuffixMatches(data, pattern, Wildcards(zeroOrMore, exactlyOne), cmp, pi0, di0) ==
            SuffixMatches(data, pattern, Wildcards(zeroOrMore, exactlyOne), cmp, pi - 1, di)
  {
    ghost var w := Wildcards(zeroOrMore, exactlyOne);
    pi, di := pi0, di0;
    while pi < |pattern| && zeroOrMore == pattern[pi]
      invariant pi0 <= pi <= |pattern|
      invariant SkipRun(pattern, zeroOrMore, pi) == SkipRun(pattern, zeroOrMore, pi0)
      invariant pi > pi0 ==>
        SuffixMatches(data, pattern, w, cmp, pi0, di0) == SuffixMatches(data, pattern, w, cmp, pi - 1, di0)
    {
      if pi > pi0 { ZeroOrMorePair(data, pattern, w, cmp, pi - 1, di0); }
      pi := pi + 1;
    }
    var s := Peek(pattern, pi);
    while di < |data| && !Aligns(cmp, exactlyOne, s, data[di])
      invariant di0 <= di <= |data|
      invariant Align(cmp, exactlyOne, s, data, di) == Align(cmp, exactlyOne, s, data, di0)
      invariant SuffixMatches(data, pattern, w, cmp, pi0, di0) == SuffixMatches(data, pattern, w, cmp, pi - 1, di)
    {
      ScanSkip(data, pattern, w, cmp, pi, di);
      di := di + 1;
    }
  }

  // ---------------------------------------------------------------------------
  // The body of the `for (;;)` loop, one pass at a time, for all inputs.

  /** `p_itr`, `d_itr`, `np_itr`, `nd_itr` as indices, -1 for the null iterator. */
  datatype Cursors = Cursors(pi: int, di: int, np: int, nd: int)

  datatype Outcome = Running(at: Cursors) | Returned(result: bool)

  /** The cursor values the loop can hold: the backtrack pair is set together and `nd <= di + 1`. */
  predicate WellFormed(pattern: string, data: string, c: Cursors)
  {
    0 <= c.pi <= |pattern| && 0 <= c.di <= |data| &&
    (c.np == -1 <==> c.nd == -1) &&
    (c.np != -1 ==> 0 <= c.np < |pattern| && 1 <= c.nd <= c.di + 1)
  }

  const Initial := Cursors(0, 0, -1, -1)

  /** One pass through the body of the `for (;;)` loop, lines 22-47, with no precondition on the data. */
  function Step(cmp: Compare, pattern: string, data: string, zeroOrMore: char, exactlyOne: char, c: Cursors)
    : (r: Outcome)
    requires WellFormed(pattern, data, c)
    ensures r.Running? ==> WellFormed(pattern, data, r.at)
  {
    if c.pi < |pattern| && c.di < |data| &&
       (cmp(pattern[c.pi], data[c.di]) || exactlyOne == pattern[c.pi]) then
      Running(Cursors(c.pi + 1, c.di + 1, c.np, c.nd))
    else if c.pi < |pattern| && zeroOrMore == pattern[c.pi] then
      var pi := SkipRun(pattern, zeroOrMore, c.pi);
      var di := Align(cmp, exactlyOne, Peek(pattern, pi), data, c.di);
      Running(Cursors(pi, di, pi - 1, di + 1))
    else if c.pi == |pattern| && c.di == |data| then
      Returned(true)
    else if c.di == |data| || c.nd == -1 then
      Returned(false)
    else
      Running(Cursors(c.np, c.nd, c.np, c.nd))
  }

  /** Lines 24-28: an accepted character advances both cursors. */
  lemma StepOnSymbol(cmp: Compare, pattern: string, data: string, zeroOrMore: char, exactlyOne: char, c: Cursors)
    requires WellFormed(pattern, data, c)
    requires c.pi < |pattern| && c.di < |data| && (cmp(pattern[c.pi], data[c.di]) || exactlyOne == pattern[c.pi])
    ensures Step(cmp, pattern, data, zeroOrMore, exactlyOne, c) == Running(Cursors(c.pi + 1, c.di + 1, c.np, c.nd))
  {
  }

  /** Lines 29-39: a `zero_or_more` not taken as a literal enters the run and sets the backtrack point. */
  lemma StepOnZeroOrMore(cmp: Compare, pattern: string, data: string, zeroOrMore: char, exactlyOne: char, c: Cursors)
    requires WellFormed(pattern, data, c)
    requires c.pi < |pattern| && !(c.di < |data| && (cmp(pattern[c.pi], data[c.di]) || exactlyOne == pattern[c.pi]))
    requires zeroOrMore == pattern[c.pi]
    ensures var pi := SkipRun(pattern, zeroOrMore, c.pi);
            var di := Align(cmp, exactlyOne, Peek(pattern, pi), data, c.di);
            Step(cmp, pattern, data, zeroOrMore, exactlyOne, c) == Running(Cursors(pi, di, pi - 1, di + 1))
  {
  }

  /**
   * Lines 42-47, reached when the symbol failed or the pattern is exhausted:
   * true at both ends, false with the data exhausted or no backtrack point,
   * otherwise back to the backtrack point.
   */
  lemma StepOnMismatch(cmp: Compare, pattern: string, data: string, zeroOrMore: char, exactlyOne: char, c: Cursors)
    requires WellFormed(pattern, data, c)
    requires c.pi < |pattern| ==>
      !(c.di < |data| && (cmp(pattern[c.pi], data[c.di]) || exactlyOne == pattern[c.pi])) && zeroOrMore != pattern[c.pi]
    ensures Step(cmp, pattern, data, zeroOrMore, exactlyOne, c) ==
      if c.pi == |pattern| && c.di == |data| then Returned(true)
      else if c.di == |data| || c.nd == -1 then Returned(false)
      else Running(Cursors(c.np, c.nd, c.np, c.nd))
  {
  }

  /** The state after `k` passes (or the returned value, if the loop returned first). */
  function Iterate(cmp: Compare, pattern: string, data: string, zeroOrMore: char, exactlyOne: char,
                   c: Cursors, k: nat): (r: Outcome)
    requires WellFormed(pattern, data, c)
    ensures r.Running? ==> WellFormed(pattern, data, r.at)
    decreases k
  {
    if k == 0 then Running(c)
    else match Step(cmp, pattern, data, zeroOrMore, exactlyOne, c)
      case Returned(b) => Returned(b)
      case Running(next) => Iterate(cmp, pattern, data, zeroOrMore, exactlyOne, next, k - 1)
  }

  /** One more pass after `k` passes that have not returned is one more `Step`. */
  lemma {:induction false} IterateOneMore(cmp: Compare, pattern: string, data: string, zeroOrMore: char, exactlyOne: char,
                                          c: Cursors, k: nat)
    requires WellFormed(pattern, data, c)
    requires Iterate(cmp, pattern, data, zeroOrMore, exactlyOne, c, k).Running?
    ensures Iterate(cmp, pattern, data, zeroOrMore, exactlyOne, c, k + 1) ==
            Step(cmp, pattern, data, zeroOrMore, exactlyOne, Iterate(cmp, pattern, data, zeroOrMore, exactlyOne, c, k).at)
    decreases k
  {
    if k > 0 {
      var next := Step(cmp, pattern, data, zeroOrMore, exactlyOne, c).at;
      IterateOneMore(cmp, pattern, data, zeroOrMore, exactlyOne, next, k - 1);
    }
  }

  /** A pass from cursors reached after `k` passes gives the outcome after `k + 1`. */
  lemma IterateAdvance(cmp: Compare, pattern: string, data: string, zeroOrMore: char, exactlyOne: char,
                       k: nat, before: Cursors, after: Outcome)
    requires WellFormed(pattern, data, before)
    requires Iterate(cmp, pattern, data, zeroOrMore, exactlyOne, Initial, k) == Running(before)
    requires Step(cmp, pattern, data, zeroOrMore, exactlyOne, before) == after
    ensures Iterate(cmp, pattern, data, zeroOrMore, exactlyOne, Initial, k + 1) == after
  {
    IterateOneMore(cmp, pattern, data, zeroOrMore, exactlyOne, Initial, k);
  }

  /**
   * Where the data has no character related to `zero_or_more` and the symbols
   * differ, one pass keeps the loop state of `MatchImpl`, and a returned value
   * is the reference answer.
   */
  lemma StepKeepsScanState(cmp: Compare, pattern: string, data: string, zeroOrMore: char, exactlyOne: char,
                           c: Cursors)
    requires zeroOrMore != exactlyOne
    requires forall k :: 0 <= k < |data| ==> !cmp(zeroOrMore, data[k])
    requires WellFormed(pattern, data, c)
    requires ScanState(data, pattern, Wildcards(zeroOrMore, exactlyOne), cmp, c.pi, c.di, c.np, c.nd)
    ensures var r := Step(cmp, pattern, data, zeroOrMore, exactlyOne, c);
      (r.Running? ==> ScanState(data, pattern, Wildcards(zeroOrMore, exactlyOne), cmp, r.at.pi, r.at.di, r.at.np, r.at.nd)) &&
      (r.Returned? ==> r.result == GlobMatches(data, pattern, Wildcards(zeroOrMore, exactlyOne), cmp))
  {
    if c.pi < |pattern| && c.di < |data| &&
       (cmp(pattern[c.pi], data[c.di]) || exactlyOne == pattern[c.pi]) {
      SymbolPass(cmp, pattern, data, zeroOrMore, exactlyOne, c);
    } else if c.pi < |pattern| && zeroOrMore == pattern[c.pi] {
      EnterPass(cmp, pattern, data, zeroOrMore, exactlyOne, c);
    } else {
      MismatchPass(cmp, pattern, data, zeroOrMore, exactlyOne, c);
    }
  }

  /** The pass of lines 24-28 keeps the loop state. */
  lemma SymbolPass(cmp: Compare, pattern: string, data: string, zeroOrMore: char, exactlyOne: char, c: Cursors)
    requires zeroOrMore != exactlyOne
    requires forall k :: 0 <= k < |data| ==> !cmp(zeroOrMore, data[k])
    requires WellFormed(pattern, data, c)
    requires ScanState(data, pattern, Wildcards(zeroOrMore, exactlyOne), cmp, c.pi, c.di, c.np, c.nd)
    requires c.pi < |pattern| && c.di < |data| && (cmp(pattern[c.pi], data[c.di]) || exactlyOne == pattern[c.pi])
    ensures var r := Step(cmp, pattern, data, zeroOrMore, exactlyOne, c);
      r.Running? && ScanState(data, pattern, Wildcards(zeroOrMore, exactlyOne), cmp, r.at.pi, r.at.di, r.at.np, r.at.nd)
  {
    StepOnSymbol(cmp, pattern, data, zeroOrMore, exactlyOne, c);
    ScanStateSymbol(data, pattern, Wildcards(zeroOrMore, exactlyOne), cmp, c.pi, c.di, c.np, c.nd);
  }

  /** The pass of lines 29-39 keeps the loop state. */
  lemma EnterPass(cmp: Compare, pattern: string, data: string, zeroOrMore: char, exactlyOne: char, c: Cursors)
    requires WellFormed(pattern, data, c)
    requires ScanState(data, pattern, Wildcards(zeroOrMore, exactlyOne), cmp, c.pi, c.di, c.np, c.nd)
    requires c.pi < |pattern| && !(c.di < |data| && (cmp(pattern[c.pi], data[c.di]) || exactlyOne == pattern[c.pi]))
    requires zeroOrMore == pattern[c.pi]
    ensures var r := Step(cmp, pattern, data, zeroOrMore, exactlyOne, c);
      r.Running? && ScanState(data, pattern, Wildcards(zeroOrMore, exactlyOne), cmp, r.at.pi, r.at.di, r.at.np, r.at.nd)
  {
    StepOnZeroOrMore(cmp, pattern, data, zeroOrMore, exactlyOne, c);
    ScanStateEnter(data, pattern, Wildcards(zeroOrMore, exactlyOne), cmp, c.pi, c.di, c.np, c.nd);
  }

  /** The pass of lines 42-47 returns the reference answer or keeps the loop state. */
  lemma MismatchPass(cmp: Compare, pattern: string, data: string, zeroOrMore: char, exactlyOne: char, c: Cursors)
    requires WellFormed(pattern, data, c)
    requires ScanState(data, pattern, Wildcards(zeroOrMore, exactlyOne), cmp, c.pi, c.di, c.np, c.nd)
    requires c.pi < |pattern| ==>
      !(c.di < |data| && (cmp(pattern[c.pi], data[c.di]) || exactlyOne == pattern[c.pi])) && zeroOrMore != pattern[c.pi]
    ensures var r := Step(cmp, pattern, data, zeroOrMore, exactlyOne, c);
      (r.Running? ==> ScanState(data, pattern, Wildcards(zeroOrMore, exactlyOne), cmp, r.at.pi, r.at.di, r.at.np, r.at.nd)) &&
      (r.Returned? ==> r.result == GlobMatches(data, pattern, Wildcards(zeroOrMore, exactlyOne), cmp))
  {
    var w := Wildcards(zeroOrMore, exactlyOne);
    StepOnMismatch(cmp, pattern, data, zeroOrMore, exactlyOne, c);
    if c.pi == |pattern| && c.di == |data| {
      ScanStateBothEnds(data, pattern, w, cmp, c.np, c.nd);
    } else {
      ScanStateMismatch(data, pattern, w, cmp, c.pi, c.di, c.np, c.nd);
    }
  }

  // ---------------------------------------------------------------------------

  /** The second component of the loop's termination measure. */
  function Rank(pattern: string, c: Cursors): int
  {
    if c.pi == c.np then 0 else 1 + |pattern| - c.pi
  }

  /**
   * Where `zero_or_more` relates to no data character and the symbols differ,
   * a pass that does not return moves the retry index `nd` forward, or keeps it
   * and lowers `Rank`.
   */
  lemma StepProgress(cmp: Compare, pattern: string, data: string, zeroOrMore: char, exactlyOne: char, c: Cursors)
    requires zeroOrMore != exactlyOne
    requires forall k :: 0 <= k < |data| ==> !cmp(zeroOrMore, data[k])
    requires WellFormed(pattern, data, c)
    requires ScanState(data, pattern, Wildcards(zeroOrMore, exactlyOne), cmp, c.pi, c.di, c.np, c.nd)
    ensures var r := Step(cmp, pattern, data, zeroOrMore, exactlyOne, c);
      r.Running? ==> c.nd < r.at.nd || (c.nd == r.at.nd && 0 <= Rank(pattern, r.at) < Rank(pattern, c))
  {
    var w := Wildcards(zeroOrMore, exactlyOne);
    if c.pi < |pattern| && c.di < |data| &&
       (cmp(pattern[c.pi], data[c.di]) || exactlyOne == pattern[c.pi]) {
      StepOnSymbol(cmp, pattern, data, zeroOrMore, exactlyOne, c);
    } else if c.pi < |pattern| && zeroOrMore == pattern[c.pi] {
      StepOnZeroOrMore(cmp, pattern, data, zeroOrMore, exactlyOne, c);
      ScanStateZeroOrMore(data, pattern, w, cmp, c.pi, c.di, c.np, c.nd);
    } else {
      StepOnMismatch(cmp, pattern, data, zeroOrMore, exactlyOne, c);
    }
  }

  /** One pass through the body of the `for (;;)` loop, lines 22-47. */
  method Pass(cmp: Compare, pattern: string, data: string, zeroOrMore: char, exactlyOne: char, c: Cursors)
    returns (o: Outcome)
    requires WellFormed(pattern, data, c)
    ensures o == Step(cmp, pattern, data, zeroOrMore, exactlyOne, c)
  {
    var pi, di, np, nd := c.pi, c.di, c.np, c.nd;
    if pi < |pattern| {
      var ch := pattern[pi];
      if di < |data| && (cmp(ch, data[di]) || exactlyOne == ch) {
        di := di + 1;
        pi := pi + 1;
        return Running(Cursors(pi, di, np, nd));
      } else if zeroOrMore == ch {
        pi, di := EnterZeroOrMore(cmp, pattern, data, zeroOrMore, exactlyOne, pi, di);
        np := pi - 1;
        nd := di + 1;
        return Running(Cursors(pi, di, np, nd));
      }
    } else if di == |data| {
      return Returned(true);
    }
    if di == |data| || nd == -1 {
      return Returned(false);
    }
    pi := np;
    di := nd;
    return Running(Cursors(pi, di, np, nd));
  }

  /**
   * `match_impl`: whether all of `data` matches all of `pattern`, by two
   * cursors and one remembered backtrack point, as the `for (;;)` loop of
   * lines 21-48 running `Pass` until it returns. The loop as written compares a
   * pattern `zero_or_more` as a literal first, so it is only correct (and only
   * terminates) when no data character is related to `zero_or_more` by the
   * policy and the two wildcard symbols differ. `passes` counts the passes:
   * the result is what `Step`, repeated that often from the initial cursors,
   * returns.
   */
  method MatchImpl(cmp: Compare, pattern: string, data: string, zeroOrMore: char, exactlyOne: char)
    returns (r: bool, ghost passes: nat)
    requires zeroOrMore != exactlyOne
    requires forall k :: 0 <= k < |data| ==> !cmp(zeroOrMore, data[k])
    ensures r == GlobMatches(data, pattern, Wildcards(zeroOrMore, exactlyOne), cmp)
    ensures Iterate(cmp, pattern, data, zeroOrMore, exactlyOne, Initial, passes) == Returned(r)
  {
    var c := Initial;
    passes := 0;
    ScanStateInitial(data, pattern, Wildcards(zeroOrMore, exactlyOne), cmp);
    while true
      invariant WellFormed(pattern, data, c)
      invariant ScanState(data, pattern, Wildcards(zeroOrMore, exactlyOne), cmp, c.pi, c.di, c.np, c.nd)
      invariant Iterate(cmp, pattern, data, zeroOrMore, exactlyOne, Initial, passes) == Running(c)
      decreases |data| + 1 - c.nd, Rank(pattern, c)
    {
      StepKeepsScanState(cmp, pattern, data, zeroOrMore, exactlyOne, c);
      StepProgress(cmp, pattern, data, zeroOrMore, exactlyOne, c);
      var o := Pass(cmp, pattern, data, zeroOrMore, exactlyOne, c);
      IterateAdvance(cmp, pattern, data, zeroOrMore, exactlyOne, passes, c, o);
      passes := passes + 1;
      match o {
        case Returned(b) => return b, passes;
        case Running(next) => c := next;
      }
    }
  }

  /**
   * The loop with the `zero_or_more` test ahead of the literal comparison:
   * correct and terminating for every pattern and data string.
   */
  method MatchImplStarFirst(cmp: Compare, pattern: string, data: string, zeroOrMore: char, exactlyOne: char)
    returns (r: bool)
    ensures r == GlobMatches(data, pattern, Wildcards(zeroOrMore, exactlyOne), cmp)
  {
    ghost var w := Wildcards(zeroOrMore, exactlyOne);
    var pi, di := 0, 0;
    var np, nd := -1, -1;
    ScanStateInitial(data, pattern, w, cmp);
    while true
      invariant ScanState(data, pattern, w, cmp, pi, di, np, nd)
      decreases |data| + 1 - nd, if pi == np then 0 else 1 + |pattern| - pi
    {
      if pi < |pattern| {
        var c := pattern[pi];
        if zeroOrMore == c {
          ScanStateZeroOrMore(data, pattern, w, cmp, pi, di, np, nd);
          pi, di := EnterZeroOrMore(cmp, pattern, data, zeroOrMore, exactlyOne, pi, di);
          np := pi - 1;
          nd := di + 1;
          continue;
        } else if di < |data| && (cmp(c, data[di]) || exactlyOne == c) {
          ScanStateSymbol(data, pattern, w, cmp, pi, di, np, nd);
          di := di + 1;
          pi := pi + 1;
          continue;
        }
      } else if di == |data| {
        ScanStateBothEnds(data, pattern, w, cmp, np, nd);
        return true;
      }
      ScanStateMismatch(data, pattern, w, cmp, pi, di, np, nd);
      if di == |data| || nd == -1 {
        return false;
      }
      pi := np;
      di := nd;
    }
  }
}
