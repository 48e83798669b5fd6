/**
 * Reference semantics of the wildcard patterns understood by the glob matcher:
 * a literal accepts one data character the comparison policy relates it to,
 * `exactly_one` accepts any one data character and `zero_or_more` accepts any
 * run of data characters, the whole pattern against the whole data string.
 */
module GlobSpec {

  /** The two wildcard symbols of a pattern. */
  datatype Wildcards = Wildcards(zeroOrMore: char, exactlyOne: char)

  /** A character-comparison policy: pattern character first, data character second. */
  type Compare = (char, char) -> bool

  /** A pattern symbol other than `zero_or_more` accepts the data character `x`. */
  predicate Accepts(w: Wildcards, cmp: Compare, c: char, x: char)
  {
    cmp(c, x) || c == w.exactlyOne
  }

  /** The whole of `data` matches the whole of `pat`. */
  predicate GlobMatches(data: string, pat: string, w: Wildcards, cmp: Compare)
    decreases |pat|, |data|
  {
    if pat == [] then
      data == []
    else if pat[0] == w.zeroOrMore then
      GlobMatches(data, pat[1..], w, cmp) || (data != [] && GlobMatches(data[1..], pat, w, cmp))
    else
      data != [] && Accepts(w, cmp, pat[0], data[0]) && GlobMatches(data[1..], pat[1..], w, cmp)
  }

  predicate NoZeroOrMore(pat: string, w: Wildcards)
  {
    forall k :: 0 <= k < |pat| ==> pat[k] != w.zeroOrMore
  }

  predicate NoExactlyOne(pat: string, w: Wildcards)
  {
    forall k :: 0 <= k < |pat| ==> pat[k] != w.exactlyOne
  }

  predicate AllZeroOrMore(pat: string, w: Wildcards)
  {
    forall k :: 0 <= k < |pat| ==> pat[k] == w.zeroOrMore
  }

  /** The empty pattern matches the empty data string and nothing else. */
  lemma EmptyPatternMatchesOnlyEmpty(data: string, w: Wildcards, cmp: Compare)
    ensures GlobMatches(data, [], w, cmp) <==> data == []
  {
  }

  /** Exhausted data matches exactly the patterns made only of `zero_or_more`. */
  lemma {:induction false} EmptyDataMatches(pat: string, w: Wildcards, cmp: Compare)
    ensures GlobMatches([], pat, w, cmp) <==> AllZeroOrMore(pat, w)
  {
    if pat != [] {
      EmptyDataMatches(pat[1..], w, cmp);
      if pat[0] == w.zeroOrMore && AllZeroOrMore(pat[1..], w) {
        forall k | 0 <= k < |pat| ensures pat[k] == w.zeroOrMore {
          if k > 0 { assert pat[k] == pat[1..][k - 1]; }
        }
      }
    }
  }

  /**
   * Without `zero_or_more`, a pattern matches exactly the data strings of its
   * own length whose every character its symbol at the same position accepts.
   */
  lemma {:induction false} NoZeroOrMoreMatches(data: string, pat: string, w: Wildcards, cmp: Compare)
    requires NoZeroOrMore(pat, w)
    ensures GlobMatches(data, pat, w, cmp) <==>
      |data| == |pat| && forall k :: 0 <= k < |pat| ==> Accepts(w, cmp, pat[k], data[k])
  {
    if pat != [] && data != [] {
      assert pat[0] != w.zeroOrMore;
      assert NoZeroOrMore(pat[1..], w) by {
        forall k | 0 <= k < |pat[1..]| ensures pat[1..][k] != w.zeroOrMore {
          assert pat[1..][k] == pat[k + 1];
        }
      }
      NoZeroOrMoreMatches(data[1..], pat[1..], w, cmp);
      if |data| == |pat| && Accepts(w, cmp, pat[0], data[0]) &&
         (forall k :: 0 <= k < |pat[1..]| ==> Accepts(w, cmp, pat[1..][k], data[1..][k])) {
        forall k | 0 <= k < |pat| ensures Accepts(w, cmp, pat[k], data[k]) {
          if k > 0 { assert pat[1..][k - 1] == pat[k] && data[1..][k - 1] == data[k]; }
        }
      }
      if |data| == |pat| && (forall k :: 0 <= k < |pat| ==> Accepts(w, cmp, pat[k], data[k])) {
        assert Accepts(w, cmp, pat[0], data[0]);
        forall k | 0 <= k < |pat[1..]| ensures Accepts(w, cmp, pat[1..][k], data[1..][k]) {
          assert pat[1..][k] == pat[k + 1] && data[1..][k] == data[k + 1];
        }
      }
    }
  }

  /**
   * A pattern with neither wildcard matches exactly the data strings of its
   * length related to it character by character by the comparison policy.
   */
  lemma LiteralPatternMatches(data: string, pat: string, w: Wildcards, cmp: Compare)
    requires NoZeroOrMore(pat, w) && NoExactlyOne(pat, w)
    ensures GlobMatches(data, pat, w, cmp) <==>
      |data| == |pat| && forall k :: 0 <= k < |pat| ==> cmp(pat[k], data[k])
  {
    NoZeroOrMoreMatches(data, pat, w, cmp);
  }

  /** A non-empty run of `zero_or_more` matches every data string. */
  lemma {:induction false} ZeroOrMoreRunMatchesAll(data: string, run: string, w: Wildcards, cmp: Compare)
    requires run != [] && AllZeroOrMore(run, w)
    ensures GlobMatches(data, run, w, cmp)
    decreases |data|
  {
    assert run[0] == w.zeroOrMore;
    if data == [] {
      EmptyDataMatches(run, w, cmp);
    } else {
      ZeroOrMoreRunMatchesAll(data[1..], run, w, cmp);
    }
  }

  /** Matching pieces concatenate to a match of the concatenation. */
  lemma {:induction false} ConcatMatches(d1: string, p1: string, d2: string, p2: string, w: Wildcards, cmp: Compare)
    requires GlobMatches(d1, p1, w, cmp) && GlobMatches(d2, p2, w, cmp)
    ensures GlobMatches(d1 + d2, p1 + p2, w, cmp)
    decreases |p1|, |d1|
  {
    if p1 == [] {
      assert d1 + d2 == d2 && p1 + p2 == p2;
    } else {
      assert (p1 + p2)[0] == p1[0] && (p1 + p2)[1..] == p1[1..] + p2;
      if p1[0] == w.zeroOrMore && GlobMatches(d1, p1[1..], w, cmp) {
        ConcatMatches(d1, p1[1..], d2, p2, w, cmp);
      } else {
        assert (d1 + d2)[0] == d1[0] && (d1 + d2)[1..] == d1[1..] + d2;
        if p1[0] == w.zeroOrMore {
          ConcatMatches(d1[1..], p1, d2, p2, w, cmp);
        } else {
          ConcatMatches(d1[1..], p1[1..], d2, p2, w, cmp);
        }
      }
    }
  }

  /** A match of a concatenated pattern splits the data between the two parts. */
  lemma {:induction false} SplitMatches(data: string, p1: string, p2: string, w: Wildcards, cmp: Compare)
    returns (k: nat)
    requires GlobMatches(data, p1 + p2, w, cmp)
    ensures k <= |data| && GlobMatches(data[..k], p1, w, cmp) && GlobMatches(data[k..], p2, w, cmp)
    decreases |p1|, |data|
  {
    if p1 == [] {
      assert p1 + p2 == p2 && data[0..] == data;
      k := 0;
    } else {
      assert (p1 + p2)[0] == p1[0] && (p1 + p2)[1..] == p1[1..] + p2;
      if p1[0] == w.zeroOrMore && GlobMatches(data, p1[1..] + p2, w, cmp) {
        k := SplitMatches(data, p1[1..], p2, w, cmp);
      } else {
        var k';
        if p1[0] == w.zeroOrMore {
          k' := SplitMatches(data[1..], p1, p2, w, cmp);
        } else {
          k' := SplitMatches(data[1..], p1[1..], p2, w, cmp);
        }
        k := k' + 1;
        assert data[..k][0] == data[0] && data[..k][1..] == data[1..][..k'];
        assert data[k..] == data[1..][k'..];
      }
    }
  }

  /** A pattern `p1 + p2` matches iff the data splits into a match of `p1` followed by a match of `p2`. */
  lemma ConcatPatternMatches(data: string, p1: string, p2: string, w: Wildcards, cmp: Compare)
    ensures GlobMatches(data, p1 + p2, w, cmp) <==>
      exists k :: 0 <= k <= |data| && GlobMatches(data[..k], p1, w, cmp) && GlobMatches(data[k..], p2, w, cmp)
  {
    if GlobMatches(data, p1 + p2, w, cmp) {
      var k := SplitMatches(data, p1, p2, w, cmp);
    }
    if k :| 0 <= k <= |data| && GlobMatches(data[..k], p1, w, cmp) && GlobMatches(data[k..], p2, w, cmp) {
      ConcatMatches(data[..k], p1, data[k..], p2, w, cmp);
      assert data[..k] + data[k..] == data;
    }
  }

  /**
   * A pattern ending in a run of `zero_or_more` matches exactly the data
   * strings some prefix of which matches the part before the run.
   */
  lemma TrailingZeroOrMoreMatches(data: string, front: string, run: string, w: Wildcards, cmp: Compare)
    requires run != [] && AllZeroOrMore(run, w)
    ensures GlobMatches(data, front + run, w, cmp) <==>
      exists k :: 0 <= k <= |data| && GlobMatches(data[..k], front, w, cmp)
  {
    if GlobMatches(data, front + run, w, cmp) {
      var k := SplitMatches(data, front, run, w, cmp);
    }
    if k :| 0 <= k <= |data| && GlobMatches(data[..k], front, w, cmp) {
      ZeroOrMoreRunMatchesAll(data[k..], run, w, cmp);
      ConcatMatches(data[..k], front, data[k..], run, w, cmp);
      assert data[..k] + data[k..] == data;
    }
  }

  lemma {:induction false} DoubledZeroOrMoreHead(data: string, rest: string, w: Wildcards, cmp: Compare)
    ensures GlobMatches(data, [w.zeroOrMore, w.zeroOrMore] + rest, w, cmp) ==
            GlobMatches(data, [w.zeroOrMore] + rest, w, cmp)
    decreases |data|
  {
    var two, one := [w.zeroOrMore, w.zeroOrMore] + rest, [w.zeroOrMore] + rest;
    assert two[0] == w.zeroOrMore && two[1..] == one;
    assert one[0] == w.zeroOrMore;
    if data != [] {
      DoubledZeroOrMoreHead(data[1..], rest, w, cmp);
    }
  }

  /** Two adjacent `zero_or_more` symbols match exactly what one does. */
  lemma ZeroOrMorePairCollapses(data: string, front: string, back: string, w: Wildcards, cmp: Compare)
    ensures GlobMatches(data, front + [w.zeroOrMore, w.zeroOrMore] + back, w, cmp) ==
            GlobMatches(data, front + [w.zeroOrMore] + back, w, cmp)
  {
    var two, one := [w.zeroOrMore, w.zeroOrMore] + back, [w.zeroOrMore] + back;
    assert front + [w.zeroOrMore, w.zeroOrMore] + back == front + two;
    assert front + [w.zeroOrMore] + back == front + one;
    if GlobMatches(data, front + two, w, cmp) {
      var k := SplitMatches(data, front, two, w, cmp);
      DoubledZeroOrMoreHead(data[k..], back, w, cmp);
      ConcatMatches(data[..k], front, data[k..], one, w, cmp);
      assert data[..k] + data[k..] == data;
    }
    if GlobMatches(data, front + one, w, cmp) {
      var k := SplitMatches(data, front, one, w, cmp);
      DoubledZeroOrMoreHead(data[k..], back, w, cmp);
      ConcatMatches(data[..k], front, data[k..], two, w, cmp);
      assert data[..k] + data[k..] == data;
    }
  }

  // An independent formulation: the data is cut into one piece per pattern symbol.

  function Concat(pieces: seq<string>): string
  {
    if pieces == [] then [] else pieces[0] + Concat(pieces[1..])
  }

  /** The piece of data assigned to the pattern symbol `c` is one it may consume. */
  predicate PieceFits(w: Wildcards, cmp: Compare, c: char, piece: string)
  {
    c == w.zeroOrMore || (|piece| == 1 && Accepts(w, cmp, c, piece[0]))
  }

  /**
   * `pieces` cuts `data` so that each `zero_or_more` takes any run, each other
   * symbol exactly one character it accepts.
   */
  predicate IsSplit(data: string, pat: string, pieces: seq<string>, w: Wildcards, cmp: Compare)
  {
    |pieces| == |pat| && Concat(pieces) == data &&
    forall k :: 0 <= k < |pat| ==> PieceFits(w, cmp, pat[k], pieces[k])
  }

  lemma {:induction false} SplitSound(data: string, pat: string, pieces: seq<string>, w: Wildcards, cmp: Compare)
    requires IsSplit(data, pat, pieces, w, cmp)
    ensures GlobMatches(data, pat, w, cmp)
    decreases |pat|
  {
    if pat != [] {
      var rest := Concat(pieces[1..]);
      assert IsSplit(rest, pat[1..], pieces[1..], w, cmp) by {
        forall k | 0 <= k < |pat[1..]| ensures PieceFits(w, cmp, pat[1..][k], pieces[1..][k]) {
          assert PieceFits(w, cmp, pat[k + 1], pieces[k + 1]);
        }
      }
      SplitSound(rest, pat[1..], pieces[1..], w, cmp);
      assert PieceFits(w, cmp, pat[0], pieces[0]);
      assert [pat[0]] + pat[1..] == pat;
      if pat[0] == w.zeroOrMore {
        ZeroOrMoreRunMatchesAll(pieces[0], [pat[0]], w, cmp);
      } else {
        assert GlobMatches(pieces[0], [pat[0]], w, cmp) by {
          assert [pat[0]][1..] == [] && pieces[0][1..] == [];
        }
      }
      ConcatMatches(pieces[0], [pat[0]], rest, pat[1..], w, cmp);
    }
  }

  lemma {:induction false} SplitComplete(data: string, pat: string, w: Wildcards, cmp: Compare)
    returns (pieces: seq<string>)
    requires GlobMatches(data, pat, w, cmp)
    ensures IsSplit(data, pat, pieces, w, cmp)
    decreases |pat|, |data|
  {
    if pat == [] {
      pieces := [];
    } else if pat[0] == w.zeroOrMore && GlobMatches(data, pat[1..], w, cmp) {
      var tail := SplitComplete(data, pat[1..], w, cmp);
      pieces := [[]] + tail;
      assert pieces[1..] == tail;
      forall k | 0 <= k < |pat| ensures PieceFits(w, cmp, pat[k], pieces[k]) {
        if k > 0 { assert pat[k] == pat[1..][k - 1]; }
      }
    } else if pat[0] == w.zeroOrMore {
      var more := SplitComplete(data[1..], pat, w, cmp);
      pieces := [[data[0]] + more[0]] + more[1..];
      assert pieces[1..] == more[1..];
      assert Concat(more) == more[0] + Concat(more[1..]);
      assert [data[0]] + data[1..] == data;
      forall k | 0 <= k < |pat| ensures PieceFits(w, cmp, pat[k], pieces[k]) {
        if k > 0 { assert pieces[k] == more[k] && PieceFits(w, cmp, pat[k], more[k]); }
      }
    } else {
      var tail := SplitComplete(data[1..], pat[1..], w, cmp);
      pieces := [[data[0]]] + tail;
      assert pieces[1..] == tail;
      assert [data[0]] + data[1..] == data;
      forall k | 0 <= k < |pat| ensures PieceFits(w, cmp, pat[k], pieces[k]) {
        if k > 0 { assert pat[k] == pat[1..][k - 1]; }
      }
    }
  }

  /**
   * Matching is exactly the existence of a cut of the data into one piece per
   * pattern symbol: a run for each `zero_or_more`, one accepted character for
   * every other symbol.
   */
  lemma GlobMatchesIffSplit(data: string, pat: string, w: Wildcards, cmp: Compare)
    ensures GlobMatches(data, pat, w, cmp) <==> exists pieces :: IsSplit(data, pat, pieces, w, cmp)
  {
    if GlobMatches(data, pat, w, cmp) {
      var pieces := SplitComplete(data, pat, w, cmp);
    }
    if pieces :| IsSplit(data, pat, pieces, w, cmp) {
      SplitSound(data, pat, pieces, w, cmp);
    }
  }
}
