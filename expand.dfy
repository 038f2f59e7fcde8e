/**
 * Growing a hash hit (ia, ib) into the maximal run of equal bytes that a and b
 * share around it, reported as two inclusive ranges.
 */
module Expand {
  import opened Basics

  /** The inclusive ranges a[la..=ra] and b[lb..=rb] of one match. */
  datatype Match = Match(la: nat, ra: nat, lb: nat, rb: nat)

  /** m names two in-bounds, non-empty ranges of equal length holding equal bytes. */
  ghost predicate Genuine(a: seq<byte>, b: seq<byte>, m: Match)
  {
    && m.la <= m.ra < |a|
    && m.lb <= m.rb < |b|
    && m.ra - m.la == m.rb - m.lb
    && a[m.la..m.ra + 1] == b[m.lb..m.rb + 1]
  }

  /** m is a genuine match that cannot be extended to the left nor to the right. */
  ghost predicate Maximal(a: seq<byte>, b: seq<byte>, m: Match)
  {
    && Genuine(a, b, m)
    && (m.la == 0 || m.lb == 0 || a[m.la - 1] != b[m.lb - 1])
    && (m.ra + 1 == |a| || m.rb + 1 == |b| || a[m.ra + 1] != b[m.rb + 1])
  }

  /** m is the maximal run through the pair of positions (ia, ib). */
  ghost predicate MaximalRunAt(a: seq<byte>, b: seq<byte>, ia: nat, ib: nat, m: Match)
  {
    && Maximal(a, b, m)
    && m.la <= ia <= m.ra
    && ia - m.la == ib - m.lb
  }

  lemma SliceCons(s: seq<byte>, lo: nat, hi: nat)
    requires lo < hi <= |s|
    ensures s[lo..hi] == [s[lo]] + s[lo + 1..hi]
  {
  }

  lemma SliceSnoc(s: seq<byte>, lo: nat, hi: nat)
    requires lo < hi <= |s|
    ensures s[lo..hi] == s[lo..hi - 1] + [s[hi - 1]]
  {
  }

  /** How many pairs a[i+t] == b[j+t] hold before the first difference or the end of either. */
  function CommonRight(a: seq<byte>, b: seq<byte>, i: nat, j: nat): (n: nat)
    requires i <= |a| && j <= |b|
    ensures i + n <= |a| && j + n <= |b|
    ensures a[i..i + n] == b[j..j + n]
    ensures i + n == |a| || j + n == |b| || a[i + n] != b[j + n]
    decreases |a| - i
  {
    if i < |a| && j < |b| && a[i] == b[j] then
      var n := CommonRight(a, b, i + 1, j + 1);
      SliceCons(a, i, i + 1 + n);
      SliceCons(b, j, j + 1 + n);
      1 + n
    else
      0
  }

  /** How many pairs a[i-1-t] == b[j-1-t] hold, walking left, before a difference or either start. */
  function CommonLeft(a: seq<byte>, b: seq<byte>, i: nat, j: nat): (n: nat)
    requires i <= |a| && j <= |b|
    ensures n <= i && n <= j
    ensures a[i - n..i] == b[j - n..j]
    ensures n == i || n == j || a[i - n - 1] != b[j - n - 1]
    decreases i
  {
    if i > 0 && j > 0 && a[i - 1] == b[j - 1] then
      var n := CommonLeft(a, b, i - 1, j - 1);
      SliceSnoc(a, i - 1 - n, i);
      SliceSnoc(b, j - 1 - n, j);
      1 + n
    else
      0
  }

  /**
   * The expansion as the source computes it, on machine arithmetic: the right ends
   * are ia + r - 1 and ib + r - 1, and one of them goes below zero when no byte
   * matches at the hit (r == 0) and ia or ib is 0. None stands for the panic this
   * causes when overflow checks are on (debug and test builds); the wrap-around of
   * a release build is not modelled. When the bytes at the hit differ but
   * ia, ib > 0, the result is a range that misses the hit.
   */
  function ExpandMatch(a: seq<byte>, b: seq<byte>, ia: nat, ib: nat): (r: Option<Match>)
    requires ia <= |a| && ib <= |b|
    ensures r.None? ==> ia == |a| || ib == |b| || a[ia] != b[ib]
    ensures (ia < |a| && ib < |b| && a[ia] == b[ib]) <==> (r.Some? && r.value.la <= ia <= r.value.ra)
    ensures ia < |a| && ib < |b| && a[ia] == b[ib] ==> r.Some? && MaximalRunAt(a, b, ia, ib, r.value)
  {
    var r := CommonRight(a, b, ia, ib);
    var l := CommonLeft(a, b, ia, ib);
    if ia + r < 1 || ib + r < 1 then
      None
    else
      var m := Match(ia - l, ia + r - 1, ib - l, ib + r - 1);
      if r > 0 then
        JoinRuns(a, b, ia, ib, l, r);
        assert a[ia] == a[ia..ia + r][0];
        Some(m)
      else
        Some(m)
  }

  /** Equal bytes just left of (ia, ib) and equal bytes from (ia, ib) on make one equal run. */
  lemma JoinRuns(a: seq<byte>, b: seq<byte>, ia: nat, ib: nat, l: nat, r: nat)
    requires l <= ia && l <= ib && ia + r <= |a| && ib + r <= |b|
    requires a[ia - l..ia] == b[ib - l..ib] && a[ia..ia + r] == b[ib..ib + r]
    ensures a[ia - l..ia + r] == b[ib - l..ib + r]
  {
    assert a[ia - l..ia + r] == a[ia - l..ia] + a[ia..ia + r];
    assert b[ib - l..ib + r] == b[ib - l..ib] + b[ib..ib + r];
  }

  /**
   * There is only one maximal run through a pair of positions, so expanding any
   * hit inside a run gives back that run.
   */
  lemma MaximalRunUnique(a: seq<byte>, b: seq<byte>, ia: nat, ib: nat, m1: Match, m2: Match)
    requires MaximalRunAt(a, b, ia, ib, m1) && MaximalRunAt(a, b, ia, ib, m2)
    ensures m1 == m2
  {
    EqualInside(a, b, m1, m2.la - 1);
    EqualInside(a, b, m2, m1.la - 1);
    EqualInside(a, b, m2, m1.ra + 1);
    EqualInside(a, b, m1, m2.ra + 1);
  }

  /** Inside a genuine match, the bytes on the same diagonal are equal. */
  lemma EqualInside(a: seq<byte>, b: seq<byte>, m: Match, i: int)
    requires Genuine(a, b, m)
    ensures m.la <= i <= m.ra ==> a[i] == b[m.lb + (i - m.la)]
  {
    if m.la <= i <= m.ra {
      assert a[i] == a[m.la..m.ra + 1][i - m.la];
    }
  }

  /** The source's unit test: "abcd" found inside "xxabcdxx" at the hit (2, 0). */
  lemma ExpandAbcd(a: seq<byte>, b: seq<byte>)
    requires a == [120, 120, 97, 98, 99, 100, 120, 120] && b == [97, 98, 99, 100]
    ensures ExpandMatch(a, b, 2, 0) == Some(Match(2, 5, 0, 3))
  {
    var m := ExpandMatch(a, b, 2, 0).value;
    assert m.lb == 0 && m.la == 2;
    assert a[m.la..m.ra + 1] == b[m.lb..m.rb + 1];
  }

  /**
   * An unconfirmed hit with different bytes but equal bytes just to its left gives
   * a genuine run that ends just before the hit and misses it: a[1] == b[0] and
   * a[2] != b[1].
   */
  lemma ExpandBeforeHit(a: seq<byte>, b: seq<byte>)
    requires a == [9, 3, 1, 0] && b == [3, 0, 100]
    ensures ExpandMatch(a, b, 2, 1) == Some(Match(1, 1, 0, 0))
  {
    assert CommonRight(a, b, 2, 1) == 0;
    assert CommonLeft(a, b, 1, 0) == 0;
    assert CommonLeft(a, b, 2, 1) == 1;
  }

  /**
   * A hit whose first bytes agree grows left as far as the bytes agree, so its run
   * can be longer than one window although the two 3-byte windows at (3, 3),
   * [7,0,100] and [7,1,0], differ.
   */
  lemma ExpandBeyondWindow(a: seq<byte>, b: seq<byte>)
    requires a == [5, 5, 5, 7, 0, 100] && b == [5, 5, 5, 7, 1, 0]
    ensures ExpandMatch(a, b, 3, 3) == Some(Match(0, 3, 0, 3))
    ensures a[3..6] != b[3..6]
  {
    assert a[3..6] != b[3..6] by {
      assert a[3..6][1] != b[3..6][1];
    }
    var m := Match(0, 3, 0, 3);
    assert MaximalRunAt(a, b, 3, 3, m) by {
      assert a[0..4] == b[0..4] && a[4] != b[4];
    }
    MaximalRunUnique(a, b, 3, 3, m, ExpandMatch(a, b, 3, 3).value);
  }
}
