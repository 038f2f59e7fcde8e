/**
 * Turning the raw expansions into an ordered cover: a stable sort by target
 * start, then one pass with a cursor rp (the first target offset not yet
 * covered) that keeps, trims or stops on each match.
 */
module Merge {
  import opened Basics
  import opened Expand

  ghost predicate SortedByLb(s: seq<Match>)
  {
    forall i, j :: 0 <= i < j < |s| ==> s[i].lb <= s[j].lb
  }

  /** Puts x after every element of the sorted t whose lb is at most x.lb. */
  function Insert(t: seq<Match>, x: Match): (r: seq<Match>)
    ensures |r| == |t| + 1
    ensures r[|r| - 1].lb == if t == [] || t[|t| - 1].lb <= x.lb then x.lb else t[|t| - 1].lb
    decreases |t|
  {
    if t == [] || t[|t| - 1].lb <= x.lb then
      t + [x]
    else
      var t' := t[..|t| - 1];
      Insert(t', x) + [t[|t| - 1]]
  }

  /** Inserting into a sorted sequence keeps it sorted. */
  lemma {:induction false} InsertSorted(t: seq<Match>, x: Match)
    requires SortedByLb(t)
    ensures SortedByLb(Insert(t, x))
    decreases |t|
  {
    if t == [] || t[|t| - 1].lb <= x.lb {
      SortedSnoc(t, x);
    } else {
      var t' := t[..|t| - 1];
      assert SortedByLb(t');
      InsertSorted(t', x);
      SortedSnoc(Insert(t', x), t[|t| - 1]);
    }
  }

  lemma SortedSnoc(r: seq<Match>, y: Match)
    requires SortedByLb(r) && (r == [] || r[|r| - 1].lb <= y.lb)
    ensures SortedByLb(r + [y])
  {
  }

  /** Inserting adds exactly x. */
  lemma {:induction false} InsertPermutes(t: seq<Match>, x: Match)
    ensures multiset(Insert(t, x)) == multiset(t) + multiset{x}
    decreases |t|
  {
    if !(t == [] || t[|t| - 1].lb <= x.lb) {
      var t' := t[..|t| - 1];
      assert t == t' + [t[|t| - 1]];
      InsertPermutes(t', x);
    }
  }

  /** Insertion sort by lb; equal keys keep their input order, as a stable sort does. */
  function SortByLb(s: seq<Match>): (r: seq<Match>)
    ensures |r| == |s|
    decreases |s|
  {
    if s == [] then []
    else Insert(SortByLb(s[..|s| - 1]), s[|s| - 1])
  }

  /** The sort orders by lb and is a permutation of its input. */
  lemma {:induction false} SortByLbSorted(s: seq<Match>)
    ensures SortedByLb(SortByLb(s))
    ensures multiset(SortByLb(s)) == multiset(s)
    decreases |s|
  {
    if s != [] {
      var s' := s[..|s| - 1];
      assert s == s' + [s[|s| - 1]];
      SortByLbSorted(s');
      InsertSorted(SortByLb(s'), s[|s| - 1]);
      InsertPermutes(SortByLb(s'), s[|s| - 1]);
    }
  }

  /** The elements of s whose lb is v, in their order in s. */
  function WithLb(s: seq<Match>, v: nat): seq<Match>
    decreases |s|
  {
    if s == [] then []
    else WithLb(s[..|s| - 1], v) + (if s[|s| - 1].lb == v then [s[|s| - 1]] else [])
  }

  lemma WithLbSnoc(s: seq<Match>, y: Match, v: nat)
    ensures WithLb(s + [y], v) == WithLb(s, v) + WithLb([y], v)
    ensures WithLb([y], v) == if y.lb == v then [y] else []
  {
    assert (s + [y])[..|s|] == s;
    assert [y][..0] == [];
  }

  lemma {:induction false} InsertStable(t: seq<Match>, x: Match, v: nat)
    ensures WithLb(Insert(t, x), v) == WithLb(t, v) + WithLb([x], v)
    decreases |t|
  {
    if t == [] || t[|t| - 1].lb <= x.lb {
      assert Insert(t, x) == t + [x];
      WithLbSnoc(t, x, v);
    } else {
      var last := t[|t| - 1];
      var t' := t[..|t| - 1];
      var r' := Insert(t', x);
      var X, L := WithLb([x], v), WithLb([last], v);
      // x sorts before last, so at most one of them has key v
      assert X == [] || L == [] by {
        WithLbSnoc(t', x, v);
        WithLbSnoc(t', last, v);
      }
      calc {
        WithLb(Insert(t, x), v);
        { assert Insert(t, x) == r' + [last]; }
        WithLb(r' + [last], v);
        { WithLbSnoc(r', last, v); }
        WithLb(r', v) + L;
        { InsertStable(t', x, v); }
        WithLb(t', v) + X + L;
        WithLb(t', v) + L + X;
        { assert t == t' + [last]; WithLbSnoc(t', last, v); }
        WithLb(t, v) + X;
      }
    }
  }

  /** Sorting keeps, for every key, the elements with that key in their input order. */
  lemma {:induction false} SortStable(s: seq<Match>, v: nat)
    ensures WithLb(SortByLb(s), v) == WithLb(s, v)
    decreases |s|
  {
    if s != [] {
      var s' := s[..|s| - 1];
      assert s == s' + [s[|s| - 1]];
      SortStable(s', v);
      InsertStable(SortByLb(s'), s[|s| - 1], v);
      WithLbSnoc(s', s[|s| - 1], v);
    }
  }

  /** The match m after the cursor rp has passed lb: its start is moved up to rp on both sides. */
  function Trim(m: Match, rp: nat): (r: Match)
    ensures rp <= r.lb && m.lb <= r.lb
    ensures r.ra == m.ra && r.rb == m.rb && r.la - m.la == r.lb - m.lb
    ensures rp <= m.lb ==> r == m
    ensures m.lb < rp ==> r.lb == rp && r.la == m.la + (rp - m.lb)
  {
    if rp <= m.lb then m else Match(m.la + (rp - m.lb), m.ra, rp, m.rb)
  }

  /** m starts before the cursor and ends before it too: nothing of it is left uncovered. */
  predicate Covered(m: Match, rp: nat)
  {
    m.lb < rp && m.rb < rp
  }

  /**
   * The scan over sorted matches: a match at or after the cursor is kept, a match
   * the cursor has wholly passed ends the scan, and any other is trimmed to start
   * at the cursor; after each kept match the cursor moves to its rb + 1.
   */
  function Scan(s: seq<Match>, rp: nat): (r: seq<Match>)
    ensures |r| <= |s|
    decreases |s|
  {
    if s == [] then []
    else if Covered(s[0], rp) then []
    else [Trim(s[0], rp)] + Scan(s[1..], s[0].rb + 1)
  }

  /** What merging a list of matches produces. */
  function Merged(ms: seq<Match>): (r: seq<Match>)
    ensures |r| <= |ms|
    ensures ms == [] <==> r == []
  {
    Scan(SortByLb(ms), 0)
  }

  /** The cursor the scan holds when it reaches s[i]. */
  function Cursor(s: seq<Match>, rp: nat, i: nat): nat
    requires i <= |s|
  {
    if i == 0 then rp else s[i - 1].rb + 1
  }

  /**
   * The scan emits, for each input in turn, that input trimmed to the cursor, and
   * stops exactly at the first input the cursor has wholly passed.
   */
  lemma {:induction false} ScanAt(s: seq<Match>, rp: nat, i: nat)
    requires i < |Scan(s, rp)|
    ensures |Scan(s, rp)| <= |s|
    ensures !Covered(s[i], Cursor(s, rp, i))
    ensures Scan(s, rp)[i] == Trim(s[i], Cursor(s, rp, i))
    decreases i
  {
    ScanLength(s, rp);
    if i > 0 {
      ScanAt(s[1..], s[0].rb + 1, i - 1);
    }
  }

  lemma {:induction false} ScanLength(s: seq<Match>, rp: nat)
    ensures |Scan(s, rp)| <= |s|
    ensures |Scan(s, rp)| < |s| ==> Covered(s[|Scan(s, rp)|], Cursor(s, rp, |Scan(s, rp)|))
    decreases |s|
  {
    if s != [] && !Covered(s[0], rp) {
      ScanLength(s[1..], s[0].rb + 1);
    }
  }

  /** Each output starts after the previous output ends. */
  lemma ScanSeparated(s: seq<Match>, rp: nat)
    ensures forall i :: 0 <= i < |Scan(s, rp)| - 1 ==> Scan(s, rp)[i].rb < Scan(s, rp)[i + 1].lb
  {
    var r := Scan(s, rp);
    forall i | 0 <= i < |r| - 1
      ensures r[i].rb < r[i + 1].lb
    {
      ScanAt(s, rp, i);
      ScanAt(s, rp, i + 1);
    }
  }

  /** An output is its input with la and lb moved up by the same amount and ra, rb kept. */
  lemma ScanAdvances(s: seq<Match>, rp: nat)
    ensures var r := Scan(s, rp);
      && |r| <= |s|
      && forall i :: 0 <= i < |r| ==>
           && r[i].ra == s[i].ra && r[i].rb == s[i].rb
           && s[i].la <= r[i].la && s[i].lb <= r[i].lb
           && r[i].la - s[i].la == r[i].lb - s[i].lb
  {
    var r := Scan(s, rp);
    ScanLength(s, rp);
    forall i | 0 <= i < |r|
      ensures r[i].ra == s[i].ra && r[i].rb == s[i].rb
      ensures s[i].la <= r[i].la && s[i].lb <= r[i].lb
      ensures r[i].la - s[i].la == r[i].lb - s[i].lb
    {
      ScanAt(s, rp, i);
    }
  }

  /** Trimming a genuine match that the cursor has not wholly passed leaves a genuine match. */
  lemma TrimGenuine(a: seq<byte>, b: seq<byte>, m: Match, rp: nat)
    requires Genuine(a, b, m) && !Covered(m, rp)
    ensures Genuine(a, b, Trim(m, rp))
  {
    if rp > m.lb {
      var d := rp - m.lb;
      assert a[m.la + d..m.ra + 1] == a[m.la..m.ra + 1][d..];
      assert b[m.lb + d..m.rb + 1] == b[m.lb..m.rb + 1][d..];
    }
  }

  /** Genuine inputs give genuine outputs: equal lengths and equal bytes carry over. */
  lemma ScanGenuine(a: seq<byte>, b: seq<byte>, s: seq<Match>, rp: nat)
    requires forall i :: 0 <= i < |s| ==> Genuine(a, b, s[i])
    ensures forall i :: 0 <= i < |Scan(s, rp)| ==> Genuine(a, b, Scan(s, rp)[i])
  {
    var r := Scan(s, rp);
    forall i | 0 <= i < |r|
      ensures Genuine(a, b, r[i])
    {
      ScanAt(s, rp, i);
      TrimGenuine(a, b, s[i], Cursor(s, rp, i));
    }
  }

  /**
   * Merging follows the stable sort by lb: the first sorted match is kept as it
   * is, every later output is the sorted match at the same position trimmed to
   * start just after the previous one, and the output stops at the first sorted
   * match lying wholly inside what is already covered. No input, no output.
   */
  lemma MergedShape(ms: seq<Match>)
    ensures var s := SortByLb(ms);
      var r := Merged(ms);
      && |r| <= |s|
      && (|ms| == 0 <==> |r| == 0)
      && (|r| > 0 ==> r[0] == s[0])
      && (forall i :: 0 < i < |r| ==>
            !Covered(s[i], r[i - 1].rb + 1) && r[i] == Trim(s[i], r[i - 1].rb + 1))
      && (|r| < |s| ==> Covered(s[|r|], r[|r| - 1].rb + 1))
  {
    var s := SortByLb(ms);
    var r := Merged(ms);
    ScanLength(s, 0);
    if |r| > 0 {
      ScanAt(s, 0, 0);
    }
    forall i | 0 < i < |r|
      ensures !Covered(s[i], r[i - 1].rb + 1) && r[i] == Trim(s[i], r[i - 1].rb + 1)
    {
      ScanAt(s, 0, i);
      ScanAt(s, 0, i - 1);
    }
    if 0 < |r| < |s| {
      ScanAt(s, 0, |r| - 1);
    }
  }

  /** Merging genuine matches yields genuine, strictly ordered, disjoint target ranges. */
  lemma MergedCover(a: seq<byte>, b: seq<byte>, ms: seq<Match>)
    requires forall i :: 0 <= i < |ms| ==> Genuine(a, b, ms[i])
    ensures var r := Merged(ms);
      && (forall i :: 0 <= i < |r| ==> Genuine(a, b, r[i]))
      && (forall i :: 0 <= i < |r| - 1 ==> r[i].rb < r[i + 1].lb)
  {
    var s := SortByLb(ms);
    SortByLbSorted(ms);
    forall i | 0 <= i < |s|
      ensures Genuine(a, b, s[i])
    {
      assert s[i] in multiset(ms);
    }
    assert Merged(ms) == Scan(s, 0);
    ScanGenuine(a, b, s, 0);
    ScanSeparated(s, 0);
  }

  /**
   * The source's merge: copy, stable sort by lb, then one scan with the cursor.
   */
  method MergeMatches(matches: seq<Match>) returns (merged: seq<Match>)
    ensures merged == Merged(matches)
    ensures forall i :: 0 <= i < |merged| - 1 ==> merged[i].rb < merged[i + 1].lb
  {
    var sorted := SortByLb(matches);
    var rp: nat := 0;
    merged := [];
    var i := 0;
    while i < |sorted|
      invariant i <= |sorted|
      invariant Progress(merged, sorted, i, rp)
    {
      var m := sorted[i];
      if rp <= m.lb {
        KeepStep(merged, sorted, i, rp);
        merged := merged + [m];
        rp := m.rb + 1;
      } else if m.rb < rp {
        StopStep(merged, sorted, i, rp);
        break;
      } else {
        TrimStep(merged, sorted, i, rp);
        merged := merged + [Match(m.la + (rp - m.lb), m.ra, rp, m.rb)];
        rp := m.rb + 1;
      }
      i := i + 1;
    }
    assert merged == Scan(sorted, 0) by {
      if i == |sorted| {
        ProgressDone(merged, sorted, rp);
      }
    }
    ScanSeparated(sorted, 0);
  }

  /** One step of the scan, at position i of s. */
  lemma ScanStep(s: seq<Match>, i: nat, rp: nat)
    requires i < |s|
    ensures Scan(s[i..], rp) ==
      if Covered(s[i], rp) then [] else [Trim(s[i], rp)] + Scan(s[i + 1..], s[i].rb + 1)
  {
    assert s[i..][0] == s[i] && s[i..][1..] == s[i + 1..];
  }

  /** Emitting the trimmed s[i] carries the scan's progress over to position i + 1. */
  lemma ScanKeep(done: seq<Match>, s: seq<Match>, i: nat, rp: nat)
    requires i < |s| && !Covered(s[i], rp)
    requires done + Scan(s[i..], rp) == Scan(s, 0)
    ensures (done + [Trim(s[i], rp)]) + Scan(s[i + 1..], s[i].rb + 1) == Scan(s, 0)
  {
    ScanStep(s, i, rp);
    var q := Scan(s[i + 1..], s[i].rb + 1);
    assert done + ([Trim(s[i], rp)] + q) == (done + [Trim(s[i], rp)]) + q;
  }

  /** The scan's progress after keeping s[i], which the cursor has not reached. */
  lemma KeepStep(done: seq<Match>, s: seq<Match>, i: nat, rp: nat)
    requires i < |s| && rp <= s[i].lb && Progress(done, s, i, rp)
    ensures Progress(done + [s[i]], s, i + 1, s[i].rb + 1)
  {
    ScanKeep(done, s, i, rp);
  }

  /** done is the scan of s up to position i, and rp is the cursor there. */
  ghost predicate Progress(done: seq<Match>, s: seq<Match>, i: nat, rp: nat)
  {
    i <= |s| && done + Scan(s[i..], rp) == Scan(s, 0)
  }

  /** At the end of s, the scan's progress is the whole scan. */
  lemma ProgressDone(done: seq<Match>, s: seq<Match>, rp: nat)
    requires Progress(done, s, |s|, rp)
    ensures done == Scan(s, 0)
  {
    assert s[|s|..] == [] && done + [] == done;
  }

  /** A match the cursor has wholly passed ends the scan: what is done is all of it. */
  lemma StopStep(done: seq<Match>, s: seq<Match>, i: nat, rp: nat)
    requires i < |s| && Covered(s[i], rp) && Progress(done, s, i, rp)
    ensures done == Scan(s, 0)
  {
    ScanStep(s, i, rp);
    assert done + [] == done;
  }

  /** The scan's progress after trimming s[i], which the cursor has entered but not passed. */
  lemma TrimStep(done: seq<Match>, s: seq<Match>, i: nat, rp: nat)
    requires i < |s| && s[i].lb < rp && rp <= s[i].rb && Progress(done, s, i, rp)
    ensures var m := s[i];
      Progress(done + [Match(m.la + (rp - m.lb), m.ra, rp, m.rb)], s, i + 1, m.rb + 1)
  {
    ScanKeep(done, s, i, rp);
  }

  /** Two hits inside the same run expand to the same match; merging keeps one copy. */
  lemma MergedDuplicate(m: Match)
    requires m.lb <= m.rb
    ensures Merged([m, m]) == [m]
  {
    var ms := [m, m];
    assert SortByLb(ms) == ms by {
      assert ms[..1] == [m] && ms[..1][..0] == [];
      assert SortByLb(ms[..1]) == [m];
    }
    assert ms[1..] == [m];
    assert Covered(m, m.rb + 1);
    assert Scan(ms[1..], m.rb + 1) == [];
    assert Trim(m, 0) == m;
    assert Scan(ms, 0) == [m] + Scan(ms[1..], m.rb + 1);
  }

  /** The source's first merge test: the second match is trimmed to start after the first. */
  lemma MergeOverlapping(ms: seq<Match>)
    requires ms == [Match(0, 5, 0, 5), Match(3, 9, 3, 9)]
    ensures Merged(ms) == [Match(0, 5, 0, 5), Match(6, 9, 6, 9)]
  {
    assert SortByLb(ms[..1]) == ms[..1] by {
      assert ms[..1][..0] == [];
    }
    assert SortByLb(ms) == Insert(ms[..1], ms[1]);
    assert Insert(ms[..1], ms[1]) == ms;
    assert ms[1..][1..] == [];
    assert Scan(ms[1..], 6) == [Match(6, 9, 6, 9)];
    assert Scan(ms, 0) == [ms[0]] + Scan(ms[1..], 6);
  }

  /** The source's second merge test: a match inside the first ends the output. */
  lemma MergeContained(ms: seq<Match>)
    requires ms == [Match(0, 10, 5, 15), Match(0, 5, 5, 10), Match(20, 20, 15, 15)]
    ensures Merged(ms) == [Match(0, 10, 5, 15)]
  {
    assert SortByLb(ms[..1]) == ms[..1] by {
      assert ms[..1][..0] == [];
    }
    assert SortByLb(ms[..2]) == ms[..2] by {
      assert ms[..2][..1] == ms[..1];
      assert Insert(ms[..1], ms[1]) == ms[..2];
    }
    assert SortByLb(ms) == ms by {
      assert Insert(ms[..2], ms[2]) == ms;
    }
    assert ms[1..][0] == ms[1];
    assert Scan(ms[1..], 16) == [];
    assert Scan(ms, 0) == [ms[0]] + Scan(ms[1..], 16);
  }
}
