/**
 * Concrete deltas: the source's delta test; the three hash collisions that the
 * source's expansion turns into a panic, an inverted range and a run shorter
 * than the minimum match length; and a delta without any collision whose merge
 * trims a run below the minimum match length.
 */
module DeltaExamples {
  import opened Basics
  import opened Rolling
  import opened Expand
  import opened Merge
  import opened Delta

  /**
   * With window length 2, the windows [1,0] and [0,100] share the hash 201, and
   * so do the windows [0,100] of b and [1,0] of a below: the source expands the
   * hit at (0, 0), where the bytes differ, and the right end 0 + 0 - 1 underflows.
   * The confirmed delta finds nothing.
   */
  lemma DeltaPanicsOnCollision(a: seq<byte>, b: seq<byte>)
    requires a == [1, 0, 5, 5] && b == [0, 100, 7]
    ensures DeltaAsWritten(a, b, 3) == None
    ensures DeltaSpec(a, b, 3) == []
  {
    CollisionWindows(a, b);
    CollisionCandidates(a, b, BuildIndex(Windows(a, 2, 2)), Windows(b, 2, 1));
  }

  /** The windows of the panicking example and the index over a. */
  lemma CollisionWindows(a: seq<byte>, b: seq<byte>)
    requires a == [1, 0, 5, 5] && b == [0, 100, 7]
    ensures Windows(a, 2, 2) == [(201, 0), (606, 2)]
    ensures Windows(b, 2, 1) == [(201, 0), (10108, 1)]
    ensures BuildIndex(Windows(a, 2, 2)) == map[201 := 0, 606 := 2]
  {
    assert Poly([1]) == 2;
    assert Poly([1, 0]) == 201 by { assert [1, 0][..1] == [1]; }
    assert Poly([5]) == 6;
    assert Poly([5, 5]) == 606 by { assert [5, 5][..1] == [5]; }
    assert Poly([0]) == 1;
    assert Poly([0, 100]) == 201 by { assert [0, 100][..1] == [0]; }
    assert Poly([100]) == 101;
    assert Poly([100, 7]) == 10108 by { assert [100, 7][..1] == [100]; }
    assert a[0..2] == [1, 0] && a[2..4] == [5, 5];
    assert b[0..2] == [0, 100] && b[1..3] == [100, 7];
    var wa: seq<(nat, nat)> := Windows(a, 2, 2);
    assert Rest(a, 2, 2, 2) == [];
    assert wa == [(201, 0), (606, 2)];
    assert Rest(b, 2, 1, 1) == [];
    assert wa[..1] == [(201, 0)] && wa[..1][..0] == [];
    assert BuildIndex(wa[..1]) == map[201 := 0];
  }

  lemma CollisionCandidates(a: seq<byte>, b: seq<byte>, idx: map<nat, nat>, probes: seq<(nat, nat)>)
    requires a == [1, 0, 5, 5] && b == [0, 100, 7]
    requires idx == map[201 := 0, 606 := 2] && probes == [(201, 0), (10108, 1)]
    ensures IndexFits(idx, |a|, 2) && ItemsFit(probes, |b|, 2)
    ensures CandidatesAsWritten(a, b, idx, probes) == None
    ensures Candidates(a, b, 2, idx, probes) == []
  {
    assert IndexFits(idx, |a|, 2) && ItemsFit(probes, |b|, 2);
    assert probes[0].0 in idx && idx[probes[0].0] == 0 && probes[0].1 == 0;
    assert ExpandMatch(a, b, 0, 0) == None;
    var tail := probes[1..];
    assert tail == [(10108, 1)] && tail[1..] == [] && 10108 !in idx;
    assert a[0..2] != b[0..2] by { assert a[0..2][0] != b[0..2][0]; }
    assert Candidates(a, b, 2, idx, probes) == Candidates(a, b, 2, idx, tail) by {
      SkipStep(a, b, 2, idx, probes);
    }
    assert Candidates(a, b, 2, idx, tail) == [] by {
      SkipStep(a, b, 2, idx, tail);
    }
  }

  /** The windows of the inverted example and the index over a. */
  lemma InvertedWindows(a: seq<byte>, b: seq<byte>)
    requires a == [5, 5, 1, 0] && b == [7, 0, 100]
    ensures Windows(a, 2, 2) == [(606, 0), (201, 2)]
    ensures Windows(b, 2, 1) == [(801, 0), (201, 1)]
    ensures BuildIndex(Windows(a, 2, 2)) == map[606 := 0, 201 := 2]
  {
    assert Poly([1]) == 2;
    assert Poly([1, 0]) == 201 by { assert [1, 0][..1] == [1]; }
    assert Poly([5]) == 6;
    assert Poly([5, 5]) == 606 by { assert [5, 5][..1] == [5]; }
    assert Poly([0]) == 1;
    assert Poly([0, 100]) == 201 by { assert [0, 100][..1] == [0]; }
    assert Poly([7]) == 8;
    assert Poly([7, 0]) == 801 by { assert [7, 0][..1] == [7]; }
    assert a[0..2] == [5, 5] && a[2..4] == [1, 0];
    assert b[0..2] == [7, 0] && b[1..3] == [0, 100];
    var wa: seq<(nat, nat)> := Windows(a, 2, 2);
    assert Rest(a, 2, 2, 2) == [];
    assert wa == [(606, 0), (201, 2)];
    assert Rest(b, 2, 1, 1) == [];
    assert wa[..1] == [(606, 0)] && wa[..1][..0] == [];
    assert BuildIndex(wa[..1]) == map[606 := 0];
  }

  lemma InvertedCandidates(a: seq<byte>, b: seq<byte>, idx: map<nat, nat>, probes: seq<(nat, nat)>)
    requires a == [5, 5, 1, 0] && b == [7, 0, 100]
    requires idx == map[606 := 0, 201 := 2] && probes == [(801, 0), (201, 1)]
    ensures IndexFits(idx, |a|, 2) && ItemsFit(probes, |b|, 2)
    ensures CandidatesAsWritten(a, b, idx, probes) == Some([Match(2, 1, 1, 0)])
    ensures Candidates(a, b, 2, idx, probes) == []
  {
    var m := Match(2, 1, 1, 0);
    assert ExpandMatch(a, b, 2, 1) == Some(m);
    var tail := probes[1..];
    assert tail == [(201, 1)] && tail[1..] == [];
    assert CandidatesAsWritten(a, b, idx, tail[1..]) == Some([]);
    assert [m] + [] == [m];
    assert CandidatesAsWritten(a, b, idx, tail) == Some([m]);
    assert CandidatesAsWritten(a, b, idx, probes) == CandidatesAsWritten(a, b, idx, tail);
    assert a[2..4] == [1, 0] && b[1..3] == [0, 100];
    assert Candidates(a, b, 2, idx, tail) == [];
  }

  /**
   * The same collision away from the buffer starts: a's window [1,0] at 2 and
   * b's window [0,100] at 1 both hash to 201, the bytes at the hit differ, and
   * the source reports the inverted pair of ranges a[2..=1], b[1..=0].
   */
  lemma DeltaInvertedOnCollision(a: seq<byte>, b: seq<byte>)
    requires a == [5, 5, 1, 0] && b == [7, 0, 100]
    ensures DeltaAsWritten(a, b, 3) == Some([Match(2, 1, 1, 0)])
    ensures DeltaSpec(a, b, 3) == []
  {
    InvertedWindows(a, b);
    InvertedCandidates(a, b, BuildIndex(Windows(a, 2, 2)), Windows(b, 2, 1));
    var m := Match(2, 1, 1, 0);
    assert [m][1..] == [];
    assert Scan([m], 0) == [m];
  }

  /**
   * A partial collision: with window length 3, a's window [7,0,100] and b's
   * window [7,1,0] share the hash 80201 and agree only on their first byte. The
   * source expands the hit into the genuine one-byte run a[0..=0], b[0..=0]
   * and reports it, although it is shorter than the minimum match length 5;
   * the confirmed delta drops the hit.
   */
  lemma DeltaPartialCollision(a: seq<byte>, b: seq<byte>)
    requires a == [7, 0, 100, 9, 9, 9] && b == [7, 1, 0, 200]
    ensures DeltaAsWritten(a, b, 5) == Some([Match(0, 0, 0, 0)])
    ensures DeltaSpec(a, b, 5) == []
  {
    PartialWindows(a, b);
    PartialCandidates(a, b, BuildIndex(Windows(a, 3, 3)), Windows(b, 3, 1));
    var m := Match(0, 0, 0, 0);
    assert [m][1..] == [];
    assert Scan([m], 0) == [m];
  }

  /** The windows of the partial collision and the index over a. */
  lemma PartialWindows(a: seq<byte>, b: seq<byte>)
    requires a == [7, 0, 100, 9, 9, 9] && b == [7, 1, 0, 200]
    ensures Windows(a, 3, 3) == [(80201, 0), (101010, 3)]
    ensures Windows(b, 3, 1) == [(80201, 0), (20301, 1)]
    ensures BuildIndex(Windows(a, 3, 3)) == map[80201 := 0, 101010 := 3]
  {
    PartialWindowsOfA(a);
    PartialWindowsOfB(b);
    var wa: seq<(nat, nat)> := Windows(a, 3, 3);
    assert wa[..1] == [(80201, 0)] && wa[..1][..0] == [];
    assert BuildIndex(wa[..1]) == map[80201 := 0];
  }

  lemma PartialWindowsOfA(a: seq<byte>)
    requires a == [7, 0, 100, 9, 9, 9]
    ensures Windows(a, 3, 3) == [(80201, 0), (101010, 3)]
  {
    assert Poly([7, 0]) == 801 by { assert [7, 0][..1] == [7]; }
    assert Poly([7, 0, 100]) == 80201 by { assert [7, 0, 100][..2] == [7, 0]; }
    assert Poly([9, 9]) == 1010 by { assert [9, 9][..1] == [9]; }
    assert Poly([9, 9, 9]) == 101010 by { assert [9, 9, 9][..2] == [9, 9]; }
    assert a[0..3] == [7, 0, 100] && a[3..6] == [9, 9, 9];
    assert Rest(a, 3, 3, 3) == [];
  }

  lemma PartialWindowsOfB(b: seq<byte>)
    requires b == [7, 1, 0, 200]
    ensures Windows(b, 3, 1) == [(80201, 0), (20301, 1)]
  {
    assert Poly([7, 1]) == 802 by { assert [7, 1][..1] == [7]; }
    assert Poly([7, 1, 0]) == 80201 by { assert [7, 1, 0][..2] == [7, 1]; }
    assert Poly([1, 0]) == 201 by { assert [1, 0][..1] == [1]; }
    assert Poly([1, 0, 200]) == 20301 by { assert [1, 0, 200][..2] == [1, 0]; }
    assert b[0..3] == [7, 1, 0] && b[1..4] == [1, 0, 200];
    assert Rest(b, 3, 1, 1) == [];
  }

  lemma PartialCandidates(a: seq<byte>, b: seq<byte>, idx: map<nat, nat>, probes: seq<(nat, nat)>)
    requires a == [7, 0, 100, 9, 9, 9] && b == [7, 1, 0, 200]
    requires idx == map[80201 := 0, 101010 := 3] && probes == [(80201, 0), (20301, 1)]
    ensures IndexFits(idx, |a|, 3) && ItemsFit(probes, |b|, 3)
    ensures CandidatesAsWritten(a, b, idx, probes) == Some([Match(0, 0, 0, 0)])
    ensures Candidates(a, b, 3, idx, probes) == []
  {
    var m := Match(0, 0, 0, 0);
    assert IndexFits(idx, |a|, 3) && ItemsFit(probes, |b|, 3);
    assert IndexFits(idx, |a|, 0) && ItemsFit(probes, |b|, 0);
    assert probes[0].0 in idx && idx[probes[0].0] == 0 && probes[0].1 == 0;
    var tail := probes[1..];
    assert tail == [(20301, 1)] && tail[1..] == [] && 20301 !in idx;
    assert ExpandMatch(a, b, 0, 0) == Some(m) by {
      assert a[0..1] == b[0..1] && a[1] != b[1];
      assert MaximalRunAt(a, b, 0, 0, m);
      MaximalRunUnique(a, b, 0, 0, m, ExpandMatch(a, b, 0, 0).value);
    }
    assert CandidatesAsWritten(a, b, idx, probes) == Some([m]) by {
      HitStep(a, b, idx, probes, m);
      MissStep(a, b, idx, tail);
      assert CandidatesAsWritten(a, b, idx, tail[1..]) == Some([]);
      assert [m] + [] == [m];
    }
    assert a[0..3] != b[0..3] by { assert a[0..3][1] != b[0..3][1]; }
    assert Candidates(a, b, 3, idx, probes) == [] by {
      SkipStep(a, b, 3, idx, probes);
      SkipStep(a, b, 3, idx, tail);
    }
  }

  /** The windows of the source's delta test and the index over a: the second "xx" window replaces the first. */
  lemma AbcdWindows(a: seq<byte>, b: seq<byte>)
    requires a == [120, 120, 97, 98, 99, 100, 120, 120] && b == [97, 98, 99, 100]
    ensures Windows(a, 2, 2) == [(12221, 0), (9899, 2), (10101, 4), (12221, 6)]
    ensures Windows(b, 2, 1) == [(9899, 0), (10000, 1), (10101, 2)]
    ensures BuildIndex(Windows(a, 2, 2)) == map[12221 := 6, 9899 := 2, 10101 := 4]
  {
    AbcdWindowsOfA(a);
    AbcdWindowsOfB(b);
    AbcdIndex(Windows(a, 2, 2));
  }

  lemma AbcdWindowsOfA(a: seq<byte>)
    requires a == [120, 120, 97, 98, 99, 100, 120, 120]
    ensures Windows(a, 2, 2) == [(12221, 0), (9899, 2), (10101, 4), (12221, 6)]
  {
    assert Poly([120]) == 121;
    assert Poly([120, 120]) == 12221 by { assert [120, 120][..1] == [120]; }
    assert Poly([97]) == 98;
    assert Poly([97, 98]) == 9899 by { assert [97, 98][..1] == [97]; }
    assert Poly([99]) == 100;
    assert Poly([99, 100]) == 10101 by { assert [99, 100][..1] == [99]; }
    assert a[0..2] == [120, 120] && a[2..4] == [97, 98] && a[4..6] == [99, 100] && a[6..8] == [120, 120];
    assert Rest(a, 2, 2, 6) == [];
    assert Rest(a, 2, 2, 4) == [(12221, 6)];
    assert Rest(a, 2, 2, 2) == [(10101, 4), (12221, 6)];
  }

  lemma AbcdWindowsOfB(b: seq<byte>)
    requires b == [97, 98, 99, 100]
    ensures Windows(b, 2, 1) == [(9899, 0), (10000, 1), (10101, 2)]
  {
    assert Poly([97]) == 98;
    assert Poly([97, 98]) == 9899 by { assert [97, 98][..1] == [97]; }
    assert Poly([98]) == 99;
    assert Poly([98, 99]) == 10000 by { assert [98, 99][..1] == [98]; }
    assert Poly([99]) == 100;
    assert Poly([99, 100]) == 10101 by { assert [99, 100][..1] == [99]; }
    assert b[0..2] == [97, 98] && b[1..3] == [98, 99] && b[2..4] == [99, 100];
    assert Rest(b, 2, 1, 2) == [];
    assert Rest(b, 2, 1, 1) == [(10101, 2)];
  }

  lemma AbcdIndex(wa: seq<(nat, nat)>)
    requires wa == [(12221, 0), (9899, 2), (10101, 4), (12221, 6)]
    ensures BuildIndex(wa) == map[12221 := 6, 9899 := 2, 10101 := 4]
  {
    assert wa[..1] == [(12221, 0)] && wa[..1][..0] == [];
    assert wa[..2][..1] == wa[..1] && wa[..3][..2] == wa[..2] && wa[..4][..3] == wa[..3] && wa[..4] == wa;
    assert BuildIndex(wa[..1]) == map[12221 := 0];
    assert BuildIndex(wa[..2]) == map[12221 := 0, 9899 := 2];
    assert BuildIndex(wa[..3]) == map[12221 := 0, 9899 := 2, 10101 := 4];
  }

  /** Both hits, at b offsets 0 and 2, grow into the same run "abcd". */
  lemma AbcdHits(a: seq<byte>, b: seq<byte>)
    requires a == [120, 120, 97, 98, 99, 100, 120, 120] && b == [97, 98, 99, 100]
    ensures ExpandMatch(a, b, 2, 0) == Some(Match(2, 5, 0, 3))
    ensures ExpandMatch(a, b, 4, 2) == Some(Match(2, 5, 0, 3))
    ensures a[2..4] == b[0..2] && a[4..6] == b[2..4]
  {
    var m := Match(2, 5, 0, 3);
    ExpandAbcd(a, b);
    assert a[2..6] == b[0..4];
    assert MaximalRunAt(a, b, 4, 2, m);
    MaximalRunUnique(a, b, 4, 2, m, ExpandMatch(a, b, 4, 2).value);
    assert a[2..4] == b[0..2] && a[4..6] == b[2..4];
  }

  lemma AbcdCandidates(a: seq<byte>, b: seq<byte>, idx: map<nat, nat>, probes: seq<(nat, nat)>)
    requires a == [120, 120, 97, 98, 99, 100, 120, 120] && b == [97, 98, 99, 100]
    requires idx == map[12221 := 6, 9899 := 2, 10101 := 4]
    requires probes == [(9899, 0), (10000, 1), (10101, 2)]
    ensures IndexFits(idx, |a|, 2) && ItemsFit(probes, |b|, 2)
    ensures Candidates(a, b, 2, idx, probes) == [Match(2, 5, 0, 3), Match(2, 5, 0, 3)]
  {
    assert IndexFits(idx, |a|, 2) && ItemsFit(probes, |b|, 2);
    assert probes[0].0 in idx && probes[1].0 !in idx && probes[2].0 in idx;
    assert idx[probes[0].0] == 2 && probes[0].1 == 0 && idx[probes[2].0] == 4 && probes[2].1 == 2;
    AbcdHits(a, b);
    ConfirmedMissConfirmed(a, b, 2, idx, probes, Match(2, 5, 0, 3));
  }

  /** Three probes where the outer two are confirmed hits expanding to m and the middle one misses. */
  lemma ConfirmedMissConfirmed(a: seq<byte>, b: seq<byte>, k: nat, idx: map<nat, nat>, probes: seq<(nat, nat)>, m: Match)
    requires IndexFits(idx, |a|, k) && ItemsFit(probes, |b|, k) && |probes| == 3
    requires probes[0].0 in idx && probes[1].0 !in idx && probes[2].0 in idx
    requires Confirmed(a, b, k, idx[probes[0].0], probes[0].1)
    requires Confirmed(a, b, k, idx[probes[2].0], probes[2].1)
    requires ExpandMatch(a, b, idx[probes[0].0], probes[0].1) == Some(m)
    requires ExpandMatch(a, b, idx[probes[2].0], probes[2].1) == Some(m)
    ensures Candidates(a, b, k, idx, probes) == [m, m]
  {
    var t1 := probes[1..];
    var t2 := t1[1..];
    assert t2[1..] == [] && t2[0] == probes[2] && t1[0] == probes[1];
    assert Candidates(a, b, k, idx, t2) == [m] by {
      ConfirmedStep(a, b, k, idx, t2, m);
      assert Candidates(a, b, k, idx, t2[1..]) == [];
      assert [m] + [] == [m];
    }
    assert Candidates(a, b, k, idx, t1) == [m] by {
      SkipStep(a, b, k, idx, t1);
    }
    ConfirmedStep(a, b, k, idx, probes, m);
    assert [m] + [m] == [m, m];
  }

  /** A confirmed hit that expands to m puts m in front of the rest's expansions. */
  lemma ConfirmedStep(a: seq<byte>, b: seq<byte>, k: nat, idx: map<nat, nat>, items: seq<(nat, nat)>, m: Match)
    requires IndexFits(idx, |a|, k) && ItemsFit(items, |b|, k) && items != []
    requires items[0].0 in idx && Confirmed(a, b, k, idx[items[0].0], items[0].1)
    requires ExpandMatch(a, b, idx[items[0].0], items[0].1) == Some(m)
    ensures ItemsFit(items[1..], |b|, k)
    ensures Candidates(a, b, k, idx, items) == [m] + Candidates(a, b, k, idx, items[1..])
  {
  }

  /** A probe that is not a confirmed hit adds nothing. */
  lemma SkipStep(a: seq<byte>, b: seq<byte>, k: nat, idx: map<nat, nat>, items: seq<(nat, nat)>)
    requires IndexFits(idx, |a|, k) && ItemsFit(items, |b|, k) && items != []
    requires !(items[0].0 in idx && Confirmed(a, b, k, idx[items[0].0], items[0].1))
    ensures ItemsFit(items[1..], |b|, k)
    ensures Candidates(a, b, k, idx, items) == Candidates(a, b, k, idx, items[1..])
  {
  }

  lemma AbcdCandidatesAsWritten(a: seq<byte>, b: seq<byte>, idx: map<nat, nat>, probes: seq<(nat, nat)>)
    requires a == [120, 120, 97, 98, 99, 100, 120, 120] && b == [97, 98, 99, 100]
    requires idx == map[12221 := 6, 9899 := 2, 10101 := 4]
    requires probes == [(9899, 0), (10000, 1), (10101, 2)]
    ensures CandidatesAsWritten(a, b, idx, probes) == Some([Match(2, 5, 0, 3), Match(2, 5, 0, 3)])
  {
    assert IndexFits(idx, |a|, 0) && ItemsFit(probes, |b|, 0);
    assert probes[0].0 in idx && probes[1].0 !in idx && probes[2].0 in idx;
    assert idx[probes[0].0] == 2 && probes[0].1 == 0 && idx[probes[2].0] == 4 && probes[2].1 == 2;
    AbcdHits(a, b);
    HitMissHit(a, b, idx, probes, Match(2, 5, 0, 3));
  }

  /** Three probes where the outer two hit and expand to m and the middle one misses. */
  lemma HitMissHit(a: seq<byte>, b: seq<byte>, idx: map<nat, nat>, probes: seq<(nat, nat)>, m: Match)
    requires IndexFits(idx, |a|, 0) && ItemsFit(probes, |b|, 0) && |probes| == 3
    requires probes[0].0 in idx && probes[1].0 !in idx && probes[2].0 in idx
    requires ExpandMatch(a, b, idx[probes[0].0], probes[0].1) == Some(m)
    requires ExpandMatch(a, b, idx[probes[2].0], probes[2].1) == Some(m)
    ensures CandidatesAsWritten(a, b, idx, probes) == Some([m, m])
  {
    var t1 := probes[1..];
    var t2 := t1[1..];
    assert t2[1..] == [] && t2[0] == probes[2] && t1[0] == probes[1];
    HitStep(a, b, idx, probes, m);
    MissStep(a, b, idx, t1);
    assert CandidatesAsWritten(a, b, idx, t2[1..]) == Some([]);
    HitStepSome(a, b, idx, t2, m, []);
    assert [m] + [] == [m];
    HitStepSome(a, b, idx, probes, m, [m]);
    assert [m] + [m] == [m, m];
  }

  /** A probe whose hash is not in the index adds nothing. */
  lemma MissStep(a: seq<byte>, b: seq<byte>, idx: map<nat, nat>, items: seq<(nat, nat)>)
    requires IndexFits(idx, |a|, 0) && ItemsFit(items, |b|, 0) && items != [] && items[0].0 !in idx
    ensures ItemsFit(items[1..], |b|, 0)
    ensures CandidatesAsWritten(a, b, idx, items) == CandidatesAsWritten(a, b, idx, items[1..])
  {
  }

  /** A probe that hits and expands to m puts m in front of the rest's expansions. */
  lemma HitStep(a: seq<byte>, b: seq<byte>, idx: map<nat, nat>, items: seq<(nat, nat)>, m: Match)
    requires IndexFits(idx, |a|, 0) && ItemsFit(items, |b|, 0) && items != []
    requires items[0].0 in idx && ExpandMatch(a, b, idx[items[0].0], items[0].1) == Some(m)
    ensures ItemsFit(items[1..], |b|, 0)
    ensures var rest := CandidatesAsWritten(a, b, idx, items[1..]);
      CandidatesAsWritten(a, b, idx, items) == if rest.None? then None else Some([m] + rest.value)
  {
  }

  /**
   * Runs shorter than the minimum match length also come from the merge, with no
   * hash collision: with window length 2, both hits of b = [1,2,3,4,5] in
   * a = [0,1,2,3,4,9,3,4,5,0] are confirmed and expand into 4- and 3-byte runs,
   * and the merge trims the second, which overlaps the first, to one byte.
   */
  lemma DeltaTrimmedBelowMinimum(a: seq<byte>, b: seq<byte>)
    requires a == [0, 1, 2, 3, 4, 9, 3, 4, 5, 0] && b == [1, 2, 3, 4, 5]
    ensures DeltaSpec(a, b, 3) == [Match(1, 4, 0, 3), Match(8, 8, 4, 4)]
    ensures DeltaAsWritten(a, b, 3) == Some([Match(1, 4, 0, 3), Match(8, 8, 4, 4)])
  {
    TrimWindowsOfA(a);
    TrimWindowsOfB(b);
    TrimIndex(Windows(a, 2, 2));
    var idx := BuildIndex(Windows(a, 2, 2));
    var probes := Windows(b, 2, 1);
    TrimCandidates(a, b, idx, probes);
    TrimMerge(Match(1, 4, 0, 3), Match(6, 8, 2, 4));
  }

  lemma TrimWindowsOfA(a: seq<byte>)
    requires a == [0, 1, 2, 3, 4, 9, 3, 4, 5, 0]
    ensures Windows(a, 2, 2) == [(102, 0), (304, 2), (510, 4), (405, 6), (601, 8)]
  {
    assert Poly([0, 1]) == 102 by { assert [0, 1][..1] == [0]; }
    assert Poly([2, 3]) == 304 by { assert [2, 3][..1] == [2]; }
    assert Poly([4, 9]) == 510 by { assert [4, 9][..1] == [4]; }
    assert Poly([3, 4]) == 405 by { assert [3, 4][..1] == [3]; }
    assert Poly([5, 0]) == 601 by { assert [5, 0][..1] == [5]; }
    assert a[0..2] == [0, 1] && a[2..4] == [2, 3] && a[4..6] == [4, 9] && a[6..8] == [3, 4] && a[8..10] == [5, 0];
    assert Rest(a, 2, 2, 8) == [];
    assert Rest(a, 2, 2, 6) == [(601, 8)];
    assert Rest(a, 2, 2, 4) == [(405, 6), (601, 8)];
    assert Rest(a, 2, 2, 2) == [(510, 4), (405, 6), (601, 8)];
  }

  lemma TrimWindowsOfB(b: seq<byte>)
    requires b == [1, 2, 3, 4, 5]
    ensures Windows(b, 2, 1) == [(203, 0), (304, 1), (405, 2), (506, 3)]
  {
    assert Poly([1, 2]) == 203 by { assert [1, 2][..1] == [1]; }
    assert Poly([2, 3]) == 304 by { assert [2, 3][..1] == [2]; }
    assert Poly([3, 4]) == 405 by { assert [3, 4][..1] == [3]; }
    assert Poly([4, 5]) == 506 by { assert [4, 5][..1] == [4]; }
    assert b[0..2] == [1, 2] && b[1..3] == [2, 3] && b[2..4] == [3, 4] && b[3..5] == [4, 5];
    assert Rest(b, 2, 1, 3) == [];
    assert Rest(b, 2, 1, 2) == [(506, 3)];
    assert Rest(b, 2, 1, 1) == [(405, 2), (506, 3)];
  }

  lemma TrimIndex(wa: seq<(nat, nat)>)
    requires wa == [(102, 0), (304, 2), (510, 4), (405, 6), (601, 8)]
    ensures BuildIndex(wa) == map[102 := 0, 304 := 2, 510 := 4, 405 := 6, 601 := 8]
  {
    assert wa[..1] == [(102, 0)] && wa[..1][..0] == [];
    assert wa[..2][..1] == wa[..1] && wa[..3][..2] == wa[..2] && wa[..4][..3] == wa[..3];
    assert wa[..5][..4] == wa[..4] && wa[..5] == wa;
    assert BuildIndex(wa[..1]) == map[102 := 0];
    assert BuildIndex(wa[..2]) == map[102 := 0, 304 := 2];
    assert BuildIndex(wa[..3]) == map[102 := 0, 304 := 2, 510 := 4];
    assert BuildIndex(wa[..4]) == map[102 := 0, 304 := 2, 510 := 4, 405 := 6];
  }

  /** The hit (2, 1) grows into a[1..=4], b[0..=3]. */
  lemma TrimHitFirst(a: seq<byte>, b: seq<byte>)
    requires a == [0, 1, 2, 3, 4, 9, 3, 4, 5, 0] && b == [1, 2, 3, 4, 5]
    ensures ExpandMatch(a, b, 2, 1) == Some(Match(1, 4, 0, 3))
    ensures a[2..4] == b[1..3]
  {
    var m := Match(1, 4, 0, 3);
    assert a[1..5] == b[0..4] && a[5] != b[4];
    assert MaximalRunAt(a, b, 2, 1, m);
    MaximalRunUnique(a, b, 2, 1, m, ExpandMatch(a, b, 2, 1).value);
    assert a[2..4] == b[1..3];
  }

  /** The hit (6, 2) grows into a[6..=8], b[2..=4]. */
  lemma TrimHitSecond(a: seq<byte>, b: seq<byte>)
    requires a == [0, 1, 2, 3, 4, 9, 3, 4, 5, 0] && b == [1, 2, 3, 4, 5]
    ensures ExpandMatch(a, b, 6, 2) == Some(Match(6, 8, 2, 4))
    ensures a[6..8] == b[2..4]
  {
    var m := Match(6, 8, 2, 4);
    assert a[6..9] == b[2..5] && a[5] != b[1];
    assert MaximalRunAt(a, b, 6, 2, m);
    MaximalRunUnique(a, b, 6, 2, m, ExpandMatch(a, b, 6, 2).value);
    assert a[6..8] == b[2..4];
  }

  /** Both hits are confirmed, so the source's expansions and the confirmed ones agree. */
  lemma TrimCandidates(a: seq<byte>, b: seq<byte>, idx: map<nat, nat>, probes: seq<(nat, nat)>)
    requires a == [0, 1, 2, 3, 4, 9, 3, 4, 5, 0] && b == [1, 2, 3, 4, 5]
    requires idx == map[102 := 0, 304 := 2, 510 := 4, 405 := 6, 601 := 8]
    requires probes == [(203, 0), (304, 1), (405, 2), (506, 3)]
    ensures IndexFits(idx, |a|, 2) && ItemsFit(probes, |b|, 2)
    ensures IndexFits(idx, |a|, 0) && ItemsFit(probes, |b|, 0)
    ensures Candidates(a, b, 2, idx, probes) == [Match(1, 4, 0, 3), Match(6, 8, 2, 4)]
    ensures CandidatesAsWritten(a, b, idx, probes) == Some([Match(1, 4, 0, 3), Match(6, 8, 2, 4)])
  {
    assert IndexFits(idx, |a|, 2) && ItemsFit(probes, |b|, 2);
    assert IndexFits(idx, |a|, 0) && ItemsFit(probes, |b|, 0);
    assert probes[0].0 !in idx && probes[3].0 !in idx && probes[1].0 in idx && probes[2].0 in idx;
    assert idx[probes[1].0] == 2 && probes[1].1 == 1 && idx[probes[2].0] == 6 && probes[2].1 == 2;
    TrimHitFirst(a, b);
    TrimHitSecond(a, b);
    MissConfirmedConfirmedMiss(a, b, 2, idx, probes, Match(1, 4, 0, 3), Match(6, 8, 2, 4));
    MissHitHitMiss(a, b, idx, probes, Match(1, 4, 0, 3), Match(6, 8, 2, 4));
  }

  /** Four probes where the inner two are confirmed hits expanding to m1 and m2. */
  lemma MissConfirmedConfirmedMiss(a: seq<byte>, b: seq<byte>, k: nat, idx: map<nat, nat>, probes: seq<(nat, nat)>, m1: Match, m2: Match)
    requires IndexFits(idx, |a|, k) && ItemsFit(probes, |b|, k) && |probes| == 4
    requires probes[0].0 !in idx && probes[3].0 !in idx && probes[1].0 in idx && probes[2].0 in idx
    requires Confirmed(a, b, k, idx[probes[1].0], probes[1].1)
    requires Confirmed(a, b, k, idx[probes[2].0], probes[2].1)
    requires ExpandMatch(a, b, idx[probes[1].0], probes[1].1) == Some(m1)
    requires ExpandMatch(a, b, idx[probes[2].0], probes[2].1) == Some(m2)
    ensures Candidates(a, b, k, idx, probes) == [m1, m2]
  {
    var t1 := probes[1..];
    var t2 := t1[1..];
    var t3 := t2[1..];
    assert t1[0] == probes[1] && t2[0] == probes[2] && t3[0] == probes[3] && t3[1..] == [];
    assert Candidates(a, b, k, idx, t3) == [] by {
      SkipStep(a, b, k, idx, t3);
    }
    assert Candidates(a, b, k, idx, t2) == [m2] by {
      ConfirmedStep(a, b, k, idx, t2, m2);
      assert [m2] + [] == [m2];
    }
    assert Candidates(a, b, k, idx, t1) == [m1, m2] by {
      ConfirmedStep(a, b, k, idx, t1, m1);
    }
    SkipStep(a, b, k, idx, probes);
  }

  /** Four probes where the inner two hit and expand to m1 and m2. */
  lemma MissHitHitMiss(a: seq<byte>, b: seq<byte>, idx: map<nat, nat>, probes: seq<(nat, nat)>, m1: Match, m2: Match)
    requires IndexFits(idx, |a|, 0) && ItemsFit(probes, |b|, 0) && |probes| == 4
    requires probes[0].0 !in idx && probes[3].0 !in idx && probes[1].0 in idx && probes[2].0 in idx
    requires ExpandMatch(a, b, idx[probes[1].0], probes[1].1) == Some(m1)
    requires ExpandMatch(a, b, idx[probes[2].0], probes[2].1) == Some(m2)
    ensures CandidatesAsWritten(a, b, idx, probes) == Some([m1, m2])
  {
    var t1 := probes[1..];
    var t2 := t1[1..];
    var t3 := t2[1..];
    assert t1[0] == probes[1] && t2[0] == probes[2] && t3[0] == probes[3] && t3[1..] == [];
    MissStep(a, b, idx, probes);
    MissStep(a, b, idx, t3);
    assert CandidatesAsWritten(a, b, idx, t3) == Some([]);
    HitStepSome(a, b, idx, t2, m2, []);
    assert [m2] + [] == [m2];
    HitStepSome(a, b, idx, t1, m1, [m2]);
    assert [m1] + [m2] == [m1, m2];
  }

  /** A probe that hits and expands to m, in front of probes whose expansions are rest. */
  lemma HitStepSome(a: seq<byte>, b: seq<byte>, idx: map<nat, nat>, items: seq<(nat, nat)>, m: Match, rest: seq<Match>)
    requires IndexFits(idx, |a|, 0) && ItemsFit(items, |b|, 0) && items != []
    requires items[0].0 in idx && ExpandMatch(a, b, idx[items[0].0], items[0].1) == Some(m)
    requires ItemsFit(items[1..], |b|, 0) && CandidatesAsWritten(a, b, idx, items[1..]) == Some(rest)
    ensures CandidatesAsWritten(a, b, idx, items) == Some([m] + rest)
  {
    HitStep(a, b, idx, items, m);
  }

  /** m2 starts inside m1 and ends after it, so the merge trims it to start right after m1. */
  lemma TrimMerge(m1: Match, m2: Match)
    requires m1 == Match(1, 4, 0, 3) && m2 == Match(6, 8, 2, 4)
    ensures Merged([m1, m2]) == [m1, Match(8, 8, 4, 4)]
  {
    assert [m1, m2][..1] == [m1] && [m1][..0] == [];
    assert SortByLb([m1, m2]) == [m1, m2];
    assert [m1, m2][1..] == [m2] && [m2][1..] == [];
    assert Scan([m2], 4) == [Match(8, 8, 4, 4)];
  }

  /** The source's delta test: "abcd" is found inside "xxabcdxx", once. */
  lemma DeltaAbcd(a: seq<byte>, b: seq<byte>)
    requires a == [120, 120, 97, 98, 99, 100, 120, 120] && b == [97, 98, 99, 100]
    ensures DeltaSpec(a, b, 4) == [Match(2, 5, 0, 3)]
    ensures DeltaAsWritten(a, b, 4) == Some([Match(2, 5, 0, 3)])
  {
    AbcdWindows(a, b);
    AbcdCandidates(a, b, BuildIndex(Windows(a, 2, 2)), Windows(b, 2, 1));
    AbcdCandidatesAsWritten(a, b, BuildIndex(Windows(a, 2, 2)), Windows(b, 2, 1));
    MergedDuplicate(Match(2, 5, 0, 3));
  }
}
