/**
 * The delta search: index the reference buffer a by the hashes of its windows at
 * stride hashLen, scan the target buffer b at stride 1, grow every hash hit into
 * the maximal equal run around it, and merge the runs into an ordered cover of b.
 */
module Delta {
  import opened Basics
  import opened ModArith
  import opened Rolling
  import opened Expand
  import opened Merge

  /**
   * The window length for a minimum match length: half of it, rounded up, so
   * that a run of minMatchLen bytes always holds a whole window aligned on a
   * multiple of the window length.
   */
  function HashLen(minMatchLen: nat): (h: nat)
    ensures minMatchLen <= 2 * h <= minMatchLen + 1
  {
    (minMatchLen + 1) / 2
  }

  /** The index over a: (hash, start) pairs inserted in order, a later start replacing an earlier one. */
  function BuildIndex(items: seq<(nat, nat)>): (r: map<nat, nat>)
    ensures |r| <= |items|
    decreases |items|
  {
    if items == [] then map[]
    else BuildIndex(items[..|items| - 1])[items[|items| - 1].0 := items[|items| - 1].1]
  }

  /**
   * A hash is a key of the index exactly when some item carries it, and then it
   * maps to the start of the last item that carries it.
   */
  lemma {:induction false} IndexLookup(items: seq<(nat, nat)>, h: nat)
    ensures h in BuildIndex(items) <==> exists i :: 0 <= i < |items| && items[i].0 == h
    ensures h in BuildIndex(items) ==>
      exists i :: 0 <= i < |items| && items[i] == (h, BuildIndex(items)[h])
        && forall j :: i < j < |items| ==> items[j].0 != h
    decreases |items|
  {
    if items != [] {
      var n := |items| - 1;
      var pre := items[..n];
      IndexLookup(pre, h);
      if items[n].0 == h {
        assert items[n] == (h, BuildIndex(items)[h]);
      } else {
        assert BuildIndex(items) == BuildIndex(pre)[items[n].0 := items[n].1];
        if exists i :: 0 <= i < |items| && items[i].0 == h {
          var i :| 0 <= i < |items| && items[i].0 == h;
          assert pre[i].0 == h;
        }
        if h in BuildIndex(items) {
          var i :| 0 <= i < |pre| && pre[i] == (h, BuildIndex(pre)[h])
            && forall j :: i < j < |pre| ==> pre[j].0 != h;
          assert items[i] == (h, BuildIndex(items)[h]);
          assert forall j :: i < j < |items| ==> items[j].0 != h by {
            forall j | i < j < |items|
              ensures items[j].0 != h
            {
              if j < n {
                assert items[j] == pre[j];
              }
            }
          }
        }
      }
    }
  }

  /** Every item starts a window of k bytes inside a buffer of length n. */
  ghost predicate ItemsFit(items: seq<(nat, nat)>, n: nat, k: nat)
  {
    forall i :: 0 <= i < |items| ==> items[i].1 + k <= n
  }

  /** Every value of the index starts a window of k bytes inside a buffer of length n. */
  ghost predicate IndexFits(idx: map<nat, nat>, n: nat, k: nat)
  {
    forall h :: h in idx ==> idx[h] + k <= n
  }

  lemma IndexFitsFrom(items: seq<(nat, nat)>, n: nat, k: nat)
    requires ItemsFit(items, n, k)
    ensures IndexFits(BuildIndex(items), n, k)
  {
    forall h | h in BuildIndex(items)
      ensures BuildIndex(items)[h] + k <= n
    {
      IndexLookup(items, h);
    }
  }

  /** The iterator's windows all have the requested length, since the clamp only bites when there are none. */
  lemma WindowsFit(data: seq<byte>, hashLen: nat, s: nat)
    requires s >= 1
    ensures ItemsFit(Windows(data, hashLen, s), |data|, hashLen)
  {
    WindowsShape(data, hashLen, s);
  }

  /** The hit of b's window at ib on a's window at ia is backed by equal bytes, not only equal hashes. */
  predicate Confirmed(a: seq<byte>, b: seq<byte>, k: nat, ia: nat, ib: nat)
  {
    1 <= k && ia + k <= |a| && ib + k <= |b| && a[ia..ia + k] == b[ib..ib + k]
  }

  /** A maximal run through a pair of equal k-byte windows reaches at least to their ends. */
  lemma MaximalCoversWindow(a: seq<byte>, b: seq<byte>, k: nat, ia: nat, ib: nat, m: Match)
    requires ia + k <= |a| && ib + k <= |b| && a[ia..ia + k] == b[ib..ib + k]
    requires MaximalRunAt(a, b, ia, ib, m)
    ensures ia + k <= m.ra + 1
  {
    WindowEqualAt(a, b, k, ia, ib, m.ra + 1);
  }

  /** Inside a pair of equal k-byte windows, the bytes at the same offset are equal. */
  lemma WindowEqualAt(a: seq<byte>, b: seq<byte>, k: nat, ia: nat, ib: nat, j: nat)
    requires ia + k <= |a| && ib + k <= |b| && a[ia..ia + k] == b[ib..ib + k]
    ensures ia <= j < ia + k ==> a[j] == b[ib + (j - ia)]
  {
    if ia <= j < ia + k {
      assert a[j] == a[ia..ia + k][j - ia];
    }
  }

  /** A confirmed hit expands, without panicking, to a maximal run at least one window long. */
  lemma ConfirmedExpansion(a: seq<byte>, b: seq<byte>, k: nat, ia: nat, ib: nat)
    requires Confirmed(a, b, k, ia, ib)
    ensures var r := ExpandMatch(a, b, ia, ib);
      r.Some? && Maximal(a, b, r.value) && k <= r.value.ra - r.value.la + 1
  {
    assert a[ia] == a[ia..ia + k][0];
    assert b[ib] == b[ib..ib + k][0];
    MaximalCoversWindow(a, b, k, ia, ib, ExpandMatch(a, b, ia, ib).value);
  }

  /**
   * The expansions of the confirmed hits of b's windows, in b's window order:
   * each is a maximal equal run at least one window long.
   */
  function Candidates(a: seq<byte>, b: seq<byte>, k: nat, idx: map<nat, nat>, items: seq<(nat, nat)>)
    : (r: seq<Match>)
    requires IndexFits(idx, |a|, k) && ItemsFit(items, |b|, k)
    ensures |r| <= |items|
    ensures forall i :: 0 <= i < |r| ==> Maximal(a, b, r[i]) && k <= r[i].ra - r[i].la + 1
    decreases |items|
  {
    if items == [] then
      []
    else
      var hb := items[0].0;
      var ib := items[0].1;
      var rest := Candidates(a, b, k, idx, items[1..]);
      if hb in idx && Confirmed(a, b, k, idx[hb], ib) then
        var ia := idx[hb];
        ConfirmedExpansion(a, b, k, ia, ib);
        [ExpandMatch(a, b, ia, ib).value] + rest
      else
        rest
  }

  /**
   * The expansions as the source computes them: every hash hit is expanded,
   * confirmed or not, and None stands for the panic of an expansion that underflows.
   */
  function CandidatesAsWritten(a: seq<byte>, b: seq<byte>, idx: map<nat, nat>, items: seq<(nat, nat)>)
    : (r: Option<seq<Match>>)
    requires IndexFits(idx, |a|, 0) && ItemsFit(items, |b|, 0)
    ensures r.Some? ==> |r.value| <= |items|
    decreases |items|
  {
    if items == [] then
      Some([])
    else
      var hb := items[0].0;
      var ib := items[0].1;
      var rest := CandidatesAsWritten(a, b, idx, items[1..]);
      if hb !in idx then
        rest
      else
        match ExpandMatch(a, b, idx[hb], ib)
        case None => None
        case Some(m) => if rest.None? then None else Some([m] + rest.value)
  }

  /** Every hash hit among the items is backed by equal windows. */
  ghost predicate NoFalseHits(a: seq<byte>, b: seq<byte>, k: nat, idx: map<nat, nat>, items: seq<(nat, nat)>)
  {
    forall i :: 0 <= i < |items| && items[i].0 in idx ==> Confirmed(a, b, k, idx[items[i].0], items[i].1)
  }

  /** When no hash hit is a collision, the source's expansions never panic and agree with the confirmed ones. */
  lemma {:induction false} CandidatesAgree(a: seq<byte>, b: seq<byte>, k: nat, idx: map<nat, nat>, items: seq<(nat, nat)>)
    requires IndexFits(idx, |a|, k) && ItemsFit(items, |b|, k)
    requires NoFalseHits(a, b, k, idx, items)
    ensures CandidatesAsWritten(a, b, idx, items) == Some(Candidates(a, b, k, idx, items))
    decreases |items|
  {
    if items != [] {
      var hb := items[0].0;
      var ib := items[0].1;
      assert NoFalseHits(a, b, k, idx, items[1..]) by {
        forall i | 0 <= i < |items[1..]| && items[1..][i].0 in idx
          ensures Confirmed(a, b, k, idx[items[1..][i].0], items[1..][i].1)
        {
          assert items[1..][i] == items[i + 1];
        }
      }
      CandidatesAgree(a, b, k, idx, items[1..]);
      if hb in idx {
        assert Confirmed(a, b, k, idx[hb], ib);
        ConfirmedExpansion(a, b, k, idx[hb], ib);
      }
    }
  }

  /** The delta of b against a, with every hash hit confirmed before it is expanded. */
  function DeltaSpec(a: seq<byte>, b: seq<byte>, minMatchLen: nat): (r: seq<Match>)
    requires minMatchLen >= 1
    ensures forall i :: 0 <= i < |r| ==> Genuine(a, b, r[i])
    ensures forall i :: 0 <= i < |r| - 1 ==> r[i].rb < r[i + 1].lb
  {
    var h := HashLen(minMatchLen);
    var wa := Windows(a, h, h);
    var wb := Windows(b, h, 1);
    WindowsFit(a, h, h);
    WindowsFit(b, h, 1);
    IndexFitsFrom(wa, |a|, h);
    var c := Candidates(a, b, h, BuildIndex(wa), wb);
    MergedCover(a, b, c);
    Merged(c)
  }

  /** The delta as the source computes it; None stands for a panic in an expansion. */
  function DeltaAsWritten(a: seq<byte>, b: seq<byte>, minMatchLen: nat): (r: Option<seq<Match>>)
    requires minMatchLen >= 1
    ensures r.Some? ==> forall i :: 0 <= i < |r.value| - 1 ==> r.value[i].rb < r.value[i + 1].lb
  {
    var h := HashLen(minMatchLen);
    var wa := Windows(a, h, h);
    var wb := Windows(b, h, 1);
    WindowsFit(a, h, h);
    WindowsFit(b, h, 1);
    IndexFitsFrom(wa, |a|, 0);
    match CandidatesAsWritten(a, b, BuildIndex(wa), wb)
    case None => None
    case Some(c) =>
      ScanSeparated(SortByLb(c), 0);
      Some(Merged(c))
  }

  /** Without hash collisions among the hits, the source's delta is the confirmed one. */
  lemma DeltaAgrees(a: seq<byte>, b: seq<byte>, minMatchLen: nat)
    requires minMatchLen >= 1
    requires var h := HashLen(minMatchLen);
      NoFalseHits(a, b, h, BuildIndex(Windows(a, h, h)), Windows(b, h, 1))
    ensures DeltaAsWritten(a, b, minMatchLen) == Some(DeltaSpec(a, b, minMatchLen))
  {
    var h := HashLen(minMatchLen);
    WindowsFit(a, h, h);
    WindowsFit(b, h, 1);
    IndexFitsFrom(Windows(a, h, h), |a|, h);
    CandidatesAgree(a, b, h, BuildIndex(Windows(a, h, h)), Windows(b, h, 1));
  }

  /**
   * The corrected delta, with the source's steps: collect a's windows at stride
   * hashLen into the index, collect b's windows at stride 1, expand the hits and
   * merge; unlike the source, a hit is expanded only when the two windows really
   * are equal. The source's own delta is DeltaAsWritten.
   */
  method Delta(a: seq<byte>, b: seq<byte>, minMatchLen: nat) returns (r: seq<Match>)
    requires minMatchLen >= 1
    ensures r == DeltaSpec(a, b, minMatchLen)
    ensures forall i :: 0 <= i < |r| ==> Genuine(a, b, r[i])
    ensures forall i :: 0 <= i < |r| - 1 ==> r[i].rb < r[i + 1].lb
  {
    var hashLen := HashLen(minMatchLen);
    var windows := CollectWindows(a, hashLen, hashLen);
    var hashes: map<nat, nat> := map[];
    for i := 0 to |windows|
      invariant hashes == BuildIndex(windows[..i])
    {
      assert windows[..i + 1][..i] == windows[..i];
      hashes := hashes[windows[i].0 := windows[i].1];
    }
    assert windows[..|windows|] == windows;
    var probes := CollectWindows(b, hashLen, 1);
    WindowsFit(a, hashLen, hashLen);
    WindowsFit(b, hashLen, 1);
    IndexFitsFrom(windows, |a|, hashLen);
    var matches := Candidates(a, b, hashLen, hashes, probes);
    r := MergeMatches(matches);
  }

  lemma {:induction false} CandidatesWithoutHits(a: seq<byte>, b: seq<byte>, k: nat, idx: map<nat, nat>, items: seq<(nat, nat)>)
    requires IndexFits(idx, |a|, k) && ItemsFit(items, |b|, k)
    requires forall i :: 0 <= i < |items| ==> items[i].0 !in idx
    ensures Candidates(a, b, k, idx, items) == []
    ensures IndexFits(idx, |a|, 0) && ItemsFit(items, |b|, 0)
    ensures CandidatesAsWritten(a, b, idx, items) == Some([])
    decreases |items|
  {
    if items != [] {
      assert items[0].0 !in idx;
      assert forall i :: 0 <= i < |items[1..]| ==> items[1..][i] == items[i + 1];
      CandidatesWithoutHits(a, b, k, idx, items[1..]);
    }
  }

  /**
   * Nothing is found when b is no longer than one window (b yields no window),
   * or when a is shorter than two windows (a yields no window at all, not even
   * the one at 0), whatever the contents.
   */
  lemma DeltaEmptyWhenShort(a: seq<byte>, b: seq<byte>, minMatchLen: nat)
    requires minMatchLen >= 1
    requires |b| <= HashLen(minMatchLen) || |a| < 2 * HashLen(minMatchLen)
    ensures DeltaSpec(a, b, minMatchLen) == []
    ensures DeltaAsWritten(a, b, minMatchLen) == Some([])
  {
    var h := HashLen(minMatchLen);
    var wa := Windows(a, h, h);
    var wb := Windows(b, h, 1);
    WindowsShape(a, h, h);
    WindowsShape(b, h, 1);
    WindowsFit(a, h, h);
    WindowsFit(b, h, 1);
    IndexFitsFrom(wa, |a|, h);
    if |a| < 2 * h {
      assert wa == [];
      assert BuildIndex(wa) == map[];
    } else {
      assert wb == [];
    }
    CandidatesWithoutHits(a, b, h, BuildIndex(wa), wb);
  }

  /** Rounding x up to a multiple of h moves it by less than h. */
  lemma AlignUp(x: nat, h: nat) returns (i: nat)
    requires h >= 1
    ensures x <= i * h <= x + h - 1
  {
    i := (x + h - 1) / h;
  }

  /** A run of at least minMatchLen bytes from x holds a whole window aligned on a multiple of h. */
  lemma AlignedInRun(x: nat, len: nat, h: nat, minMatchLen: nat) returns (i: nat, p: nat)
    requires 1 <= minMatchLen <= len && h == HashLen(minMatchLen)
    ensures h >= 1 && p == i * h && x <= p && p + h <= x + len
  {
    i := AlignUp(x, h);
    p := i * h;
  }

  lemma DivLower(n: nat, s: nat, i: nat)
    requires s >= 1 && i * s <= n
    ensures i <= n / s
  {
    if i > n / s {
      MulMono(i - n / s, s);
    }
  }

  /** The window of a at any multiple p of h with room for it is indexed, with its hash. */
  lemma AlignedWindow(a: seq<byte>, h: nat, i: nat, p: nat)
    requires h >= 1 && 2 * h <= |a| && p == i * h && p + h <= |a|
    ensures i < |Windows(a, h, h)| && Windows(a, h, h)[i] == (WindowHash(a, p, h), p)
  {
    WindowsShape(a, h, h);
    DivLower(|a| - h, h, i);
  }

  /** The scan over b at stride 1 meets every window with room for it. */
  lemma ProbeWindow(b: seq<byte>, h: nat, q: nat)
    requires 1 <= h < |b| && q + h <= |b|
    ensures q < |Windows(b, h, 1)| && Windows(b, h, 1)[q] == (WindowHash(b, q, h), q)
  {
    WindowsShape(b, h, 1);
  }

  /**
   * Every run that a and b share of at least minMatchLen bytes is seen: the scan
   * over b meets a window inside the run whose hash is a key of the index over a.
   * This holds because the run covers a whole window of a aligned on a multiple
   * of the window length, and b's window over the same bytes has the same hash.
   */
  lemma LongRunIsHit(a: seq<byte>, b: seq<byte>, minMatchLen: nat, x: nat, y: nat, len: nat)
    requires 1 <= minMatchLen <= len
    requires x + len <= |a| && y + len <= |b| && a[x..x + len] == b[y..y + len]
    requires 2 * HashLen(minMatchLen) <= |a| && HashLen(minMatchLen) < |b|
    ensures var h := HashLen(minMatchLen);
      var wb := Windows(b, h, 1);
      exists j :: 0 <= j < |wb| && y <= wb[j].1 && wb[j].1 + h <= y + len
        && wb[j].0 in BuildIndex(Windows(a, h, h))
  {
    var h := HashLen(minMatchLen);
    var i, p := AlignedInRun(x, len, h, minMatchLen);
    var q := y + (p - x);
    AlignedKey(a, h, i, p);
    SameWindowHash(a, b, x, y, len, p, h);
    ProbeWindow(b, h, q);
    var wb := Windows(b, h, 1);
    assert 0 <= q < |wb| && y <= wb[q].1 && wb[q].1 + h <= y + len;
  }

  /** The hash of an aligned window of a is a key of the index over a. */
  lemma AlignedKey(a: seq<byte>, h: nat, i: nat, p: nat)
    requires h >= 1 && 2 * h <= |a| && p == i * h && p + h <= |a|
    ensures WindowHash(a, p, h) in BuildIndex(Windows(a, h, h))
  {
    var wa := Windows(a, h, h);
    AlignedWindow(a, h, i, p);
    assert wa[i].0 == WindowHash(a, p, h);
    IndexLookup(wa, WindowHash(a, p, h));
  }

  /** Windows over the same bytes of a shared run have the same hash. */
  lemma SameWindowHash(a: seq<byte>, b: seq<byte>, x: nat, y: nat, len: nat, p: nat, h: nat)
    requires x + len <= |a| && y + len <= |b| && a[x..x + len] == b[y..y + len]
    requires x <= p && p + h <= x + len
    ensures WindowHash(a, p, h) == WindowHash(b, y + (p - x), h)
  {
    var q := y + (p - x);
    var wa, wb := a[p..p + h], b[q..q + h];
    forall k | 0 <= k < h
      ensures wa[k] == wb[k]
    {
      assert a[p + k] == a[x..x + len][p - x + k];
      assert b[q + k] == b[y..y + len][p - x + k];
    }
    assert wa == wb;
  }


}
