/**
 * The polynomial rolling hash over a byte buffer: a window of k bytes hashes to
 * the sum of (byte + 1) * 100^(k-1-i) modulo M, and the iterator yields the
 * hash of every stride-th window together with the window's start offset.
 */
module Rolling {
  import opened Basics
  import opened ModArith

  /** The base of the polynomial hash. */
  const Base: nat := 100

  /** The digit a byte contributes: its value plus one, so that no digit is zero. */
  function Digit(x: byte): (d: nat)
    ensures 1 <= d <= 256
  {
    x + 1
  }

  /**
   * The exact (unreduced) polynomial of a window, in Horner form: each further
   * byte multiplies what came before by the base and adds its digit.
   */
  function Poly(w: seq<byte>): nat
  {
    if |w| == 0 then 0 else Base * Poly(w[..|w| - 1]) + Digit(w[|w| - 1])
  }

  /** The hash of the window of length k starting at p. */
  function WindowHash(data: seq<byte>, p: nat, k: nat): nat
    requires p + k <= |data|
  {
    Poly(data[p..p + k]) % M
  }

  /**
   * The sum of the first i terms Digit(w[j]) * Base^(k-1-j) of the hash polynomial
   * of a window of length k; what the initial loop accumulates.
   */
  function TermSum(w: seq<byte>, k: nat, i: nat): nat
    requires i <= k <= |w|
  {
    if i == 0 then 0 else TermSum(w, k, i - 1) + Digit(w[i - 1]) * Pow(Base, k - i)
  }

  lemma {:induction false} PowPositive(n: nat)
    ensures Pow(Base, n) >= 1
  {
    if n > 0 {
      PowPositive(n - 1);
    }
  }

  /** A first byte x contributes Digit(x) * Base^|v| on top of the polynomial of the rest. */
  lemma {:induction false} PolyPrepend(x: byte, v: seq<byte>)
    ensures Poly([x] + v) == Digit(x) * Pow(Base, |v|) + Poly(v)
    decreases |v|
  {
    if |v| == 0 {
      assert [x] + v == [x];
      assert [x][..0] == [];
    } else {
      var v' := v[..|v| - 1];
      var y := v[|v| - 1];
      assert ([x] + v)[..|v|] == [x] + v';
      PolyPrepend(x, v');
      var d := Digit(x);
      var p := Pow(Base, |v'|);
      assert Base * (d * p + Poly(v')) == d * (Base * p) + Base * Poly(v');
    }
  }

  /** A leading zero byte never aliases the shorter window: the +1 digit offset makes it count. */
  lemma PolyLeadingZero(w: seq<byte>)
    ensures Poly([0] + w) > Poly(w)
  {
    PolyPrepend(0, w);
    PowPositive(|w|);
  }

  /** The partial sum of the first i terms is Base^(k-i) times the polynomial of w[..i]. */
  lemma {:induction false} TermSumScaled(w: seq<byte>, k: nat, i: nat)
    requires i <= k <= |w|
    ensures TermSum(w, k, i) == Pow(Base, k - i) * Poly(w[..i])
    decreases i
  {
    if i == 0 {
      assert w[..0] == [];
    } else {
      TermSumScaled(w, k, i - 1);
      assert w[..i][..i - 1] == w[..i - 1];
      var p := Pow(Base, k - i);
      var q := Poly(w[..i - 1]);
      var d := Digit(w[i - 1]);
      assert Pow(Base, k - (i - 1)) == Base * p;
      assert Poly(w[..i]) == Base * q + d;
      assert (Base * p) * q + d * p == p * (Base * q + d);
    }
  }

  /** The hash polynomial is the sum of Digit(w[i]) * Base^(|w|-1-i) over the whole window. */
  lemma PolyIsTermSum(w: seq<byte>)
    ensures Poly(w) == TermSum(w, |w|, |w|)
  {
    TermSumScaled(w, |w|, |w|);
    assert w[..|w|] == w;
  }

  /** Dropping the first byte and appending x, on exact polynomials of a window of length >= 1. */
  lemma PolySlide(w: seq<byte>, x: byte)
    requires 1 <= |w|
    ensures Poly(w[1..] + [x]) + Pow(Base, |w|) * Digit(w[0]) == Base * Poly(w) + Digit(x)
  {
    var t := w[1..];
    PolySnoc(t, x);
    assert Poly(w) == Digit(w[0]) * Pow(Base, |t|) + Poly(t) by {
      assert w == [w[0]] + t;
      PolyPrepend(w[0], t);
    }
    assert Pow(Base, |w|) == Base * Pow(Base, |t|);
    SlideArith(Poly(w), Poly(t), Poly(t + [x]), Digit(w[0]), Digit(x), Pow(Base, |t|), Pow(Base, |w|));
  }

  /** Appending x shifts the polynomial by one place and adds x's digit. */
  lemma PolySnoc(t: seq<byte>, x: byte)
    ensures Poly(t + [x]) == Base * Poly(t) + Digit(x)
  {
    assert (t + [x])[..|t|] == t;
  }

  lemma SlideArith(pw: int, tail: int, shifted: int, d: int, dx: int, p: int, pk: int)
    requires pw == d * p + tail && shifted == Base * tail + dx && pk == Base * p
    ensures shifted + pk * d == Base * pw + dx
  {
  }

  lemma MulDistrib(x: int, y: int, z: int)
    ensures x * (y + z) == x * y + x * z
  {
  }

  /**
   * The O(1) update of the iterator, computed with reduced operands and an added M
   * so that the subtraction cannot go below zero, gives the hash of the next window.
   */
  lemma RollStep(data: seq<byte>, j: nat, k: nat)
    requires j + k < |data|
    ensures (Base * WindowHash(data, j, k) % M + Digit(data[j + k]) + M
             - ModPow(Base, k) * Digit(data[j]) % M) % M
         == WindowHash(data, j + 1, k)
  {
    var d1 := Digit(data[j]);
    var d2 := Digit(data[j + k]);
    if k == 0 {
      assert data[j..j] == [] && data[j + 1..j + 1] == [];
      assert ModPow(Base, 0) * d1 % M == d1;
      assert (0 + d2 + M - d1) % M == 0;
    } else {
      var x := Base * Poly(data[j..j + k]);
      var y := Pow(Base, k) * d1;
      assert data[j + 1..j + k + 1] == data[j..j + k][1..] + [data[j + k]];
      PolySlide(data[j..j + k], data[j + k]);
      MulMod(Poly(data[j..j + k]), Base);
      assert Base * WindowHash(data, j, k) == (Poly(data[j..j + k]) % M) * Base;
      MulMod(Pow(Base, k), d1);
      var v1 := Base * WindowHash(data, j, k) % M;
      var v3 := ModPow(Base, k) * d1 % M;
      assert v1 == x % M && v3 == y % M;
      assert v1 + d2 + M - v3 == (x + d2 - y) + M * (1 - x / M + y / M);
      ModShift(x + d2 - y, 1 - x / M + y / M);
    }
  }

  /** Every window the iterator yields after the first one, from start offset p onward. */
  function Rest(data: seq<byte>, k: nat, s: nat, p: nat): seq<(nat, nat)>
    requires s >= 1 && p + k <= |data|
    decreases |data| - p
  {
    if p + k + s > |data| then []
    else [(WindowHash(data, p + s, k), p + s)] + Rest(data, k, s, p + s)
  }

  /**
   * Everything a fresh iterator over data with the requested window length and
   * the given stride yields, in order.
   */
  function Windows(data: seq<byte>, hashLen: nat, s: nat): seq<(nat, nat)>
    requires s >= 1
  {
    var k := Min(|data|, hashLen);
    if k + s > |data| then [] else [(WindowHash(data, 0, k), 0)] + Rest(data, k, s, 0)
  }

  /** There are (|data| - k - p) / s windows after the one at p. */
  lemma {:induction false} RestLength(data: seq<byte>, k: nat, s: nat, p: nat)
    requires s >= 1 && p + k <= |data|
    ensures |Rest(data, k, s, p)| == (|data| - k - p) / s
    decreases |data| - p
  {
    var n := |data| - k - p;
    if p + k + s > |data| {
      DivUnique(n, s, 0, n);
    } else {
      RestLength(data, k, s, p + s);
      DivStep(n, s);
    }
  }

  /** The i-th window after p starts at p + (i+1)*s and carries its directly computed hash. */
  lemma {:induction false} RestAt(data: seq<byte>, k: nat, s: nat, p: nat, i: nat)
    requires s >= 1 && p + k <= |data| && i < |Rest(data, k, s, p)|
    ensures p + (i + 1) * s + k <= |data|
    ensures Rest(data, k, s, p)[i] == (WindowHash(data, p + (i + 1) * s, k), p + (i + 1) * s)
    decreases i
  {
    if i > 0 {
      RestAt(data, k, s, p + s, i - 1);
      assert Rest(data, k, s, p)[i] == Rest(data, k, s, p + s)[i - 1];
      MulSucc(i, s);
      assert p + s + (i - 1 + 1) * s == p + (i + 1) * s;
    }
  }

  lemma MulSucc(i: int, s: int)
    ensures (i + 1) * s == i * s + s
  {
  }

  lemma DivStep(n: nat, s: nat)
    requires 1 <= s <= n
    ensures n / s == (n - s) / s + 1
  {
    var q := (n - s) / s;
    var r := (n - s) % s;
    assert n - s == q * s + r;
    assert n == (q + 1) * s + r by {
      MulDistrib(s, q, 1);
      assert s * (q + 1) == (q + 1) * s && s * q == q * s;
    }
    DivUnique(n, s, q + 1, r);
  }

  /** Euclidean division is unique: n == q*s + r with 0 <= r < s fixes q. */
  lemma DivUnique(n: int, s: int, q: int, r: int)
    requires s >= 1 && 0 <= r < s && n == q * s + r
    ensures n / s == q
  {
    var q' := n / s;
    var r' := n % s;
    assert n == q' * s + r';
    assert (q' - q) * s == r - r' by {
      MulDistrib(s, q', -q);
      assert s * (q' + -q) == (q' - q) * s && s * q' == q' * s && s * -q == -(q * s);
    }
    if q' - q >= 1 {
      MulMono(q' - q, s);
    } else if q' - q <= -1 {
      assert (q - q') * s == -((q' - q) * s);
      MulMono(q - q', s);
    }
  }

  lemma MulMono(d: int, s: int)
    requires d >= 1 && s >= 1
    ensures d * s >= s
  {
    assert d * s == (d - 1) * s + s;
    assert (d - 1) * s >= 0;
  }

  /**
   * A fresh iterator with stride s >= 1 yields floor((len - k)/s) + 1 windows when
   * k + s <= len (k the clamped window length) and none otherwise; the i-th starts
   * at i*s, fits in the buffer, and carries the directly computed hash of its window.
   */
  lemma WindowsShape(data: seq<byte>, hashLen: nat, s: nat)
    requires s >= 1
    ensures var k := Min(|data|, hashLen);
      && |Windows(data, hashLen, s)| == (if k + s <= |data| then (|data| - k) / s + 1 else 0)
      && forall i :: 0 <= i < |Windows(data, hashLen, s)| ==>
           && Windows(data, hashLen, s)[i].1 == i * s
           && i * s + k <= |data|
           && Windows(data, hashLen, s)[i].0 == WindowHash(data, i * s, k)
           && Windows(data, hashLen, s)[i].0 < M
  {
    var k := Min(|data|, hashLen);
    var w := Windows(data, hashLen, s);
    WindowsLength(data, hashLen, s);
    forall i | 0 <= i < |w|
      ensures w[i].1 == i * s && i * s + k <= |data| && w[i].0 == WindowHash(data, i * s, k)
    {
      WindowsAt(data, hashLen, s, i);
    }
  }

  lemma WindowsLength(data: seq<byte>, hashLen: nat, s: nat)
    requires s >= 1
    ensures var k := Min(|data|, hashLen);
      |Windows(data, hashLen, s)| == (if k + s <= |data| then (|data| - k) / s + 1 else 0)
  {
    var k := Min(|data|, hashLen);
    if k + s <= |data| {
      RestLength(data, k, s, 0);
      assert |data| - k - 0 == |data| - k;
    }
  }

  lemma WindowsAt(data: seq<byte>, hashLen: nat, s: nat, i: nat)
    requires s >= 1 && i < |Windows(data, hashLen, s)|
    ensures var k := Min(|data|, hashLen);
      i * s + k <= |data| && Windows(data, hashLen, s)[i] == (WindowHash(data, i * s, k), i * s)
  {
    var k := Min(|data|, hashLen);
    if i == 0 {
      assert 0 * s == 0;
    } else {
      RestAt(data, k, s, 0, i - 1);
      assert Windows(data, hashLen, s)[i] == Rest(data, k, s, 0)[i - 1];
      assert 0 + (i - 1 + 1) * s == i * s;
    }
  }


  /**
   * The iterator over a byte buffer. The window length is clamped to the buffer
   * length on construction; the first call computes the hash of the window at 0
   * directly, and each later call advances stride positions by O(1) updates.
   */
  class RollingHash {
    const data: seq<byte>
    const hashLen: nat
    const stride: nat
    var index: nat
    var hash: Option<nat>

    ghost predicate Valid()
      reads this
    {
      && hashLen <= |data|
      && index + hashLen <= |data|
      && (hash.None? ==> index == 0)
      && (hash.Some? ==> hash.value == WindowHash(data, index, hashLen))
    }

    /** What the iterator will still yield from its current state. */
    ghost function Remaining(): seq<(nat, nat)>
      reads this
      requires Valid() && stride >= 1
    {
      if hash.None? then Windows(data, hashLen, stride) else Rest(data, hashLen, stride, index)
    }

    constructor (data: seq<byte>, hashLen: nat, stride: nat)
      ensures Valid()
      ensures this.data == data && this.hashLen == Min(|data|, hashLen) && this.stride == stride
      ensures index == 0 && hash == None
    {
      this.data := data;
      this.hashLen := Min(|data|, hashLen);
      this.stride := stride;
      index := 0;
      hash := None;
    }

    /** The hash of data[..hashLen], accumulated term by term with reduced powers. */
    static method CalcInitialHash(data: seq<byte>, hashLen: nat) returns (hash: nat)
      requires hashLen <= |data|
      ensures hash == Poly(data[..hashLen]) % M
    {
      hash := 0;
      for i := 0 to hashLen
        invariant hash == TermSum(data, hashLen, i) % M
      {
        InitialStep(data, hashLen, i, hash);
        hash := hash + ModPow(Base, hashLen - 1 - i) * Digit(data[i]);
        hash := hash % M;
      }
      TermSumScaled(data, hashLen, hashLen);
    }

    method Next() returns (item: Option<(nat, nat)>)
      requires Valid()
      modifies this
      ensures Valid()
      ensures old(index) + hashLen + stride > |data| ==>
                item == None && index == old(index) && hash == old(hash)
      ensures old(index) + hashLen + stride <= |data| && old(hash).None? ==>
                && index == 0
                && hash == Some(WindowHash(data, 0, hashLen))
                && item == Some((WindowHash(data, 0, hashLen), 0))
      ensures old(index) + hashLen + stride <= |data| && old(hash).Some? ==>
                && index == old(index) + stride
                && hash == Some(WindowHash(data, index, hashLen))
                && item == Some((WindowHash(data, index, hashLen), index))
      ensures stride >= 1 ==> old(Remaining()) == (if item.Some? then [item.value] else []) + Remaining()
      ensures stride >= 1 && item.None? ==> Remaining() == []
    {
      if index + hashLen + stride > |data| {
        return None;
      }
      if hash.None? {
        var h := CalcInitialHash(data, hashLen);
        assert data[..hashLen] == data[0..0 + hashLen];
        hash := Some(h);
        return Some((h, 0));
      }

      var h := Advance(data, hashLen, stride, index, hash.value);
      index := index + stride;
      hash := Some(h);
      item := Some((h, index));
    }

    /** The stride O(1) updates that carry the hash of the window at start to the window at start + stride. */
    static method Advance(data: seq<byte>, hashLen: nat, stride: nat, start: nat, h0: nat) returns (h: nat)
      requires start + hashLen + stride <= |data| && h0 == WindowHash(data, start, hashLen)
      ensures h == WindowHash(data, start + stride, hashLen)
    {
      h := h0;
      for i := 0 to stride
        invariant h == WindowHash(data, start + i, hashLen)
      {
        var j := start + i;
        var v1 := Base * h % M;
        var v2 := Digit(data[j + hashLen]);
        var v3 := ModPow(Base, hashLen) * Digit(data[j]) % M;
        RollStep(data, j, hashLen);
        h := (v1 + v2 + M - v3) % M;
      }
    }
  }

  /** One iteration of the initial loop adds the next term to the reduced partial sum. */
  lemma InitialStep(data: seq<byte>, k: nat, i: nat, h: nat)
    requires i < k <= |data| && h == TermSum(data, k, i) % M
    ensures (h + ModPow(Base, k - 1 - i) * Digit(data[i])) % M == TermSum(data, k, i + 1) % M
  {
    var t := Pow(Base, k - 1 - i);
    var d := Digit(data[i]);
    assert TermSum(data, k, i + 1) == TermSum(data, k, i) + t * d by {
      assert k - (i + 1) == k - 1 - i;
      assert d * t == t * d;
    }
    ModAddScaled(TermSum(data, k, i), t, d);
  }

  /** One step of the initial loop: adding a reduced power times a digit to a reduced sum. */
  lemma ModAddScaled(x: nat, t: nat, d: nat)
    ensures (x % M + (t % M) * d) % M == (x + t * d) % M
  {
    var qt := t / M;
    var rt := t % M;
    assert t * d == M * (qt * d) + rt * d by {
      assert t == M * qt + rt;
      calc {
        t * d;
        (M * qt + rt) * d;
        { MulDistrib(d, M * qt, rt); assert (M * qt + rt) * d == d * (M * qt + rt); }
        M * qt * d + rt * d;
      }
    }
    assert x + t * d == (x % M + rt * d) + M * (x / M + qt * d);
    ModShift(x % M + rt * d, x / M + qt * d);
  }

  /** Drains a fresh iterator, as collecting it into a container does. */
  method CollectWindows(data: seq<byte>, hashLen: nat, stride: nat) returns (items: seq<(nat, nat)>)
    requires stride >= 1
    ensures items == Windows(data, hashLen, stride)
  {
    var rh := new RollingHash(data, hashLen, stride);
    ghost var all := rh.Remaining();
    assert all == Windows(data, hashLen, stride) by {
      WindowsClamp(data, hashLen, stride);
    }
    items := [];
    var item := rh.Next();
    ghost var rest := all;
    while item.Some?
      invariant rh.Valid() && rh.stride == stride
      invariant item.None? ==> rh.Remaining() == []
      invariant rest == (if item.Some? then [item.value] else []) + rh.Remaining()
      invariant items + rest == all
      decreases |rest|
    {
      var v := item.value;
      ghost var later := rh.Remaining();
      assert items + rest == (items + [v]) + later;
      item := rh.Next();
      items := items + [v];
      rest := later;
    }
    assert rest == [];
  }

  /** Clamping the window length to the buffer length first changes nothing. */
  lemma WindowsClamp(data: seq<byte>, hashLen: nat, s: nat)
    requires s >= 1
    ensures Windows(data, Min(|data|, hashLen), s) == Windows(data, hashLen, s)
  {
    assert Min(|data|, Min(|data|, hashLen)) == Min(|data|, hashLen);
  }
}
