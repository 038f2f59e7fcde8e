/** Arithmetic modulo the hash modulus M = 10^9 + 7. */
module ModArith {

  /** The modulus every hash value is reduced by. */
  const M: nat := 1_000_000_007

  /** Exact integer power, the reference definition ModPow is proved against. */
  function Pow(a: nat, b: nat): nat
  {
    if b == 0 then 1 else a * Pow(a, b - 1)
  }

  /** Adding a multiple of M does not change the residue. */
  lemma ModShift(x: int, q: int)
    ensures (x + M * q) % M == x % M
  {
  }

  /** Reducing one factor before multiplying does not change the residue of the product. */
  lemma MulMod(x: nat, y: nat)
    ensures (x % M) * y % M == x * y % M
  {
    var q := x / M;
    var r := x % M;
    assert x == M * q + r;
    assert x * y == r * y + M * (q * y) by {
      calc {
        x * y;
        (M * q + r) * y;
        M * q * y + r * y;
      }
    }
    ModShift(r * y, q * y);
  }

  /** Reducing both factors before multiplying does not change the residue of the product. */
  lemma MulModBoth(x: nat, y: nat)
    ensures (x % M) * (y % M) % M == x * y % M
  {
    MulMod(x, y % M);
    assert x * (y % M) == (y % M) * x;
    MulMod(y, x);
    assert (y % M) * x % M == y * x % M;
  }

  lemma {:induction false} PowSquare(x: nat, n: nat)
    ensures Pow(x * x, n) == Pow(x, 2 * n)
  {
    if n > 0 {
      PowSquare(x, n - 1);
      calc {
        Pow(x * x, n);
        x * x * Pow(x * x, n - 1);
        x * x * Pow(x, 2 * n - 2);
        x * (x * Pow(x, 2 * n - 2));
        x * Pow(x, 2 * n - 1);
        Pow(x, 2 * n);
      }
    }
  }

  lemma {:induction false} PowMod(a: nat, b: nat)
    ensures Pow(a % M, b) % M == Pow(a, b) % M
  {
    if b > 0 {
      var am := a % M;
      var p := Pow(am, b - 1);
      var q := Pow(a, b - 1);
      PowMod(a, b - 1);
      assert p % M == q % M;
      assert Pow(am, b) == am * p && Pow(a, b) == a * q;
      MulModBoth(am, p);
      MulModBoth(a, q);
      assert am % M == am;
    }
  }

  /**
   * Square-and-multiply exponentiation, reducing the base first and the result
   * after every product, exactly as the recursion of the source does.
   */
  function ModPow(a: nat, b: nat): (r: nat)
    ensures r == Pow(a, b) % M
    ensures r < M
    ensures b == 0 ==> r == 1
    decreases b
  {
    if b == 0 then 1
    else
      var a' := a % M;
      if b % 2 == 0 then
        var r := ModPow(a' * a', b / 2) % M;
        EvenStep(a, b, ModPow(a' * a', b / 2));
        r
      else
        var r := a' * ModPow(a', b - 1) % M;
        OddStep(a, b, ModPow(a', b - 1));
        r
  }

  /** Squaring the reduced base and halving an even exponent keeps the residue of the power. */
  lemma EvenStep(a: nat, b: nat, rec: nat)
    requires b > 0 && b % 2 == 0 && rec == Pow((a % M) * (a % M), b / 2) % M
    ensures rec % M == Pow(a, b) % M
  {
    PowSquare(a % M, b / 2);
    assert 2 * (b / 2) == b;
    PowMod(a, b);
  }

  /** One multiplication by the reduced base before reducing keeps the residue of the power. */
  lemma OddStep(a: nat, b: nat, rec: nat)
    requires b > 0 && rec == Pow(a % M, b - 1) % M
    ensures (a % M) * rec % M == Pow(a, b) % M
  {
    var am := a % M;
    var p := Pow(am, b - 1);
    assert Pow(am, b) == am * p;
    MulModBoth(am, p);
    assert am % M == am;
    assert (rec % M) == rec;
    PowMod(a, b);
  }

  /** An intermediate call of the test below: 923521^10 recurses into (923521^2)^5. */
  lemma ModPowTestQuarter()
    ensures ModPow(891031477, 4) == 605109069
  {
    assert ModPow(793937093004801529, 2) == 605109069;
  }

  lemma ModPowTestHalfway()
    ensures ModPow(852891037441, 5) == 722966352
  {
    ModPowTestQuarter();
  }

  lemma ModPowTestThreeQuarters()
    ensures ModPow(961, 20) == 722966352
  {
    ModPowTestHalfway();
    assert ModPow(923521, 10) == 722966352;
  }

  /*
   * The last two steps take their arguments as parameters fixed by the
   * precondition: with literal arguments the verifier evaluates 31^41 in full.
   */
  lemma ModPowOf31To40(a: nat, b: nat)
    requires a == 31 && b == 40
    ensures ModPow(a, b) == 722966352
  {
    ModPowTestThreeQuarters();
    Unfold(a, b);
  }

  /** The value pinned down by the source's unit test for modpow: ModPow(31, 41) == 411956758. */
  lemma ModPowOf31To41(a: nat, b: nat)
    requires a == 31 && b == 41
    ensures ModPow(a, b) == 411956758
  {
    var x := ModPow(a, b - 1);
    assert x == 722966352 by {
      ModPowOf31To40(a, b - 1);
    }
    assert ModPow(a, b) == 31 * x % M by {
      Unfold(a, b);
    }
    assert 31 * x % M == 411956758;
  }

  /** One step of the recursion: squaring on an even exponent, one factor off an odd one. */
  lemma Unfold(a: nat, b: nat)
    requires b > 0
    ensures b % 2 == 0 ==> ModPow(a, b) == ModPow((a % M) * (a % M), b / 2) % M
    ensures b % 2 == 1 ==> ModPow(a, b) == (a % M) * ModPow(a % M, b - 1) % M
  {
  }
}
