/** The iterator outputs pinned down by the source's unit tests, as lemmas about Windows. */
module RollingTests {
  import opened Basics
  import opened ModArith
  import opened Rolling

  lemma PolyOf010And101()
    ensures Poly([0, 1, 0]) == 10201 && Poly([1, 0, 1]) == 20102
  {
    assert Poly([0]) == 1;
    assert Poly([0, 1]) == 102 by { assert [0, 1][..1] == [0]; }
    assert Poly([0, 1, 0]) == 10201 by { assert [0, 1, 0][..2] == [0, 1]; }
    assert Poly([1]) == 2;
    assert Poly([1, 0]) == 201 by { assert [1, 0][..1] == [1]; }
    assert Poly([1, 0, 1]) == 20102 by { assert [1, 0, 1][..2] == [1, 0]; }
  }

  /** Window 3, stride 1 over [0,1,0,1]: two windows, then the iterator is exhausted. */
  lemma Windows0101()
    ensures Windows([0, 1, 0, 1], 3, 1) == [(10201, 0), (20102, 1)]
  {
    var d: seq<byte> := [0, 1, 0, 1];
    PolyOf010And101();
    assert d[0..3] == [0, 1, 0] && d[1..4] == [1, 0, 1];
    assert Rest(d, 3, 1, 1) == [];
    assert Rest(d, 3, 1, 0) == [(20102, 1)];
  }

  /** Window 3, stride 1 over [0,1,0,1,0,1]: the two hashes alternate over four windows. */
  lemma Windows010101()
    ensures Windows([0, 1, 0, 1, 0, 1], 3, 1)
         == [(10201, 0), (20102, 1), (10201, 2), (20102, 3)]
  {
    var d: seq<byte> := [0, 1, 0, 1, 0, 1];
    PolyOf010And101();
    assert d[0..3] == [0, 1, 0] && d[1..4] == [1, 0, 1];
    assert d[2..5] == [0, 1, 0] && d[3..6] == [1, 0, 1];
    assert Rest(d, 3, 1, 3) == [];
    assert Rest(d, 3, 1, 2) == [(20102, 3)];
    assert Rest(d, 3, 1, 1) == [(10201, 2), (20102, 3)];
  }

  /** Window 4, stride 2 over "abcdefg": windows at 0 and 2 only. */
  lemma WindowsAbcdefg()
    ensures Windows([97, 98, 99, 100, 101, 102, 103], 4, 2) == [(99000101, 0), (101020303, 2)]
  {
    var d: seq<byte> := [97, 98, 99, 100, 101, 102, 103];
    assert Poly([97]) == 98;
    assert Poly([97, 98]) == 9899 by { assert [97, 98][..1] == [97]; }
    assert Poly([97, 98, 99]) == 990000 by { assert [97, 98, 99][..2] == [97, 98]; }
    assert Poly([97, 98, 99, 100]) == 99000101 by { assert [97, 98, 99, 100][..3] == [97, 98, 99]; }
    assert Poly([99]) == 100;
    assert Poly([99, 100]) == 10101 by { assert [99, 100][..1] == [99]; }
    assert Poly([99, 100, 101]) == 1010202 by { assert [99, 100, 101][..2] == [99, 100]; }
    assert Poly([99, 100, 101, 102]) == 101020303 by { assert [99, 100, 101, 102][..3] == [99, 100, 101]; }
    assert d[0..4] == [97, 98, 99, 100] && d[2..6] == [99, 100, 101, 102];
    assert Rest(d, 4, 2, 2) == [];
    assert Rest(d, 4, 2, 0) == [(101020303, 2)];
  }

  /** Ten bytes of 255 hash to a value past the modulus, reduced to 757588431. */
  lemma PolyOfTen255()
    ensures Poly([255, 255, 255, 255, 255, 255, 255, 255, 255, 255]) % M == 757588431
  {
    assert Poly([255]) == 256;
    assert Poly([255, 255]) == 25856 by { assert [255, 255][..1] == [255]; }
    assert Poly([255, 255, 255]) == 2585856 by { assert [255, 255, 255][..2] == [255, 255]; }
    assert Poly([255, 255, 255, 255]) == 258585856 by { assert [255, 255, 255, 255][..3] == [255, 255, 255]; }
    assert Poly([255, 255, 255, 255, 255]) == 25858585856 by { assert [255, 255, 255, 255, 255][..4] == [255, 255, 255, 255]; }
    assert Poly([255, 255, 255, 255, 255, 255]) == 2585858585856 by { assert [255, 255, 255, 255, 255, 255][..5] == [255, 255, 255, 255, 255]; }
    assert Poly([255, 255, 255, 255, 255, 255, 255]) == 258585858585856 by { assert [255, 255, 255, 255, 255, 255, 255][..6] == [255, 255, 255, 255, 255, 255]; }
    assert Poly([255, 255, 255, 255, 255, 255, 255, 255]) == 25858585858585856 by { assert [255, 255, 255, 255, 255, 255, 255, 255][..7] == [255, 255, 255, 255, 255, 255, 255]; }
    assert Poly([255, 255, 255, 255, 255, 255, 255, 255, 255]) == 2585858585858585856 by { assert [255, 255, 255, 255, 255, 255, 255, 255, 255][..8] == [255, 255, 255, 255, 255, 255, 255, 255]; }
    assert Poly([255, 255, 255, 255, 255, 255, 255, 255, 255, 255]) == 258585858585858585856 by { assert [255, 255, 255, 255, 255, 255, 255, 255, 255, 255][..9] == [255, 255, 255, 255, 255, 255, 255, 255, 255]; }
  }

  /** Window 10, stride 3 over twenty bytes of 255: four equal hashes at 0, 3, 6 and 9. */
  lemma WindowsTwenty255()
    ensures Windows(seq(20, _ => 255), 10, 3)
         == [(757588431, 0), (757588431, 3), (757588431, 6), (757588431, 9)]
  {
    var d: seq<byte> := seq(20, _ => 255);
    var ten: seq<byte> := [255, 255, 255, 255, 255, 255, 255, 255, 255, 255];
    PolyOfTen255();
    assert d[0..10] == ten && d[3..13] == ten && d[6..16] == ten && d[9..19] == ten;
    assert Rest(d, 10, 3, 9) == [];
    assert Rest(d, 10, 3, 6) == [(757588431, 9)];
    assert Rest(d, 10, 3, 3) == [(757588431, 6), (757588431, 9)];
    assert Rest(d, 10, 3, 0) == [(757588431, 3), (757588431, 6), (757588431, 9)];
  }
}
