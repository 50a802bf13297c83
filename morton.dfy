/**
 * Powers, the breadth-first layout of a complete 4-ary tree, and the Z-order
 * (Morton) code that the pseudo quad-tree uses to place its cells:
 * even key bits belong to x, odd key bits to z.
 */
module Morton {

  function Pow2(k: nat): (r: nat)
    ensures r >= 1
  {
    if k == 0 then 1 else 2 * Pow2(k - 1)
  }

  function Pow4(k: nat): (r: nat)
    ensures r >= 1
  {
    if k == 0 then 1 else 4 * Pow4(k - 1)
  }

  /** k shifted right by i bits: k >> i. */
  function Shr(k: nat, i: nat): nat
  {
    if i == 0 then k else Shr(k, i - 1) / 2
  }

  /** Bit i of k. */
  function Bit(k: nat, i: nat): nat
  {
    Shr(k, i) % 2
  }

  /** Index of the first node of level l in the breadth-first layout: 1 + 4 + ... + 4^(l-1). */
  function LevelStart(l: nat): nat
  {
    if l == 0 then 0 else 4 * LevelStart(l - 1) + 1
  }

  /** Level of heap index i: the root is 0 and the parent of i is (i - 1) / 4. */
  function Level(i: nat): nat
  {
    if i == 0 then 0 else 1 + Level((i - 1) / 4)
  }

  /** Interleaves x (even bits) and z (odd bits) into a Morton key. */
  function Interleave(x: nat, z: nat): nat
    decreases x + z
  {
    if x == 0 && z == 0 then 0 else 4 * Interleave(x / 2, z / 2) + 2 * (z % 2) + x % 2
  }

  /** The even bits of a key, packed: the x coordinate. */
  function EvenBits(k: nat): nat
  {
    if k == 0 then 0 else 2 * EvenBits(k / 4) + k % 2
  }

  /** The odd bits of a key, packed: the z coordinate. */
  function OddBits(k: nat): nat
  {
    if k == 0 then 0 else 2 * OddBits(k / 4) + (k / 2) % 2
  }

  // ---------------------------------------------------------------------------
  // Arithmetic facts

  lemma MulGap(a: int, b: int, m: int)
    requires a > b && m > 0
    ensures a * m - b * m >= m
  {
    assert a * m - b * m == (a - b - 1) * m + m;
  }

  lemma MulAssoc(a: int, b: int, c: int)
    ensures a * (b * c) == (a * b) * c
  {
  }

  lemma DivModUnique(k: int, m: int, q: int, r: int)
    requires m > 0 && 0 <= r < m && k == q * m + r
    ensures k / m == q && k % m == r
  {
    var q' := k / m;
    if q' > q {
      MulGap(q', q, m);
    } else if q' < q {
      MulGap(q, q', m);
    }
  }

  lemma {:induction false} Pow4IsSquare(k: nat)
    ensures Pow4(k) == Pow2(2 * k)
    ensures Pow4(k) == Pow2(k) * Pow2(k)
  {
    if k > 0 {
      Pow4IsSquare(k - 1);
      assert Pow2(2 * k) == 4 * Pow2(2 * (k - 1));
    }
  }

  lemma {:induction false} Pow2Add(a: nat, b: nat)
    ensures Pow2(a + b) == Pow2(a) * Pow2(b)
  {
    if a > 0 {
      Pow2Add(a - 1, b);
      var p, q := Pow2(a - 1), Pow2(b);
      assert Pow2(a + b) == 2 * Pow2(a - 1 + b);
      MulAssoc(2, p, q);
    }
  }

  lemma {:induction false} Pow4Add(a: nat, b: nat)
    ensures Pow4(a + b) == Pow4(a) * Pow4(b)
  {
    if a > 0 {
      Pow4Add(a - 1, b);
      var p, q := Pow4(a - 1), Pow4(b);
      assert Pow4(a + b) == 4 * Pow4(a - 1 + b);
      MulAssoc(4, p, q);
    }
  }

  lemma {:induction false} Pow2Monotone(a: nat, b: nat)
    requires a <= b
    ensures Pow2(a) <= Pow2(b)
  {
    if a < b {
      Pow2Monotone(a, b - 1);
    }
  }

  lemma {:induction false} Pow4Monotone(a: nat, b: nat)
    requires a <= b
    ensures Pow4(a) <= Pow4(b)
  {
    if a < b {
      Pow4Monotone(a, b - 1);
    }
  }

  /** The level starts are the partial sums of the geometric series 1 + 4 + 16 + ... */
  lemma {:induction false} LevelStartSeries(l: nat)
    ensures LevelStart(l + 1) == LevelStart(l) + Pow4(l)
    ensures 3 * LevelStart(l) + 1 == Pow4(l)
  {
    if l > 0 {
      LevelStartSeries(l - 1);
    }
  }

  lemma {:induction false} LevelStartMonotone(a: nat, b: nat)
    requires a <= b
    ensures LevelStart(a) <= LevelStart(b)
  {
    if a < b {
      LevelStartMonotone(a, b - 1);
    }
  }

  /** An index lies on level l exactly when it falls in [LevelStart(l), LevelStart(l + 1)). */
  lemma {:induction false} LevelOfRange(i: nat, l: nat)
    requires LevelStart(l) <= i < LevelStart(l + 1)
    ensures Level(i) == l
  {
    if l == 0 {
      assert i == 0;
    } else {
      assert LevelStart(l - 1) <= (i - 1) / 4 < LevelStart(l);
      LevelOfRange((i - 1) / 4, l - 1);
    }
  }

  /** Every index lies on the level that Level names. */
  lemma {:induction false} LevelRange(i: nat)
    ensures LevelStart(Level(i)) <= i < LevelStart(Level(i) + 1)
  {
    if i > 0 {
      LevelRange((i - 1) / 4);
    }
  }

  /** The children 4i+1 .. 4i+4 of a node in level l's index range lie in level l + 1's. */
  lemma ChildInLevel(i: nat, l: nat, c: nat)
    requires LevelStart(l) <= i < LevelStart(l + 1) && c < 4
    ensures LevelStart(l + 1) <= 4 * i + 1 + c < LevelStart(l + 2)
  {
  }

  /** The children 4i+1 .. 4i+4 of a node on level l lie on level l + 1. */
  lemma ChildLevel(i: nat, l: nat, c: nat)
    requires LevelStart(l) <= i < LevelStart(l + 1) && c < 4
    ensures LevelStart(l + 1) <= 4 * i + 1 + c < LevelStart(l + 2)
    ensures Level(4 * i + 1 + c) == l + 1
  {
    LevelOfRange(4 * i + 1 + c, l + 1);
  }

  /** k >> i drops the low i bits: k == (k >> i) * 2^i + r with r < 2^i. */
  lemma {:induction false} ShrSplit(k: nat, i: nat)
    ensures 0 <= k - Shr(k, i) * Pow2(i) < Pow2(i)
  {
    if i > 0 {
      ShrSplit(k, i - 1);
      var h, p := Shr(k, i - 1), Pow2(i - 1);
      assert Pow2(i) == 2 * p && Shr(k, i) == h / 2;
      SplitArith(k, h, h / 2, h % 2, p);
    }
  }

  /** The arithmetic of ShrSplit: dropping one more bit doubles the remainder's bound. */
  lemma SplitArith(k: int, h: int, q: int, b: int, p: int)
    requires p >= 1 && (b == 0 || b == 1) && h == 2 * q + b && 0 <= k - h * p < p
    ensures 0 <= k - q * (2 * p) < 2 * p
  {
    assert h * p == q * (2 * p) + b * p;
  }

  /** Below 2^(i+m), k >> i is below 2^m. */
  lemma {:induction false} ShrBound(k: nat, i: nat, m: nat)
    requires k < Pow2(i + m)
    ensures Shr(k, i) < Pow2(m)
  {
    if i > 0 {
      ShrBound(k, i - 1, m + 1);
    }
  }

  // ---------------------------------------------------------------------------
  // Morton code

  lemma InterleaveStep(x: nat, z: nat, bx: nat, bz: nat)
    requires bx < 2 && bz < 2
    ensures Interleave(2 * x + bx, 2 * z + bz) == 4 * Interleave(x, z) + bx + 2 * bz
  {
    assert (2 * x + bx) / 2 == x && (2 * z + bz) / 2 == z;
  }

  lemma DeinterleaveStep(k: nat, c: nat)
    requires c < 4
    ensures EvenBits(4 * k + c) == 2 * EvenBits(k) + c % 2
    ensures OddBits(4 * k + c) == 2 * OddBits(k) + c / 2
  {
    assert (4 * k + c) / 4 == k;
    assert (4 * k + c) % 2 == c % 2;
    assert ((4 * k + c) / 2) % 2 == c / 2;
  }

  lemma DigitParts(bx: nat, bz: nat)
    requires bx < 2 && bz < 2
    ensures (bx + 2 * bz) % 2 == bx && (bx + 2 * bz) / 2 == bz
  {
  }

  /** The last base-4 digit of k is its bit 0 plus twice its bit 1. */
  lemma BaseFourDigit(k: nat)
    ensures k == 4 * (k / 4) + k % 2 + 2 * ((k / 2) % 2)
  {
    var q, r := k / 4, k % 4;
    DivModUnique(k, 2, 2 * q + r / 2, r % 2);
    DivModUnique(k / 2, 2, q, r / 2);
  }

  /** Re-interleaving the decoded coordinates gives the key back. */
  lemma {:induction false} InterleaveOfDecode(k: nat)
    ensures Interleave(EvenBits(k), OddBits(k)) == k
  {
    if k > 0 {
      var q, bx, bz := k / 4, k % 2, (k / 2) % 2;
      InterleaveOfDecode(q);
      var x, z := EvenBits(q), OddBits(q);
      assert EvenBits(k) == 2 * x + bx && OddBits(k) == 2 * z + bz;
      InterleaveStep(x, z, bx, bz);
      BaseFourDigit(k);
    }
  }

  /** Decoding an interleaved pair gives the pair back. */
  lemma {:induction false} DecodeOfInterleave(x: nat, z: nat)
    ensures EvenBits(Interleave(x, z)) == x && OddBits(Interleave(x, z)) == z
    decreases x + z
  {
    if x != 0 || z != 0 {
      var k, bx, bz := Interleave(x / 2, z / 2), x % 2, z % 2;
      DecodeOfInterleave(x / 2, z / 2);
      assert Interleave(x, z) == 4 * k + (bx + 2 * bz);
      DeinterleaveStep(k, bx + 2 * bz);
      DigitParts(bx, bz);
    }
  }

  lemma InterleaveInjective(x: nat, z: nat, x': nat, z': nat)
    requires Interleave(x, z) == Interleave(x', z')
    ensures x == x' && z == z'
  {
    DecodeOfInterleave(x, z);
    DecodeOfInterleave(x', z');
  }

  /** A key of a level-L node decodes to coordinates below 2^L. */
  lemma {:induction false} DecodeBound(k: nat, L: nat)
    requires k < Pow4(L)
    ensures EvenBits(k) < Pow2(L) && OddBits(k) < Pow2(L)
  {
    if k > 0 {
      assert L > 0;
      DecodeBound(k / 4, L - 1);
    }
  }

  /** Coordinates below 2^L interleave to a key below 4^L. */
  lemma {:induction false} InterleaveBound(x: nat, z: nat, L: nat)
    requires x < Pow2(L) && z < Pow2(L)
    ensures Interleave(x, z) < Pow4(L)
    decreases x + z
  {
    if x != 0 || z != 0 {
      assert L > 0;
      InterleaveBound(x / 2, z / 2, L - 1);
    }
  }

  // ---------------------------------------------------------------------------
  // Decoding digit by digit, as the bit loop of decodeQuadKey does

  /**
   * One round of decodeQuadKey's bit loop: with h = k >> 2j, bit 2j of k is the low bit
   * of h's x and bit 2j + 1 the low bit of its z; the rest is decoded from h >> 2.
   */
  lemma DecodeRound(k: nat, j: nat)
    ensures Shr(k, 2 * j + 2) == Shr(k, 2 * j) / 4
    ensures EvenBits(Shr(k, 2 * j)) == 2 * EvenBits(Shr(k, 2 * j + 2)) + Bit(k, 2 * j)
    ensures OddBits(Shr(k, 2 * j)) == 2 * OddBits(Shr(k, 2 * j + 2)) + Bit(k, 2 * j + 1)
  {
    var h := Shr(k, 2 * j);
    assert Shr(k, 2 * j + 1) == h / 2;
    assert Shr(k, 2 * j + 2) == (h / 2) / 2;
    assert h == 2 * (h / 2) + h % 2 && h / 2 == 2 * ((h / 2) / 2) + (h / 2) % 2;
    DivModUnique(h, 4, (h / 2) / 2, 2 * ((h / 2) % 2) + h % 2);
  }

  /** A key below 4^n has nothing left after the low 2n bits. */
  lemma ShrPastKey(k: nat, n: nat)
    requires k < Pow4(n)
    ensures Shr(k, 2 * n) == 0
  {
    Pow4IsSquare(n);
    ShrBound(k, 2 * n, 0);
  }

  lemma Pow2Half(k: nat)
    ensures Pow2(k + 1) / 2 == Pow2(k)
  {
  }
}
