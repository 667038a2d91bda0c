/** The 32-bit integer operations the decoder applies to its accumulator,
    stated on unbounded integers. A 32-bit `int` is represented by its bit
    pattern read as an unsigned number in [0, 2^32): a negative `int` is a
    pattern of at least 2^31. */
module Bits {

  const TwoTo30: int := 0x4000_0000
  const TwoTo31: int := 0x8000_0000
  const TwoTo32: int := 0x1_0000_0000

  function Pow2(n: nat): (r: nat)
    ensures r >= 1
  {
    if n == 0 then 1 else 2 * Pow2(n - 1)
  }

  lemma {:induction false} Pow2Monotone(a: nat, b: nat)
    requires a <= b
    ensures Pow2(a) <= Pow2(b)
    decreases b
  {
    if a < b {
      Pow2Monotone(a, b - 1);
    }
  }

  lemma Pow2Plus5(n: nat)
    ensures Pow2(n + 5) == 32 * Pow2(n)
  {
    assert Pow2(n + 5) == 2 * Pow2(n + 4) == 4 * Pow2(n + 3) == 8 * Pow2(n + 2) == 16 * Pow2(n + 1);
  }

  lemma Pow2Wide()
    ensures Pow2(30) == TwoTo30 && Pow2(31) == TwoTo31 && Pow2(32) == TwoTo32
  {
    Pow2Plus5(0); Pow2Plus5(5); Pow2Plus5(10); Pow2Plus5(15); Pow2Plus5(20); Pow2Plus5(25);
    assert Pow2(32) == 2 * Pow2(31) == 4 * Pow2(30);
  }

  /** Bitwise or of the low `n` bits of `a` and `b`. */
  function OrBits(a: nat, b: nat, n: nat): nat
  {
    if n == 0 then 0
    else (if a % 2 == 1 || b % 2 == 1 then 1 else 0) + 2 * OrBits(a / 2, b / 2, n - 1)
  }

  /** The or of the low `n` bits has at most `n` bits. */
  lemma {:induction false} OrBitsBound(a: nat, b: nat, n: nat)
    ensures OrBits(a, b, n) < Pow2(n)
  {
    if n > 0 {
      OrBitsBound(a / 2, b / 2, n - 1);
    }
  }

  /** `a | b` on two 32-bit patterns. */
  function Or32(a: nat, b: nat): (r: nat)
    ensures r < TwoTo32
  {
    OrBitsBound(a, b, 32);
    Pow2Wide();
    OrBits(a, b, 32)
  }

  /** `g << shift` on a 32-bit `int`: the shift count is taken modulo 32 and
      bits moved past bit 31 are lost. */
  function Shl32(g: nat, shift: nat): (r: nat)
    ensures r < TwoTo32
  {
    ShiftLeft(g, shift % 32) % TwoTo32
  }

  /** `g` times 2^n, by doubling `n` times. */
  function ShiftLeft(g: nat, n: nat): nat
  {
    if n == 0 then g else 2 * ShiftLeft(g, n - 1)
  }

  lemma {:induction false} ShiftLeftIsMul(g: nat, n: nat)
    ensures ShiftLeft(g, n) == g * Pow2(n)
  {
    if n > 0 {
      ShiftLeftIsMul(g, n - 1);
    }
  }

  lemma {:induction false} ShiftLeftZero(n: nat)
    ensures ShiftLeft(0, n) == 0
  {
    if n > 0 {
      ShiftLeftZero(n - 1);
    }
  }

  /** A non-zero value shifted by `n` is at least 2^n. */
  lemma {:induction false} ShiftLeftAtLeast(u: nat, n: nat)
    requires u >= 1
    ensures ShiftLeft(u, n) >= Pow2(n)
  {
    if n > 0 {
      ShiftLeftAtLeast(u, n - 1);
    }
  }

  lemma ShiftLeft5(x: nat)
    ensures ShiftLeft(x, 5) == 32 * x
  {
    assert ShiftLeft(x, 1) == 2 * x;
    assert ShiftLeft(x, 2) == 4 * x;
    assert ShiftLeft(x, 3) == 8 * x;
    assert ShiftLeft(x, 4) == 16 * x;
  }

  /** Shifting `u` is shifting its lowest 5-bit group and, five places
      further, the rest. */
  lemma {:induction false} ShiftLeftSplit(u: nat, n: nat)
    ensures ShiftLeft(u, n) == ShiftLeft(u % 32, n) + ShiftLeft(u / 32, n + 5)
  {
    if n == 0 {
      ShiftLeft5(u / 32);
    } else {
      ShiftLeftSplit(u, n - 1);
    }
  }

  /** A 5-bit group shifted by `n` above bits below `n` stays below bit n + 5. */
  lemma ShiftLeftGroupBound(acc: nat, g: nat, n: nat)
    requires g < 32 && acc < Pow2(n)
    ensures acc + ShiftLeft(g, n) < Pow2(n + 5)
  {
    ShiftLeftIsMul(g, n);
    Pow2Plus5(n);
    assert g * Pow2(n) <= 31 * Pow2(n) by {
      assert (31 - g) * Pow2(n) >= 0;
    }
  }

  /** Or-ing zero bits into `b` leaves its low `n` bits. */
  lemma {:induction false} OrBitsZero(b: nat, n: nat)
    requires b < Pow2(n)
    ensures OrBits(0, b, n) == b
    decreases n
  {
    if n > 0 {
      OrBitsZero(b / 2, n - 1);
    }
  }

  /** When the bits of `a` lie below bit `j` and those of `m * 2^j` from bit
      `j` on, or-ing them is adding them. */
  lemma {:induction false} OrBitsDisjoint(a: nat, m: nat, j: nat, n: nat)
    requires a < Pow2(j)
    requires a + m * Pow2(j) < Pow2(n)
    ensures OrBits(a, m * Pow2(j), n) == a + m * Pow2(j)
    decreases n
  {
    if n == 0 {
    } else if j == 0 {
      OrBitsZero(m, n);
    } else {
      var b := m * Pow2(j);
      assert b == 2 * (m * Pow2(j - 1));
      assert b % 2 == 0 && b / 2 == m * Pow2(j - 1);
      assert a / 2 + m * Pow2(j - 1) < Pow2(n - 1);
      OrBitsDisjoint(a / 2, m, j - 1, n - 1);
    }
  }

  /** A shift that loses nothing is a multiplication by a power of two. */
  lemma Shl32Exact(g: nat, shift: nat)
    requires shift < 32 && ShiftLeft(g, shift) < TwoTo32
    ensures Shl32(g, shift) == ShiftLeft(g, shift)
  {
  }

  lemma Shl32OfZero(shift: nat)
    ensures Shl32(0, shift) == 0
  {
    ShiftLeftZero(shift % 32);
  }

  /** Or-ing `b` whose bits start at `shift` into `acc` whose bits end below
      `shift` is adding them. */
  lemma OrDisjoint(acc: nat, g: nat, shift: nat)
    requires acc < Pow2(shift)
    requires acc + ShiftLeft(g, shift) < TwoTo32
    ensures Or32(acc, ShiftLeft(g, shift)) == acc + ShiftLeft(g, shift)
  {
    Pow2Wide();
    ShiftLeftIsMul(g, shift);
    OrBitsDisjoint(acc, g, shift, 32);
  }

  /** One step of the decoder's accumulation: a group shifted above the bits
      already gathered, with nothing lost past bit 31, is added. */
  lemma OrShiftAdd(acc: nat, g: nat, shift: nat)
    requires acc < Pow2(shift)
    requires acc + ShiftLeft(g, shift) < TwoTo31
    ensures Or32(acc, Shl32(g, shift)) == acc + ShiftLeft(g, shift)
  {
    if shift >= 31 {
      if g != 0 {
        ShiftLeftAtLeast(g, shift);
        Pow2Monotone(31, shift);
        Pow2Wide();
        assert false;
      }
      Shl32OfZero(shift);
      ShiftLeftZero(shift);
      ShiftLeftZero(32);
      Pow2Wide();
      OrDisjoint(acc, 0, 32);
    } else {
      Shl32Exact(g, shift);
      OrDisjoint(acc, g, shift);
    }
  }
}
