/** Go's fixed-width integers, written out over Dafny's unbounded ones: a `uint64` is a natural number below
    TWO_64, an `int` is a signed 64-bit number, and every operator that can lose bits says so. */
module Machine {
  type u8 = x: int | 0 <= x < 256

  const TWO_31 := 0x8000_0000
  const TWO_32 := 0x1_0000_0000
  const TWO_63 := 0x8000_0000_0000_0000
  const TWO_64 := 0x1_0000_0000_0000_0000

  /** The largest Go `int`; no Go slice or string is longer than this. */
  const MAX_INT := TWO_63 - 1

  /** What a Go string or byte slice can hold. */
  type GoBytes = s: seq<u8> | |s| <= MAX_INT

  /** Conversion to, or overflow of, Go's signed 64-bit `int`. */
  function Int64(x: int): (r: int)
    ensures -TWO_63 <= r < TWO_63
    ensures -TWO_63 <= x < TWO_63 ==> r == x
    ensures TWO_63 <= x < TWO_64 ==> r == x - TWO_64
  {
    var y := x % TWO_64;
    if y < TWO_63 then y else y - TWO_64
  }

  /** The conversion `int32(x)` of an unsigned value: the low 32 bits, read as a signed number. */
  function Int32(x: nat): (r: int)
    ensures -TWO_31 <= r < TWO_31
    ensures x < TWO_31 ==> r == x
  {
    var y := x % TWO_32;
    if y < TWO_31 then y else y - TWO_32
  }

  function Pow2(k: nat): (p: nat)
    ensures p > 0
  {
    if k == 0 then 1 else 2 * Pow2(k - 1)
  }

  /** Conversion to `uint64`: the low 64 bits. */
  function UInt64(x: nat): (r: nat)
    ensures r < TWO_64
    ensures x < TWO_64 ==> r == x
  {
    x % TWO_64
  }

  /** `x << k` on `uint64`: bits shifted past position 63 are lost. */
  function Shl64(x: nat, k: nat): nat {
    UInt64(x * Pow2(k))
  }

  /** `a | b` on unsigned numbers, bit by bit. */
  function BitOr(a: nat, b: nat): nat {
    if a == 0 && b == 0 then 0
    else (if a % 2 == 1 || b % 2 == 1 then 1 else 0) + 2 * BitOr(a / 2, b / 2)
  }

  /** `bits.Len64`: the number of bits needed to write x. */
  function Len64(x: nat): nat {
    if x == 0 then 0 else 1 + Len64(x / 2)
  }

  lemma {:induction false} Pow2Values()
    ensures Pow2(0) == 1 && Pow2(7) == 0x80 && Pow2(14) == 0x4000 && Pow2(21) == 0x20_0000
    ensures Pow2(28) == 0x1000_0000 && Pow2(35) == 0x8_0000_0000 && Pow2(42) == 0x400_0000_0000
    ensures Pow2(49) == 0x2_0000_0000_0000 && Pow2(56) == 0x100_0000_0000_0000 && Pow2(63) == TWO_63
  {
    Pow2Plus7(0); Pow2Plus7(7); Pow2Plus7(14); Pow2Plus7(21); Pow2Plus7(28);
    Pow2Plus7(35); Pow2Plus7(42); Pow2Plus7(49); Pow2Plus7(56);
  }

  lemma WordSizes()
    ensures TWO_31 == Pow2(31) == 0x8000_0000 && TWO_32 == Pow2(32) == 0x1_0000_0000
    ensures TWO_63 == Pow2(63) == 0x8000_0000_0000_0000 && TWO_64 == Pow2(64) == 0x1_0000_0000_0000_0000
    ensures MAX_INT == 0x7fff_ffff_ffff_ffff
  {
    Pow2Values();
  }

  lemma {:induction false} Pow2Plus7(k: nat)
    ensures Pow2(k + 7) == 128 * Pow2(k)
  {
    assert Pow2(k + 7) == 2 * Pow2(k + 6);
    assert Pow2(k + 6) == 2 * Pow2(k + 5);
    assert Pow2(k + 5) == 2 * Pow2(k + 4);
    assert Pow2(k + 4) == 2 * Pow2(k + 3);
    assert Pow2(k + 3) == 2 * Pow2(k + 2);
    assert Pow2(k + 2) == 2 * Pow2(k + 1);
    assert Pow2(k + 1) == 2 * Pow2(k);
  }

  lemma {:induction false} Pow2Monotone(j: nat, k: nat)
    requires j <= k
    ensures Pow2(j) <= Pow2(k)
    decreases k
  {
    if j < k { Pow2Monotone(j, k - 1); }
  }

  lemma {:induction false} OrZero(c: nat)
    ensures BitOr(0, c) == c
  {
    if c > 0 { OrZero(c / 2); }
  }

  /** Numbers that share no bit position are or-ed by adding them. */
  lemma {:induction false} OrDisjoint(a: nat, c: nat, k: nat)
    requires a < Pow2(k)
    ensures BitOr(a, c * Pow2(k)) == a + c * Pow2(k)
  {
    if k == 0 {
      OrZero(c);
    } else {
      var b := c * Pow2(k);
      var h := c * Pow2(k - 1);
      assert b == 2 * h by { assert c * (2 * Pow2(k - 1)) == 2 * (c * Pow2(k - 1)); }
      OrDisjoint(a / 2, c, k - 1);
      assert BitOr(a / 2, h) == a / 2 + h;
      assert b / 2 == h && b % 2 == 0;
    }
  }

  /** `x | 1` has as many bits as x, and at least one. */
  lemma {:induction false} Len64OrOne(x: nat)
    ensures Len64(BitOr(x, 1)) == if x == 0 then 1 else Len64(x)
  {
    assert BitOr(x, 1) == 1 + 2 * BitOr(x / 2, 0);
    OrZeroRight(x / 2);
    assert BitOr(x, 1) / 2 == x / 2;
  }

  lemma {:induction false} OrZeroRight(c: nat)
    ensures BitOr(c, 0) == c
  {
    if c > 0 { OrZeroRight(c / 2); }
  }

  lemma {:induction false} Len64Div128(x: nat)
    requires x >= 128
    ensures Len64(x) == 7 + Len64(x / 128)
  {
    assert x / 2 / 2 == x / 4;
    assert x / 4 / 2 == x / 8;
    assert x / 8 / 2 == x / 16;
    assert x / 16 / 2 == x / 32;
    assert x / 32 / 2 == x / 64;
    assert x / 64 / 2 == x / 128;
    assert Len64(x) == 2 + Len64(x / 4);
    assert Len64(x / 4) == 2 + Len64(x / 16);
    assert Len64(x / 16) == 2 + Len64(x / 64);
  }

  lemma {:induction false} Len64Small(x: nat, k: nat)
    requires 0 < x < Pow2(k)
    ensures 1 <= Len64(x) <= k
  {
    if x >= 2 { Len64Small(x / 2, k - 1); }
  }
}
