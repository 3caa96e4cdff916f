/** Bit-level utilities of the LC-3 virtual machine: the 16-bit word and the
    operations the source performs on it, sign extension of immediate fields
    and byte swapping (lc3-alt.cpp:92-104).

    A word is the integer value of a `uint16_t`. What C does with the bits is
    written out in integer arithmetic: a store into a `uint16_t` reduces
    modulo 2^16, `x >> n` is division by 2^n, `x & (2^n - 1)` is the
    remainder modulo 2^n, and `~x` is `0xFFFF - x`. */
module Bits {

  /** `uint16_t`. */
  type Word = w: int | 0 <= w < 0x1_0000

  /** `unsigned char`: one byte of an image file or of the console streams. */
  type Byte = b: int | 0 <= b < 0x100

  /** C's conversion of an `int` to `uint16_t`: reduction modulo 2^16. Every
      store of an `int`-valued expression into a `uint16_t` goes through it. */
  function ToWord(i: int): (w: Word)
    ensures 0 <= i < 0x1_0000 ==> w == i
    ensures (w - i) % 0x1_0000 == 0
  {
    i % 0x1_0000
  }

  /** 2^n for the bit positions of a word and for its width. */
  const POWERS: seq<nat> := [
    0x1, 0x2, 0x4, 0x8, 0x10, 0x20, 0x40, 0x80,
    0x100, 0x200, 0x400, 0x800, 0x1000, 0x2000, 0x4000, 0x8000, 0x1_0000]

  /** `1 << n`. */
  function Pow2(n: nat): (p: nat)
    requires n <= 16
    ensures 1 <= p <= 0x1_0000
    ensures n > 0 ==> p == 2 * Pow2(n - 1)
  {
    POWERS[n]
  }

  /** Bit `i` of `x`, as 0 or 1: `(x >> i) & 1`. */
  function Bit(x: nat, i: nat): (b: nat)
    requires i <= 16
    ensures b < 2
  {
    x / Pow2(i) % 2
  }

  /** `x & y` on non-negative integers, one bit at a time from the lowest. */
  function And(x: nat, y: nat): (r: nat)
    ensures r <= x && r <= y
    decreases x
  {
    if x == 0 || y == 0 then 0
    else 2 * And(x / 2, y / 2) + (if x % 2 == 1 && y % 2 == 1 then 1 else 0)
  }

  /** Bit `i` of `z` is bit `i - 1` of `z >> 1`. */
  lemma BitOfHalf(z: nat, i: nat)
    requires 0 < i <= 16
    ensures Bit(z, i) == Bit(z / 2, i - 1)
  {
    var p := Pow2(i - 1);
    HalfQuotient(z, p);
  }

  /** `z / (2 * p)` is `z / 2 / p`. */
  lemma HalfQuotient(z: nat, p: nat)
    requires p > 0
    ensures z / (2 * p) == z / 2 / p
  {
    var q1, r1 := z / 2, z % 2;
    var q2, r2 := q1 / p, q1 % p;
    assert 2 * q1 == q2 * (2 * p) + 2 * r2 by {
      assert q1 == q2 * p + r2;
    }
    DivideExactly(z, 2 * p, q2, 2 * r2 + r1);
  }

  /** Halving `x & y` halves both operands, and the low bit of `x & y` is
      set exactly when it is set in both. */
  lemma AndHalf(x: nat, y: nat)
    ensures And(x, y) / 2 == And(x / 2, y / 2)
    ensures And(x, y) % 2 == if x % 2 == 1 && y % 2 == 1 then 1 else 0
  {
    if x != 0 && y != 0 {
      var n, h := And(x, y), And(x / 2, y / 2);
      var b := if x % 2 == 1 && y % 2 == 1 then 1 else 0;
      assert n == 2 * h + b;
    }
  }

  /** Bit `i` of `x & y` is set exactly when bit `i` is set in both. */
  lemma {:induction false} AndBit(x: nat, y: nat, i: nat)
    requires i < 16
    ensures Bit(And(x, y), i) == Bit(x, i) * Bit(y, i)
    decreases i
  {
    AndHalf(x, y);
    if i > 0 {
      BitOfHalf(And(x, y), i);
      BitOfHalf(x, i);
      BitOfHalf(y, i);
      AndBit(x / 2, y / 2, i - 1);
    }
  }

  /** `x & y` on words keeps exactly the bits set in both operands. */
  lemma AndBits(x: Word, y: Word)
    ensures forall i :: 0 <= i < 16 ==> Bit(And(x, y), i) == Bit(x, i) * Bit(y, i)
  {
    forall i | 0 <= i < 16
      ensures Bit(And(x, y), i) == Bit(x, i) * Bit(y, i)
    {
      AndBit(x, y, i);
    }
  }

  /** `~x` on a `uint16_t`: every bit flipped. */
  function Not(x: Word): (r: Word)
    ensures x + r == 0xFFFF
  {
    0xFFFF - x
  }

  /** `~x` flips bit `i` of `x`. */
  lemma NotFlipsBit(x: Word, i: nat)
    requires i < 16
    ensures Bit(Not(x), i) == 1 - Bit(x, i)
  {
    var p, m := POWERS[i], POWERS[16 - i];
    PowersSplitWord(i);
    ComplementQuotient(x, p, m);
    assert Bit(Not(x), i) == (m - 1 - x / p) % 2 && Bit(x, i) == x / p % 2;
    ComplementParity(m, x / p);
  }

  /** `2^i * 2^(16 - i)` is `2^16`, and the second factor is even when `i < 16`. */
  lemma PowersSplitWord(i: nat)
    requires i < 16
    ensures POWERS[i] * POWERS[16 - i] == 0x1_0000 && POWERS[16 - i] % 2 == 0
  {
    match i
    case 0 => case 1 => case 2 => case 3 => case 4 => case 5 => case 6 => case 7 => case 8 =>
    case 9 => case 10 => case 11 => case 12 => case 13 => case 14 => case 15 =>
  }

  /** `m - 1 - q` has the opposite parity of `q` when `m` is even. */
  lemma ComplementParity(m: int, q: int)
    requires m % 2 == 0
    ensures (m - 1 - q) % 2 == 1 - q % 2
  {
    var d := (m - 1 - q) / 2 - m / 2 + q / 2 + 1;
    assert 2 * d == 1 - q % 2 - (m - 1 - q) % 2;
  }

  /** Dividing the complement `0xFFFF - x` by a factor `p` of `2^16` gives
      the complement of the quotient. */
  lemma ComplementQuotient(x: Word, p: nat, m: nat)
    requires p > 0 && m * p == 0x1_0000
    ensures (0xFFFF - x) / p == m - 1 - x / p
  {
    var q, r := x / p, x % p;
    assert x == q * p + r;
    assert (m - 1 - q) * p == m * p - p - q * p;
    DivideExactly(0xFFFF - x, p, m - 1 - q, p - 1 - r);
  }

  /** `~x` flips every bit of the word. */
  lemma NotFlipsBits(x: Word)
    ensures forall i :: 0 <= i < 16 ==> Bit(Not(x), i) == 1 - Bit(x, i)
  {
    forall i | 0 <= i < 16
      ensures Bit(Not(x), i) == 1 - Bit(x, i)
    {
      NotFlipsBit(x, i);
    }
  }

  /** The quotient of `q * p + r` by `p` is `q` when `0 <= r < p`. */
  lemma DivideExactly(n: int, p: int, q: int, r: int)
    requires p > 0 && 0 <= r < p && n == q * p + r
    ensures n / p == q
  {
    var d := n / p - q;
    assert p * d == r - n % p;
  }

  /** `sign_extend(x, bit_count)`: when bit `bit_count - 1` of `x` is set,
      `x |= 0xFFFF << bit_count` sets every bit from `bit_count` to 15 and
      keeps the low `bit_count` bits; otherwise `x` is returned as it is. */
  function SignExtend(x: Word, bitCount: nat): (r: Word)
    requires 1 <= bitCount <= 16
    ensures r == x || r >= 0x1_0000 - Pow2(bitCount)
  {
    var p := Pow2(bitCount);
    if Bit(x, bitCount - 1) == 1 then x % p + (0x1_0000 - p) else x
  }

  /** `sign_extend` at each field width, with the shifts and masks as
      numbers. */
  lemma SignExtendAtWidths(x: Word)
    ensures SignExtend(x, 5) == if x / 0x10 % 2 == 1 then x % 0x20 + 0xFFE0 else x
    ensures SignExtend(x, 6) == if x / 0x20 % 2 == 1 then x % 0x40 + 0xFFC0 else x
    ensures SignExtend(x, 9) == if x / 0x100 % 2 == 1 then x % 0x200 + 0xFE00 else x
    ensures SignExtend(x, 11) == if x / 0x400 % 2 == 1 then x % 0x800 + 0xF800 else x
  {
    assert Pow2(4) == 0x10 && Pow2(5) == 0x20 && Pow2(6) == 0x40;
    assert Pow2(8) == 0x100 && Pow2(9) == 0x200 && Pow2(10) == 0x400 && Pow2(11) == 0x800;
  }

  /** At the field widths, `sign_extend` keeps the low `n` bits of `x`. */
  lemma SignExtendKeepsLowBits(x: Word)
    ensures SignExtend(x, 5) % 0x20 == x % 0x20
    ensures SignExtend(x, 6) % 0x40 == x % 0x40
    ensures SignExtend(x, 9) % 0x200 == x % 0x200
    ensures SignExtend(x, 11) % 0x800 == x % 0x800
  {
    SignExtendAtWidths(x);
    AddMultipleKeepsMod(x % 0x20, 0x20, 0x7FF);
    AddMultipleKeepsMod(x % 0x40, 0x40, 0x3FF);
    AddMultipleKeepsMod(x % 0x200, 0x200, 0x7F);
    AddMultipleKeepsMod(x % 0x800, 0x800, 0x1F);
  }

  /** Adding a multiple of `m` to a remainder modulo `m` keeps it. */
  lemma AddMultipleKeepsMod(a: int, m: int, k: int)
    requires m > 0 && 0 <= a < m
    ensures (a + k * m) % m == a
  {
    DivideExactly(a + k * m, m, k, a);
  }

  /** At the field widths, `sign_extend` sets every bit from `n` to 15 when
      bit `n - 1` of `x` is set, and returns `x` unchanged when it is clear. */
  lemma SignExtendSetsHighBits(x: Word)
    ensures x / 0x10 % 2 == 1 ==> SignExtend(x, 5) / 0x20 == 0x7FF
    ensures x / 0x20 % 2 == 1 ==> SignExtend(x, 6) / 0x40 == 0x3FF
    ensures x / 0x100 % 2 == 1 ==> SignExtend(x, 9) / 0x200 == 0x7F
    ensures x / 0x400 % 2 == 1 ==> SignExtend(x, 11) / 0x800 == 0x1F
    ensures x / 0x10 % 2 == 0 ==> SignExtend(x, 5) == x
    ensures x / 0x20 % 2 == 0 ==> SignExtend(x, 6) == x
    ensures x / 0x100 % 2 == 0 ==> SignExtend(x, 9) == x
    ensures x / 0x400 % 2 == 0 ==> SignExtend(x, 11) == x
  {
    SignExtendAtWidths(x);
  }

  /** The integer a 16-bit word denotes when read as two's complement. */
  function ToSigned(w: Word): int
  {
    if w < 0x8000 then w else w - 0x1_0000
  }

  /** The integer that `v`, for `0 <= v < 2^n`, denotes as an `n`-bit
      two's-complement number. */
  function TwosComplement(v: nat, n: nat): int
    requires 1 <= n <= 16
  {
    if v < Pow2(n - 1) then v else v - Pow2(n)
  }

  /** The low byte of a word: `w & 0xFF`, what `(char)w` passes to `putc`. */
  function LowByte(w: Word): Byte
  {
    w % 0x100
  }

  /** The high byte of a word: `w >> 8`. */
  function HighByte(w: Word): Byte
  {
    w / 0x100
  }

  /** `swap16`: `(x << 8) | (x >> 8)` truncated to 16 bits exchanges the two
      bytes of a word. */
  function SwapBytes(x: Word): (r: Word)
    ensures LowByte(r) == HighByte(x) && HighByte(r) == LowByte(x)
  {
    LowByte(x) * 0x100 + HighByte(x)
  }

  /** A word is determined by its two bytes. */
  lemma BytesDetermineWord(x: Word, y: Word)
    requires LowByte(x) == LowByte(y) && HighByte(x) == HighByte(y)
    ensures x == y
  {
  }

  /** Swapping twice gives back the word. */
  lemma SwapBytesInvolution(x: Word)
    ensures SwapBytes(SwapBytes(x)) == x
  {
    BytesDetermineWord(SwapBytes(SwapBytes(x)), x);
  }

  /** The word whose first byte in memory order is the high byte. */
  function BigEndian(hi: Byte, lo: Byte): (w: Word)
    ensures HighByte(w) == hi && LowByte(w) == lo
  {
    hi * 0x100 + lo
  }

  /** The word a little-endian host reads from the bytes `first`, `second`. */
  function LittleEndian(first: Byte, second: Byte): (w: Word)
    ensures LowByte(w) == first && HighByte(w) == second
  {
    second * 0x100 + first
  }

  /** Swapping a word read on a little-endian host yields the big-endian word
      of the same two bytes. */
  lemma SwapLittleToBig(first: Byte, second: Byte)
    ensures SwapBytes(LittleEndian(first, second)) == BigEndian(first, second)
  {
    BytesDetermineWord(SwapBytes(LittleEndian(first, second)), BigEndian(first, second));
  }
}
