/**
 The C++ bit operators on unsigned words, defined bit by bit, and what they mean in arithmetic.
 Everything here is linear except the two lemmas that connect low bits with remainders.
 */
module Bits {
  import opened Types

  function Pow2(n: nat): (r: nat)
    ensures r >= 1
  {
    if n == 0 then 1 else 2 * Pow2(n - 1)
  }

  function Shr(x: nat, n: nat): nat {
    if n == 0 then x else Shr(x / 2, n - 1)
  }

  /** Left shift without an upper limit; the word width is applied by the truncating cast around it. */
  function Shl(x: nat, n: nat): nat {
    if n == 0 then x else 2 * Shl(x, n - 1)
  }

  function And(a: nat, b: nat): nat
    decreases a
  {
    if a == 0 then 0 else 2 * And(a / 2, b / 2) + if a % 2 == 1 && b % 2 == 1 then 1 else 0
  }

  function Or(a: nat, b: nat): nat
    decreases a + b
  {
    if a == 0 && b == 0 then 0
    else 2 * Or(a / 2, b / 2) + if a % 2 == 1 || b % 2 == 1 then 1 else 0
  }

  /** The n lowest bits of a word. */
  function Low(x: nat, n: nat): nat {
    if n == 0 then 0 else x % 2 + 2 * Low(x / 2, n - 1)
  }

  function U8(x: nat): u8 {
    x % 0x100
  }

  function U16(x: nat): u16 {
    x % 0x1_0000
  }

  function U32(x: nat): u32 {
    x % 0x1_0000_0000
  }

  function U64(x: nat): u64 {
    x % 0x1_0000_0000_0000_0000
  }

  // ----- Low bits are remainders -----

  lemma MultipleBound(gap: int, d: int)
    requires d > 0
    ensures gap >= 1 ==> gap * d >= d
    ensures gap <= -1 ==> gap * d <= -d
  {
  }

  /** A quotient and remainder found by any means are the quotient and remainder. */
  lemma DivModUnique(x: int, d: int, q: int, r: int)
    requires 0 <= r < d
    requires x == q * d + r
    ensures x / d == q && x % d == r
  {
    var gap := x / d - q;
    assert gap * d == r - x % d by {
      assert x == x / d * d + x % d;
      assert gap * d == x / d * d - q * d;
    }
    MultipleBound(gap, d);
  }

  /** The remainder modulo an even number, one bit at a time. */
  lemma RemainderBit(x: nat, p: nat)
    requires p > 0
    ensures x % (2 * p) == x % 2 + 2 * (x / 2 % p)
  {
    var q, r := x / 2 / p, x / 2 % p;
    assert x / 2 == q * p + r;
    assert q * (2 * p) == 2 * (q * p);
    DivModUnique(x, 2 * p, q, 2 * r + x % 2);
  }

  lemma {:induction false} LowIsRemainder(x: nat, n: nat)
    ensures Low(x, n) == x % Pow2(n)
  {
    if n > 0 {
      LowIsRemainder(x / 2, n - 1);
      RemainderBit(x, Pow2(n - 1));
    }
  }

  lemma {:induction false} LowOfSmall(x: nat, n: nat)
    requires x < Pow2(n)
    ensures Low(x, n) == x
  {
    if n > 0 {
      LowOfSmall(x / 2, n - 1);
    }
  }

  // ----- Eight bits at a time -----

  lemma FourBits(x: nat, n: nat)
    ensures Pow2(n + 4) == 16 * Pow2(n)
    ensures Shl(x, n + 4) == 16 * Shl(x, n)
    ensures Shr(x, n + 4) == Shr(x / 16, n)
  {
    assert Pow2(n + 2) == 4 * Pow2(n) && Pow2(n + 4) == 4 * Pow2(n + 2);
    assert Shl(x, n + 2) == 4 * Shl(x, n) && Shl(x, n + 4) == 4 * Shl(x, n + 2);
    assert Shr(x, n + 4) == Shr(x / 4, n + 2) && Shr(x / 4, n + 2) == Shr(x / 16, n);
  }

  lemma PowByte(n: nat)
    ensures Pow2(n + 8) == 256 * Pow2(n)
  {
    FourBits(0, n);
    FourBits(0, n + 4);
  }

  lemma ShlByte(x: nat, n: nat)
    ensures Shl(x, n + 8) == 256 * Shl(x, n)
  {
    FourBits(x, n);
    FourBits(x, n + 4);
  }

  lemma ShrByte(x: nat, n: nat)
    ensures Shr(x, n + 8) == Shr(x / 256, n)
  {
    FourBits(x, n + 4);
    FourBits(x / 16, n);
  }

  lemma LowByte(x: nat)
    ensures Low(x, 8) == x % 256
  {
    LowIsRemainder(x, 8);
    PowConstants();
  }

  lemma PowConstants()
    ensures Pow2(0) == 1 && Pow2(8) == 0x100 && Pow2(16) == 0x1_0000
  {
    PowByte(0);
    PowByte(8);
  }

  lemma Pow32()
    ensures Pow2(32) == 0x1_0000_0000
  {
    PowConstants();
    PowByte(16);
    PowByte(24);
  }

  lemma Pow64()
    ensures Pow2(64) == 0x1_0000_0000_0000_0000
  {
    Pow32();
    PowByte(32);
    PowByte(40);
    PowByte(48);
    PowByte(56);
  }

  // ----- Masks and disjoint words -----

  lemma {:induction false} OrZero(b: nat)
    ensures Or(0, b) == b
  {
    if b > 0 {
      OrZero(b / 2);
    }
  }

  lemma {:induction false} OrCommutes(a: nat, b: nat)
    ensures Or(a, b) == Or(b, a)
    decreases a + b
  {
    if a != 0 || b != 0 {
      OrCommutes(a / 2, b / 2);
    }
  }

  /** Or-ing in a word above the bits already present is an addition. */
  lemma {:induction false} OrDisjoint(low: nat, high: nat, n: nat)
    requires low < Pow2(n)
    ensures Or(low, Shl(high, n)) == low + Shl(high, n)
  {
    if n == 0 {
      OrZero(high);
    } else {
      OrDisjoint(low / 2, high, n - 1);
    }
  }

  /** Masking with n ones keeps the n lowest bits. */
  lemma {:induction false} AndLow(x: nat, n: nat)
    ensures And(x, Pow2(n) - 1) == Low(x, n)
  {
    if n == 0 {
      AndZero(x);
    } else {
      AndLow(x / 2, n - 1);
      assert (Pow2(n) - 1) / 2 == Pow2(n - 1) - 1;
    }
  }

  lemma {:induction false} AndZero(x: nat)
    ensures And(x, 0) == 0
  {
    if x != 0 {
      AndZero(x / 2);
    }
  }

  /** Masking with n ones above m zeros keeps exactly that window of bits. */
  lemma {:induction false} AndWindow(x: nat, n: nat, m: nat)
    ensures And(x, Shl(Pow2(n) - 1, m)) == Shl(Low(Shr(x, m), n), m)
  {
    if m == 0 {
      AndLow(x, n);
    } else {
      AndWindow(x / 2, n, m - 1);
    }
  }

  // ----- Little-endian byte strings -----

  function LeBytes(v: nat, n: nat): (bytes: seq<u8>)
    ensures |bytes| == n
  {
    if n == 0 then [] else [v % 256] + LeBytes(v / 256, n - 1)
  }

  function LeValue(bytes: seq<u8>): nat {
    if bytes == [] then 0 else bytes[0] + 256 * LeValue(bytes[1..])
  }

  /** Reading back n little-endian bytes of v gives v modulo 256^n. */
  lemma {:induction false} LeValueOfBytes(v: nat, n: nat)
    ensures LeValue(LeBytes(v, n)) == v % Pow2(8 * n)
  {
    if n > 0 {
      LeValueOfBytes(v / 256, n - 1);
      RemainderByte(v, 8 * (n - 1));
      assert LeBytes(v, n)[1..] == LeBytes(v / 256, n - 1);
    }
  }

  lemma RemainderByte(v: nat, n: nat)
    ensures v % Pow2(n + 8) == v % 256 + 256 * (v / 256 % Pow2(n))
  {
    PowByte(n);
    var p := Pow2(n);
    var q, r := v / 256 / p, v / 256 % p;
    assert v / 256 == q * p + r;
    assert q * (256 * p) == 256 * (q * p);
    DivModUnique(v, 256 * p, q, 256 * r + v % 256);
  }

  lemma {:induction false} LeValueBound(bytes: seq<u8>)
    ensures LeValue(bytes) < Pow2(8 * |bytes|)
  {
    if bytes != [] {
      LeValueBound(bytes[1..]);
      PowByte(8 * (|bytes| - 1));
    }
  }

  lemma SplitByte(low: u8, high: nat)
    ensures (low + 256 * high) % 256 == low && (low + 256 * high) / 256 == high
  {
  }

  /** The bytes a value came from are the bytes it encodes to. */
  lemma {:induction false} LeBytesOfValue(bytes: seq<u8>)
    ensures LeBytes(LeValue(bytes), |bytes|) == bytes
  {
    if bytes != [] {
      LeBytesOfValue(bytes[1..]);
      SplitByte(bytes[0], LeValue(bytes[1..]));
      assert bytes == [bytes[0]] + bytes[1..];
    }
  }

  /** Halving a quotient by p is the quotient by 2p. */
  lemma QuotientBit(x: nat, p: nat)
    requires p > 0
    ensures x / 2 / p == x / (2 * p)
  {
    var q, r := x / 2 / p, x / 2 % p;
    assert x / 2 == q * p + r;
    assert q * (2 * p) == 2 * (q * p);
    DivModUnique(x, 2 * p, q, 2 * r + x % 2);
  }

  lemma {:induction false} ShrIsQuotient(x: nat, n: nat)
    ensures Shr(x, n) == x / Pow2(n)
  {
    if n > 0 {
      ShrIsQuotient(x / 2, n - 1);
      QuotientBit(x, Pow2(n - 1));
    }
  }

  lemma {:induction false} LeBytesShifted(v: nat, n: nat, i: nat)
    requires i < n
    ensures LeBytes(v, n)[i] == Shr(v, 8 * i) % 256
  {
    if i > 0 {
      LeBytesShifted(v / 256, n - 1, i - 1);
      ShrByte(v, 8 * (i - 1));
    }
  }

  /** Byte i is the i-th digit of the value in base 256. */
  lemma LeBytesAt(v: nat, n: nat, i: nat)
    requires i < n
    ensures LeBytes(v, n)[i] == v / Pow2(8 * i) % 256
  {
    LeBytesShifted(v, n, i);
    ShrIsQuotient(v, 8 * i);
  }

  function Mask8(x: nat): (b: u8)
    ensures b == x % 0x100
  {
    PowConstants();
    AndLow(x, 8);
    LowByte(x);
    And(x, 0xFF)
  }

  function Mask16(x: nat): (w: u16)
    ensures w == x % 0x1_0000
  {
    PowConstants();
    AndLow(x, 16);
    LowIsRemainder(x, 16);
    And(x, 0xFFFF)
  }

  /** The byte after n others: the value shifted right by 8n, masked. */
  function ByteAt(v: nat, n: nat): (b: u8)
    ensures b == Shr(v, 8 * n) % 256
  {
    Mask8(Shr(v, 8 * n))
  }

  lemma ByteAtShift(v: nat, n: nat)
    requires n > 0
    ensures ByteAt(v, n) == ByteAt(v / 256, n - 1)
  {
    ShrByte(v, 8 * (n - 1));
  }

  lemma ByteAtZero(v: nat)
    ensures ByteAt(v, 0) == v % 256
  {
    assert Shr(v, 0) == v;
  }

  lemma {:induction false} LeBytesNext(v: nat, n: nat)
    ensures LeBytes(v, n + 1) == LeBytes(v, n) + [ByteAt(v, n)]
  {
    if n == 0 {
      ByteAtZero(v);
      assert LeBytes(v, 1) == [v % 256] + LeBytes(v / 256, 0);
    } else {
      LeBytesNext(v / 256, n - 1);
      ByteAtShift(v, n);
      var first, middle, last := [v % 256], LeBytes(v / 256, n - 1), [ByteAt(v, n)];
      assert LeBytes(v, n + 1) == first + (middle + last);
      assert LeBytes(v, n) == first + middle;
    }
  }

  lemma {:induction false} LeValueSnoc(bytes: seq<u8>, b: u8)
    ensures LeValue(bytes + [b]) == LeValue(bytes) + Shl(b, 8 * |bytes|)
  {
    if bytes == [] {
      assert LeValue([b]) == b + 256 * LeValue([]);
    } else {
      LeValueSnoc(bytes[1..], b);
      ShlByte(b, 8 * (|bytes| - 1));
      assert (bytes + [b])[1..] == bytes[1..] + [b];
    }
  }

  lemma {:induction false} PowMonotone(m: nat, n: nat)
    requires m <= n
    ensures Pow2(m) <= Pow2(n)
  {
    if m < n {
      PowMonotone(m, n - 1);
    }
  }

  /** At most eight bytes fit a 64-bit word. */
  lemma WordBound(bytes: seq<u8>)
    requires |bytes| <= 8
    ensures LeValue(bytes) < 0x1_0000_0000_0000_0000
  {
    LeValueBound(bytes);
    PowMonotone(8 * |bytes|, 64);
    Pow64();
  }

  lemma Fits8(x: nat)
    requires x < 0x100
    ensures U8(x) == x
  {
  }

  lemma Fits64(x: nat)
    requires x < 0x1_0000_0000_0000_0000
    ensures U64(x) == x
  {
  }

  /** Or-ing byte n in at bit 8n of a 64-bit word extends the value read so far. */
  lemma LeValueOr(bytes: seq<u8>, b: u8)
    requires |bytes| < 8
    ensures Or(LeValue(bytes), U64(Shl(b, 8 * |bytes|))) == LeValue(bytes + [b])
  {
    LeValueBound(bytes);
    LeValueSnoc(bytes, b);
    WordBound(bytes + [b]);
    Fits64(Shl(b, 8 * |bytes|));
    OrDisjoint(LeValue(bytes), b, 8 * |bytes|);
  }
}
