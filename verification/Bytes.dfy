/** Bytes, fixed-width integers and the bit operations of Go's unsigned arithmetic. */
module Bytes {
  type Byte = b: int | 0 <= b < 0x100
  type Uint16 = n: int | 0 <= n < 0x1_0000
  type Uint32 = n: int | 0 <= n < 0x1_0000_0000
  type Uint64 = n: int | 0 <= n < 0x1_0000_0000_0000_0000
  type Int32 = n: int | -0x8000_0000 <= n < 0x8000_0000
  type Int64 = n: int | -0x8000_0000_0000_0000 <= n < 0x8000_0000_0000_0000

  const TWO_32 := 0x1_0000_0000
  const TWO_64 := 0x1_0000_0000_0000_0000

  /** The largest length a Go slice can have. */
  const MAX_INT := 0x7fff_ffff_ffff_ffff

  // ----- big-endian integers (encoding/binary.BigEndian) -----

  function Pow256(width: nat): (p: nat)
    ensures p > 0
  {
    if width == 0 then 1 else 256 * Pow256(width - 1)
  }

  function BigEndian(n: nat, width: nat): (s: seq<Byte>)
    ensures |s| == width
  {
    if width == 0 then [] else BigEndian(n / 256, width - 1) + [n % 256]
  }

  function FromBigEndian(s: seq<Byte>): (n: nat)
    ensures n < Pow256(|s|)
  {
    if s == [] then 0
    else
      var front := FromBigEndian(s[..|s| - 1]);
      assert 256 * front + 255 < 256 * Pow256(|s| - 1);
      256 * front + s[|s| - 1]
  }

  lemma FromBigEndianAppend(s: seq<Byte>, b: Byte)
    ensures FromBigEndian(s + [b]) == 256 * FromBigEndian(s) + b
  {
    assert (s + [b])[..|s|] == s;
  }

  lemma QuotientBelow(n: nat, p: nat)
    requires n < 256 * p
    ensures n / 256 < p
  {
  }

  lemma {:induction false} BigEndianRoundTrip(n: nat, width: nat)
    requires n < Pow256(width)
    ensures FromBigEndian(BigEndian(n, width)) == n
  {
    if width > 0 {
      QuotientBelow(n, Pow256(width - 1));
      BigEndianRoundTrip(n / 256, width - 1);
      FromBigEndianAppend(BigEndian(n / 256, width - 1), n % 256);
    }
  }

  lemma {:induction false} BigEndianSurjective(s: seq<Byte>)
    ensures BigEndian(FromBigEndian(s), |s|) == s
  {
    if s != [] {
      BigEndianSurjective(s[..|s| - 1]);
      assert FromBigEndian(s) / 256 == FromBigEndian(s[..|s| - 1]);
      assert s == s[..|s| - 1] + [s[|s| - 1]];
    }
  }

  lemma Widths()
    ensures Pow256(1) == 0x100 && Pow256(2) == 0x1_0000 && Pow256(4) == TWO_32 && Pow256(8) == TWO_64
  {
    assert Pow256(2) == 256 * Pow256(1);
    assert Pow256(4) == 256 * (256 * Pow256(2));
    assert Pow256(6) == 256 * (256 * Pow256(4));
    assert Pow256(8) == 256 * (256 * Pow256(6));
  }

  lemma DivModUnique(x: nat, d: int, q: nat, r: nat)
    requires r < d && x == d * q + r
    ensures x / d == q && x % d == r
  {
    var k := q - x / d;
    assert d * k == x % d - r;
    assert k >= 1 ==> d * k >= d;
    assert k <= -1 ==> d * k <= -d;
  }

  lemma MulAssociative(a: int, b: int, c: int)
    ensures a * (b * c) == (a * b) * c
  {
  }

  lemma DivDiv256(n: nat, d: int)
    requires d > 0
    ensures n / 256 / d == n / (256 * d)
  {
    var x := n / 256;
    MulAssociative(256, d, x / d);
    DivModUnique(n, 256 * d, x / d, 256 * (x % d) + n % 256);
  }

  lemma DivDiv128(n: nat, d: int)
    requires d > 0
    ensures n / 128 / d == n / (128 * d)
  {
    var x := n / 128;
    MulAssociative(128, d, x / d);
    DivModUnique(n, 128 * d, x / d, 128 * (x % d) + n % 128);
  }

  /** The byte k places from the end has weight 256^k: most significant byte first. */
  lemma {:induction false} BigEndianDigit(n: nat, width: nat, k: nat)
    requires k < width
    ensures BigEndian(n, width)[width - 1 - k] == n / Pow256(k) % 256
  {
    if k > 0 {
      BigEndianDigit(n / 256, width - 1, k - 1);
      DivDiv256(n, Pow256(k - 1));
    }
  }

  // Two's complement: the conversions uint32(int32), int32(uint32) and their 64-bit forms.

  function ToUnsigned(n: int, modulus: nat): (u: nat)
    requires -(modulus as int) <= 2 * n < modulus
    ensures u < modulus && (u == n || u == n + modulus)
  {
    if n < 0 then n + modulus else n
  }

  function ToSigned(u: nat, modulus: nat): (n: int)
    requires u < modulus
    ensures -(modulus as int) <= 2 * n < modulus && (n == u || n == u - modulus)
  {
    if 2 * u < modulus then u else u - modulus
  }

  // ----- bit operations on unsigned integers -----

  /** Bitwise or. */
  function Or(a: nat, b: nat): nat
    decreases a + b
  {
    if a == 0 && b == 0 then 0
    else (if a % 2 == 1 || b % 2 == 1 then 1 else 0) + 2 * Or(a / 2, b / 2)
  }

  /** Bitwise and. */
  function And(a: nat, b: nat): nat
    decreases a + b
  {
    if a == 0 || b == 0 then 0
    else (if a % 2 == 1 && b % 2 == 1 then 1 else 0) + 2 * And(a / 2, b / 2)
  }

  /** x << s with no width. */
  function Shl(x: nat, s: nat): nat {
    if s == 0 then x else 2 * Shl(x, s - 1)
  }

  /** x << s on uint64: bits shifted out at the top are lost. */
  function Shl64(x: nat, s: nat): Uint64 {
    var y := Shl(x, s);
    if y < TWO_64 then y else y % 0x1_0000_0000_0000_0000
  }

  /** x >> s. */
  function Shr(x: nat, s: nat): nat {
    if s == 0 then x else Shr(x / 2, s - 1)
  }

  lemma {:induction false} ShlAdd(a: nat, b: nat, s: nat)
    ensures Shl(a + b, s) == Shl(a, s) + Shl(b, s)
  {
    if s > 0 {
      ShlAdd(a, b, s - 1);
    }
  }

  lemma {:induction false} ShlCompose(x: nat, s: nat, t: nat)
    ensures Shl(Shl(x, s), t) == Shl(x, s + t)
  {
    if t > 0 {
      ShlCompose(x, s, t - 1);
    }
  }

  lemma {:induction false} ShlMonotone(a: nat, b: nat, s: nat)
    requires a <= b
    ensures Shl(a, s) <= Shl(b, s)
  {
    if s > 0 {
      ShlMonotone(a, b, s - 1);
    }
  }

  lemma Shl7(x: nat)
    ensures Shl(x, 7) == 128 * x
  {
    assert Shl(x, 1) == 2 * x;
    assert Shl(x, 2) == 4 * x;
    assert Shl(x, 4) == 16 * x;
    assert Shl(x, 6) == 64 * x;
  }

  lemma Shr7(x: nat)
    ensures Shr(x, 7) == x / 128
  {
    assert Shr(x, 7) == Shr(x / 4, 5);
    assert Shr(x / 4, 5) == Shr(x / 16, 3);
    assert Shr(x / 16, 3) == Shr(x / 64, 1);
    assert Shr(x / 64, 1) == x / 128;
  }

  /** Bits that do not overlap are added by an or. */
  lemma {:induction false} OrDisjoint(low: nat, high: nat, s: nat)
    requires low < Shl(1, s)
    ensures Or(low, Shl(high, s)) == low + Shl(high, s)
  {
    if s == 0 {
      OrZero(high);
    } else {
      OrDisjoint(low / 2, high, s - 1);
    }
  }

  lemma {:induction false} OrZero(x: nat)
    ensures Or(0, x) == x
  {
    if x > 0 {
      OrZero(x / 2);
    }
  }

  /** Setting bit s of a number of at most s + 1 bits. */
  lemma {:induction false} OrTopBit(x: nat, s: nat)
    requires x < 2 * Shl(1, s)
    ensures Or(x, Shl(1, s)) == if x < Shl(1, s) then x + Shl(1, s) else x
  {
    if s > 0 {
      OrTopBit(x / 2, s - 1);
    }
  }

  /** The same on uint64, when the shift loses nothing. */
  lemma OrDisjoint64(low: nat, high: nat, s: nat)
    requires low < Shl(1, s) && Shl(high, s) < TWO_64
    ensures Or(low, Shl64(high, s)) == low + Shl(high, s)
  {
    OrDisjoint(low, high, s);
  }

  /** An or needs no more bits than its operands. */
  lemma {:induction false} OrFits(a: nat, b: nat, k: nat)
    requires a < Shl(1, k) && b < Shl(1, k)
    ensures Or(a, b) < Shl(1, k)
  {
    if k > 0 {
      OrFits(a / 2, b / 2, k - 1);
    }
  }

  function Ones(k: nat): nat {
    if k == 0 then 0 else 2 * Ones(k - 1) + 1
  }

  /** Masking with k ones keeps the low k bits. */
  lemma {:induction false} AndOnes(x: nat, k: nat)
    ensures And(x, Ones(k)) + Shl(Shr(x, k), k) == x
  {
    if k > 0 {
      AndOnes(x / 2, k - 1);
      assert Ones(k) / 2 == Ones(k - 1);
      if x == 0 {
        assert Shl(Shr(0, k - 1), k - 1) == 0;
      }
    }
  }

  lemma OrTopBitOf(x: nat, s: nat, flag: nat)
    requires flag == Shl(1, s) && x < 2 * flag
    ensures Or(x, flag) == if x < flag then x + flag else x
  {
    OrTopBit(x, s);
  }

  /** byte(x) | 0x80 in arithmetic. */
  lemma OrFlag(b: Byte, flag: nat)
    requires flag == 0x80
    ensures Or(b, flag) == b % 128 + 128
  {
    Shl7(1);
    OrTopBitOf(b, 7, flag);
    if b < 128 {
      DivModUnique(b, 128, 0, b);
    } else {
      DivModUnique(b, 128, 1, b - 128);
    }
  }

  lemma SevenOnes()
    ensures Ones(7) == 0x7f
  {
    assert Ones(3) == 7;
    assert Ones(5) == 31;
  }

  /** b & 0x7f in arithmetic. */
  lemma AndMask(b: Byte, mask: nat)
    requires mask == 0x7f
    ensures And(b, mask) == b % 128
  {
    SevenOnes();
    AndOnes(b, 7);
    Shr7(b);
    Shl7(b / 128);
  }
}
