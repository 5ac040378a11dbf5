/** Unsigned LEB128 (section 7.6 of DWARF Version 5) under the rules of Go's encoding/binary:
    a uint64 in at most ten bytes, a tenth byte of at most 1, longer forms than needed accepted. */
module Varint {
  import opened Bytes

  const MAX_VARINT_LEN := 10

  // ----- base-128 specification -----

  /** The shortest form of n, least significant digit first. */
  function Encode(n: nat): (s: seq<Byte>)
    ensures |s| >= 1
  {
    if n < 0x80 then [n] else [n % 128 + 128] + Encode(n / 128)
  }

  function Pow128(k: nat): (p: nat)
    ensures p > 0
  {
    if k == 0 then 1 else 128 * Pow128(k - 1)
  }

  /** Digit k has weight 128^k, and every byte but the last is flagged. */
  lemma {:induction false} EncodeDigit(n: nat, k: nat)
    requires k < |Encode(n)|
    ensures Encode(n)[k] % 128 == n / Pow128(k) % 128
    ensures Encode(n)[k] >= 128 <==> k < |Encode(n)| - 1
  {
    if k > 0 {
      EncodeDigit(n / 128, k - 1);
      DivDiv128(n, Pow128(k - 1));
    }
  }

  datatype Parsed =
    | Complete(value: nat, size: nat)
    | Truncated
    | Overflow

  /** The number at the front of buf, whose first byte has index i in the whole form. */
  function ParseFrom(buf: seq<Byte>, i: nat): (p: Parsed)
    ensures p.Complete? ==> 1 <= p.size <= |buf| && i + p.size <= MAX_VARINT_LEN
    decreases |buf|
  {
    if buf == [] then Truncated
    else if i >= MAX_VARINT_LEN then Overflow
    else if buf[0] < 0x80 then
      if i == MAX_VARINT_LEN - 1 && buf[0] > 1 then Overflow else Complete(buf[0], 1)
    else
      match ParseFrom(buf[1..], i + 1)
      case Complete(v, k) => Complete(buf[0] - 128 + 128 * v, k + 1)
      case other => other
  }

  function Parse(buf: seq<Byte>): (p: Parsed)
    ensures p.Complete? ==> 1 <= p.size <= |buf| && p.size <= MAX_VARINT_LEN
  {
    ParseFrom(buf, 0)
  }

  // ----- bounds -----

  /** The first number too large for the digits that may still follow i of them. */
  function Room(i: nat): (r: nat)
    requires i <= MAX_VARINT_LEN
    ensures i < MAX_VARINT_LEN ==> r >= 2
    ensures i < MAX_VARINT_LEN - 1 ==> r >= 128
    decreases MAX_VARINT_LEN - i
  {
    if i == MAX_VARINT_LEN then 0
    else if i == MAX_VARINT_LEN - 1 then 2
    else 128 * Room(i + 1)
  }

  lemma RoomForUint64()
    ensures Room(0) == TWO_64
  {
    assert Room(8) == 128 * 2;
    assert Room(6) == 128 * (128 * Room(8));
    assert Room(4) == 128 * (128 * Room(6));
    assert Room(2) == 128 * (128 * Room(4));
  }

  lemma {:induction false} ParsedFits(buf: seq<Byte>, i: nat)
    requires i <= MAX_VARINT_LEN
    ensures ParseFrom(buf, i).Complete? ==> ParseFrom(buf, i).value < Room(i)
    decreases |buf|
  {
    if buf != [] && i < MAX_VARINT_LEN && buf[0] >= 0x80 {
      ParsedFits(buf[1..], i + 1);
    }
  }

  /** Reading back a written number followed by anything. It succeeds exactly when the number
      fits in what the reader accepts. */
  lemma {:induction false} ParseEncodedFrom(n: nat, rest: seq<Byte>, i: nat)
    requires i <= MAX_VARINT_LEN
    ensures n < Room(i) ==> ParseFrom(Encode(n) + rest, i) == Complete(n, |Encode(n)|)
    ensures n >= Room(i) ==> !ParseFrom(Encode(n) + rest, i).Complete?
    decreases n
  {
    var buf := Encode(n) + rest;
    if n >= 0x80 && i < MAX_VARINT_LEN {
      ParseEncodedFrom(n / 128, rest, i + 1);
      assert buf[1..] == Encode(n / 128) + rest;
    }
  }

  /** The reader inverts the writer, whatever follows, exactly on the uint64 numbers. */
  lemma ParseEncoded(n: nat, rest: seq<Byte>)
    ensures n < TWO_64 ==> Parse(Encode(n) + rest) == Complete(n, |Encode(n)|)
    ensures n >= TWO_64 ==> !Parse(Encode(n) + rest).Complete?
    ensures n < TWO_64 ==> |Encode(n)| <= MAX_VARINT_LEN
  {
    RoomForUint64();
    ParseEncodedFrom(n, rest, 0);
  }

  lemma FirstByte(n: nat, rest: seq<Byte>)
    ensures var buf := Encode(n) + rest;
            if n < 0x80 then buf[0] == n && buf[1..] == rest
            else buf[0] == n % 128 + 128 && buf[1..] == Encode(n / 128) + rest
  {
  }

  /** No written number is a prefix of another. */
  lemma {:induction false} EncodePrefixFree(m: nat, n: nat, restM: seq<Byte>, restN: seq<Byte>)
    requires Encode(m) + restM == Encode(n) + restN
    ensures m == n && restM == restN
    decreases m
  {
    FirstByte(m, restM);
    FirstByte(n, restN);
    if m >= 0x80 {
      EncodePrefixFree(m / 128, n / 128, restM, restN);
    }
  }

  /** The reader returns uint64 numbers only. */
  lemma ParsedIsUint64(buf: seq<Byte>)
    ensures Parse(buf).Complete? ==> Parse(buf).value < TWO_64
  {
    RoomForUint64();
    ParsedFits(buf, 0);
  }

  /** What follows a complete form does not matter, nor can a complete form be cut short. */
  lemma {:induction false} ParsePrefix(buf: seq<Byte>, more: seq<Byte>, i: nat)
    requires ParseFrom(buf, i).Complete?
    ensures ParseFrom(buf + more, i) == ParseFrom(buf, i)
    decreases |buf|
  {
    if buf[0] >= 0x80 {
      ParsePrefix(buf[1..], more, i + 1);
      assert (buf + more)[1..] == buf[1..] + more;
    }
  }

  lemma {:induction false} ParseExact(buf: seq<Byte>, i: nat)
    requires ParseFrom(buf, i).Complete?
    ensures ParseFrom(buf[..ParseFrom(buf, i).size], i) == ParseFrom(buf, i)
    decreases |buf|
  {
    var k := ParseFrom(buf, i).size;
    if buf[0] >= 0x80 {
      ParseExact(buf[1..], i + 1);
      assert buf[..k][1..] == buf[1..][..k - 1];
    }
  }

  // ----- exactly what is accepted -----

  /** The number whose base-128 digits a form holds, least significant first. */
  function DigitSum(form: seq<Byte>): nat {
    if form == [] then 0 else form[0] % 128 + 128 * DigitSum(form[1..])
  }

  /** A form of a number, not necessarily the shortest: every byte but the last has its top bit set,
      and a tenth byte is at most 1. */
  ghost predicate IsForm(form: seq<Byte>, n: nat) {
    && 1 <= |form| <= 10
    && (forall i :: 0 <= i < |form| - 1 ==> form[i] >= 0x80)
    && form[|form| - 1] < 0x80
    && (|form| == 10 ==> form[9] <= 1)
    && n == DigitSum(form)
  }

  /** The bytes from index i of a whole form on. */
  ghost predicate IsTail(form: seq<Byte>, i: nat, n: nat) {
    && 1 <= |form| && i + |form| <= 10
    && (forall j :: 0 <= j < |form| - 1 ==> form[j] >= 0x80)
    && form[|form| - 1] < 0x80
    && (i + |form| == 10 ==> form[|form| - 1] <= 1)
    && n == DigitSum(form)
  }

  lemma TailOfTail(form: seq<Byte>, i: nat, n: nat)
    requires |form| >= 2
    ensures IsTail(form, i, n) <==>
              form[0] >= 0x80 && n >= form[0] - 0x80 && IsTail(form[1..], i + 1, DigitSum(form[1..]))
                && n == form[0] - 0x80 + 128 * DigitSum(form[1..])
  {
    var rest := form[1..];
    assert forall j :: 0 <= j < |rest| ==> rest[j] == form[j + 1];
    assert forall j :: 1 <= j < |form| ==> form[j] == rest[j - 1];
  }

  /** Whatever parses is a form. */
  lemma {:induction false} ParsedIsTail(buf: seq<Byte>, i: nat)
    requires ParseFrom(buf, i).Complete?
    ensures IsTail(buf[..ParseFrom(buf, i).size], i, ParseFrom(buf, i).value)
    decreases |buf|
  {
    var k := ParseFrom(buf, i).size;
    if buf[0] < 0x80 {
      assert buf[..1][1..] == [];
    } else {
      ParsedIsTail(buf[1..], i + 1);
      assert buf[..k][1..] == buf[1..][..k - 1];
      TailOfTail(buf[..k], i, ParseFrom(buf, i).value);
    }
  }

  /** Every form parses. */
  lemma {:induction false} TailParses(form: seq<Byte>, i: nat, n: nat)
    requires IsTail(form, i, n)
    ensures ParseFrom(form, i) == Complete(n, |form|)
    decreases |form|
  {
    if |form| == 1 {
      assert DigitSum(form[1..]) == 0;
      assert form[0] % 128 == form[0];
    } else {
      TailOfTail(form, i, n);
      TailParses(form[1..], i + 1, DigitSum(form[1..]));
    }
  }

  /** The reader accepts exactly the forms, shortest or not, and returns the number and its size. */
  lemma ParsesExactly(buf: seq<Byte>, n: nat, k: nat)
    ensures Parse(buf) == Complete(n, k) <==> k <= |buf| && IsForm(buf[..k], n)
  {
    if Parse(buf) == Complete(n, k) {
      ParsedIsTail(buf, 0);
      assert IsTail(buf[..k], 0, n);
    }
    if k <= |buf| && IsForm(buf[..k], n) {
      assert IsTail(buf[..k], 0, n);
      TailParses(buf[..k], 0, n);
      ParsePrefix(buf[..k], buf[k..], 0);
      assert buf == buf[..k] + buf[k..];
    }
  }

  lemma {:induction false} TruncatedFrom(buf: seq<Byte>, i: nat)
    requires i <= MAX_VARINT_LEN
    ensures ParseFrom(buf, i).Truncated? <==> i + |buf| <= 10 && forall j :: 0 <= j < |buf| ==> buf[j] >= 0x80
    decreases |buf|
  {
    if buf != [] && i < MAX_VARINT_LEN && buf[0] >= 0x80 {
      TruncatedFrom(buf[1..], i + 1);
      assert forall j :: 0 < j < |buf| ==> buf[j] == buf[1..][j - 1];
    }
  }

  /** It asks for more bytes exactly when there are at most ten, all with the top bit set. */
  lemma TruncatedExactly(buf: seq<Byte>)
    ensures Parse(buf).Truncated? <==> |buf| <= 10 && forall j :: 0 <= j < |buf| ==> buf[j] >= 0x80
  {
    TruncatedFrom(buf, 0);
  }

  // ----- minimality -----

  /** A larger number has no shorter form. */
  lemma {:induction false} LengthMonotone(m: nat, n: nat)
    requires m <= n
    ensures |Encode(m)| <= |Encode(n)|
    decreases n
  {
    if m >= 0x80 {
      LengthMonotone(m / 128, n / 128);
    }
  }

  /** Every accepted form of a number is at least as long as the written one... */
  lemma {:induction false} EncodedShortestFrom(buf: seq<Byte>, i: nat)
    requires ParseFrom(buf, i).Complete?
    ensures |Encode(ParseFrom(buf, i).value)| <= ParseFrom(buf, i).size
    decreases |buf|
  {
    if buf[0] >= 0x80 {
      EncodedShortestFrom(buf[1..], i + 1);
    }
  }

  /** ... and the written one is the only form of that length. */
  lemma {:induction false} ShortestUniqueFrom(buf: seq<Byte>, i: nat)
    requires ParseFrom(buf, i).Complete?
    requires ParseFrom(buf, i).size == |Encode(ParseFrom(buf, i).value)|
    ensures buf[..ParseFrom(buf, i).size] == Encode(ParseFrom(buf, i).value)
    decreases |buf|
  {
    if buf[0] >= 0x80 {
      var rest := ParseFrom(buf[1..], i + 1);
      ShortestUniqueFrom(buf[1..], i + 1);
      assert buf[..rest.size + 1] == [buf[0]] + buf[1..][..rest.size];
    }
  }

  lemma EncodedShortest(buf: seq<Byte>)
    requires Parse(buf).Complete?
    ensures |Encode(Parse(buf).value)| <= Parse(buf).size
    ensures |Encode(Parse(buf).value)| == Parse(buf).size <==> buf[..Parse(buf).size] == Encode(Parse(buf).value)
  {
    EncodedShortestFrom(buf, 0);
    if |Encode(Parse(buf).value)| == Parse(buf).size {
      ShortestUniqueFrom(buf, 0);
    }
  }

  // ----- the library's loops, with shifts, ors and masks -----

  /** byte(x) | 0x80. */
  method ContinuationByte(x: Uint64) returns (b: Byte)
    ensures b == x % 128 + 128
  {
    assert x % 256 % 128 == x % 128;
    OrFlag(x % 256, 0x80);
    b := Or(x % 256, 0x80);
  }

  /** x >> 7. */
  method DropDigit(x: Uint64) returns (y: Uint64)
    ensures y == x / 128
  {
    Shr7(x);
    y := Shr(x, 7);
  }

  method PutUvarint(buf: array<Byte>, x: Uint64) returns (n: nat)
    requires buf.Length >= MAX_VARINT_LEN
    modifies buf
    ensures n == |Encode(x)| <= MAX_VARINT_LEN
    ensures buf[..n] == Encode(x)
  {
    ParseEncoded(x, []);
    var i, y := 0, x;
    while y >= 0x80
      invariant 0 <= i <= MAX_VARINT_LEN && 0 <= y < TWO_64
      invariant i < |Encode(x)| && Encode(y) == Encode(x)[i..]
      invariant buf[..i] == Encode(x)[..i]
      decreases y
    {
      ghost var done := buf[..i];
      assert Encode(x)[i..][1..] == Encode(x)[i + 1..];
      assert Encode(y)[1..] == Encode(y / 128);
      buf[i] := ContinuationByte(y);
      y := DropDigit(y);
      assert buf[..i + 1] == done + [buf[i]];
      i := i + 1;
    }
    buf[i] := y;
    n := i + 1;
  }

  /** The parse of a whole buffer from the digits before position i and the parse of the rest. */
  function Resume(x: nat, i: nat, rest: Parsed): Parsed {
    match rest
    case Complete(v, k) => Complete(x + Shl(v, 7 * i), i + k)
    case other => other
  }

  lemma ResumeStep(x: nat, buf: seq<Byte>, i: nat)
    requires buf != [] && buf[0] >= 0x80 && i < MAX_VARINT_LEN
    ensures Resume(x, i, ParseFrom(buf, i))
         == Resume(x + Shl(buf[0] - 128, 7 * i), i + 1, ParseFrom(buf[1..], i + 1))
  {
    var rest := ParseFrom(buf[1..], i + 1);
    if rest.Complete? {
      ShlAdd(buf[0] - 128, 128 * rest.value, 7 * i);
      Shl7(rest.value);
      ShlCompose(rest.value, 7, 7 * i);
    }
  }

  lemma {:induction false} RoomShifted(i: nat)
    requires i < MAX_VARINT_LEN
    ensures Shl(Room(i), 7 * i) == TWO_64
  {
    if i == 0 {
      RoomForUint64();
    } else {
      RoomShifted(i - 1);
      Shl7(Room(i));
      ShlCompose(Room(i), 7, 7 * (i - 1));
    }
  }

  lemma DigitFits(x: nat, d: nat, i: nat, s: nat)
    requires i < MAX_VARINT_LEN && s == 7 * i && x < Shl(1, s) && d < Room(i)
    ensures x + Shl(d, s) < TWO_64
  {
    RoomShifted(i);
    ShlAdd(d, 1, s);
    ShlMonotone(d + 1, Room(i), s);
  }

  lemma DigitBelow(x: nat, d: nat, s: nat)
    requires x < Shl(1, s) && d < 128
    ensures x + Shl(d, s) < Shl(1, s + 7)
  {
    ShlAdd(d, 1, s);
    ShlMonotone(d + 1, 128, s);
    Shl7(1);
    ShlCompose(1, 7, s);
    assert 7 + s == s + 7;
  }

  /** b & 0x7f. */
  method LowSeven(b: Byte) returns (d: Byte)
    ensures d == b % 128
  {
    AndMask(b, 0x7f);
    d := And(b, 0x7f);
  }

  lemma Width64()
    ensures Shl(1, 64) == TWO_64
  {
    RoomShifted(MAX_VARINT_LEN - 1);
    ShlCompose(1, 1, 63);
    assert Shl(1, 1) == 2;
  }

  /** x | uint64(d) << s: a sum, unless the tenth byte of a form overflows. */
  method AddDigit(x: Uint64, d: Byte, s: nat, ghost i: nat) returns (y: Uint64)
    requires i < MAX_VARINT_LEN && s == 7 * i && x < Shl(1, s) && d < 128
    ensures d < Room(i) ==> y == x + Shl(d, s)
    ensures d < Room(i) ==> y < Shl(1, s + 7)
  {
    var z := Shl64(d, s);
    if d < Room(i) {
      DigitFits(x, d, i, s);
      OrDisjoint64(x, d, s);
      DigitBelow(x, d, s);
    }
    Width64();
    OrFits(x, z, 64);
    y := Or(x, z);
  }

  /** x | uint64(b & 0x7f) << s, as a step of the parse of a form whose next byte is b. */
  method TakeDigit(x: Uint64, b: Byte, s: nat, ghost i: nat, ghost tail: seq<Byte>) returns (y: Uint64)
    requires i < MAX_VARINT_LEN && s == 7 * i && x < Shl(1, s) && tail != [] && b == tail[0]
    ensures b < 0x80 && ParseFrom(tail, i).Complete? ==> Resume(x, i, ParseFrom(tail, i)) == Complete(y, i + 1)
    ensures b >= 0x80 && i < MAX_VARINT_LEN - 1 ==>
              Resume(x, i, ParseFrom(tail, i)) == Resume(y, i + 1, ParseFrom(tail[1..], i + 1))
    ensures i < MAX_VARINT_LEN - 1 ==> y < Shl(1, s + 7)
  {
    var d := LowSeven(b);
    y := AddDigit(x, d, s, i);
    if b >= 0x80 {
      ResumeStep(x, tail, i);
    }
  }

  lemma TenthDigit(x: nat, tail: seq<Byte>)
    requires tail != [] && tail[0] >= 0x80
    ensures Resume(x, MAX_VARINT_LEN - 1, ParseFrom(tail, MAX_VARINT_LEN - 1)) == ParseFrom(tail[1..], MAX_VARINT_LEN)
  {
  }

  /** The pair binary.Uvarint returns for a parse: n <= 0 reports a failure. */
  predicate Reports(p: Parsed, value: nat, n: int) {
    match p
    case Complete(v, k) => value == v && n == k
    case Truncated => value == 0 && n == 0
    case Overflow => value == 0 && (n == -MAX_VARINT_LEN || n == -(MAX_VARINT_LEN + 1))
  }

  method Uvarint(buf: seq<Byte>) returns (value: Uint64, n: int)
    ensures Reports(Parse(buf), value, n)
  {
    var x: Uint64, s: nat := 0, 0;
    ghost var tail := buf;
    for i := 0 to |buf|
      invariant i <= MAX_VARINT_LEN && s == 7 * i && tail == buf[i..]
      invariant i < MAX_VARINT_LEN ==> x < Shl(1, s) && Parse(buf) == Resume(x, i, ParseFrom(tail, i))
      invariant i == MAX_VARINT_LEN ==> Parse(buf) == ParseFrom(tail, i)
    {
      assert tail[0] == buf[i] && tail[1..] == buf[i + 1..];
      if i == MAX_VARINT_LEN {
        return 0, -(i + 1);
      }
      var b := buf[i];
      if b < 0x80 && i == MAX_VARINT_LEN - 1 && b > 1 {
        return 0, -(i + 1);
      }
      var y := TakeDigit(x, b, s, i, tail);
      if b < 0x80 {
        return y, i + 1;
      }
      if i == MAX_VARINT_LEN - 1 {
        TenthDigit(x, tail);
      }
      x, s, tail := y, s + 7, tail[1..];
    }
    return 0, 0;
  }
}
