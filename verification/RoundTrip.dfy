/** Decoding what the encoder wrote gives the value back exactly when it is within the decoder's limits. */
module RoundTrip {
  import opened Bytes
  import opened Values
  import opened Decoder
  import Varint

  // ----- one field -----

  lemma FieldLayout(code: Byte, p: seq<Byte>, rest: seq<Byte>)
    ensures var buf := Field(code, p) + rest;
            var start := 1 + |Varint.Encode(|p|)|;
            && |Field(code, p)| == start + |p|
            && buf[0] == code
            && buf[1..] == Varint.Encode(|p|) + (p + rest)
            && buf[start..start + |p|] == p
            && buf[start + |p|..] == rest
  {
  }

  lemma DecodeFieldOf(code: Byte, p: seq<Byte>, rest: seq<Byte>, depth: nat)
    ensures |p| > MAX_PAYLOAD ==> DecodeField(Field(code, p) + rest, depth).Err?
    ensures |p| <= MAX_PAYLOAD ==>
              DecodeField(Field(code, p) + rest, depth) ==
                match DecodeValue(code, p, depth + 1)
                case Ok(v) => Ok((v, |Field(code, p)|))
                case Err(e) => Err(e)
  {
    FieldLayout(code, p, rest);
    Varint.ParseEncoded(|p|, p + rest);
  }

  // ----- scalars -----

  lemma FixedRoundTrip(n: nat, width: nat)
    requires n < Pow256(width)
    ensures Fixed(BigEndian(n, width), width) == Ok(n)
  {
    BigEndianRoundTrip(n, width);
    assert BigEndian(n, width)[..width] == BigEndian(n, width);
  }

  lemma UnsignedRoundTrip(v: Value)
    requires v.U16? || v.U32? || v.U64? || v.F32? || v.F64?
    ensures DecodeScalar(TypeCode(v), ScalarPayload(v)) == Ok(v)
  {
    Widths();
    match v
    case U16(n) => FixedRoundTrip(n, 2);
    case U32(n) => FixedRoundTrip(n, 4);
    case U64(n) => FixedRoundTrip(n, 8);
    case F32(n) => FixedRoundTrip(n, 4);
    case F64(n) => FixedRoundTrip(n, 8);
  }

  lemma SignedRoundTrip(v: Value)
    requires v.I32? || v.I64? || v.Timestamp?
    ensures DecodeScalar(TypeCode(v), ScalarPayload(v)) == Ok(v)
  {
    Widths();
    match v
    case I32(n) => FixedRoundTrip(ToUnsigned(n, TWO_32), 4);
    case I64(n) => FixedRoundTrip(ToUnsigned(n, TWO_64), 8);
    case Timestamp(n) => FixedRoundTrip(ToUnsigned(n, TWO_64), 8);
  }

  lemma ScalarRoundTrip(v: Value)
    requires !IsContainer(v) && !v.Foreign?
    ensures DecodeScalar(TypeCode(v), ScalarPayload(v)) == Ok(v)
  {
    if v.I32? || v.I64? || v.Timestamp? {
      SignedRoundTrip(v);
    } else if v.U16? || v.U32? || v.U64? || v.F32? || v.F64? {
      UnsignedRoundTrip(v);
    }
  }

  lemma ScalarDecodes(v: Value, depth: nat)
    requires !IsContainer(v) && !v.Foreign?
    ensures DecodeValue(TypeCode(v), Payload(v), depth) == if depth > MAX_DEPTH then Err(TooDeep) else Ok(v)
  {
    ScalarRoundTrip(v);
    ScalarCode(v);
  }

  lemma ScalarCode(v: Value)
    ensures IsContainer(v) <==> TypeCode(v) == ARRAY || TypeCode(v) == MAP
  {
  }

  // ----- containers -----

  /** The elements of an array decoded at a depth come back. */
  predicate AllFit(vs: seq<Value>, depth: nat) {
    vs != [] ==>
      && depth + 1 + DepthOfAll(vs) <= MAX_DEPTH
      && forall x :: x in vs ==> |Payload(x)| <= MAX_PAYLOAD && SmallBelow(x)
  }

  predicate EntriesFit(es: seq<Entry>, depth: nat) {
    es != [] ==>
      && depth + 2 + DepthOfEntries(es) <= MAX_DEPTH
      && forall e :: e in es ==> |e.key| <= MAX_PAYLOAD && |Payload(e.value)| <= MAX_PAYLOAD && SmallBelow(e.value)
  }

  predicate Good(v: Value) {
    Encodable(v) && DistinctKeyed(v)
  }

  lemma {:induction false} DecodeEncoded(v: Value, depth: nat)
    requires Good(v)
    ensures depth + Depth(v) <= MAX_DEPTH && SmallBelow(v) ==> DecodeValue(TypeCode(v), Payload(v), depth) == Ok(v)
    ensures !(depth + Depth(v) <= MAX_DEPTH && SmallBelow(v)) ==> DecodeValue(TypeCode(v), Payload(v), depth).Err?
    decreases v, 1
  {
    match v
    case Array(vs) => DecodeEncodedAll(vs, depth);
    case Map(es) =>
      assert [] + es == es;
      DecodeEncodedEntries(es, depth, []);
    case _ => ScalarDecodes(v, depth);
  }

  /** A value that decodes as a field at the given depth. */
  predicate FieldFits(v: Value, depth: nat) {
    depth + 1 + Depth(v) <= MAX_DEPTH && |Payload(v)| <= MAX_PAYLOAD && SmallBelow(v)
  }

  lemma AllFitCons(vs: seq<Value>, depth: nat)
    requires vs != []
    ensures AllFit(vs, depth) <==> FieldFits(vs[0], depth) && AllFit(vs[1..], depth)
  {
    assert vs == [vs[0]] + vs[1..];
    if AllFit(vs, depth) {
      assert vs[0] in vs;
    }
  }

  lemma EntriesFitCons(es: seq<Entry>, depth: nat)
    requires es != []
    ensures EntriesFit(es, depth) <==>
              |es[0].key| <= MAX_PAYLOAD && FieldFits(es[0].value, depth + 1) && EntriesFit(es[1..], depth)
  {
    assert es == [es[0]] + es[1..];
    if EntriesFit(es, depth) {
      assert es[0] in es;
    }
  }

  lemma {:induction false} DecodeEncodedField(v: Value, rest: seq<Byte>, depth: nat)
    requires Good(v)
    ensures FieldFits(v, depth) ==> DecodeField(Encode(v) + rest, depth) == Ok((v, |Encode(v)|))
    ensures !FieldFits(v, depth) ==> DecodeField(Encode(v) + rest, depth).Err?
    decreases v, 2
  {
    DecodeEncoded(v, depth + 1);
    DecodeFieldOf(TypeCode(v), Payload(v), rest, depth);
  }

  lemma {:induction false} DecodeEncodedAll(vs: seq<Value>, depth: nat)
    requires forall x :: x in vs ==> Good(x)
    ensures AllFit(vs, depth) ==> DecodeElems(EncodeAll(vs), depth) == Ok(vs)
    ensures !AllFit(vs, depth) ==> DecodeElems(EncodeAll(vs), depth).Err?
    decreases vs, 0
  {
    if vs != [] {
      var v, rest := vs[0], EncodeAll(vs[1..]);
      DecodeEncodedField(v, rest, depth);
      DecodeEncodedAll(vs[1..], depth);
      AllFitCons(vs, depth);
      assert EncodeAll(vs)[|Encode(v)|..] == rest;
      assert vs == [v] + vs[1..];
    }
  }

  lemma {:induction false} FindAbsent(es: seq<Entry>, key: seq<Byte>)
    requires key !in Keys(es)
    ensures Find(es, key) == |es|
  {
    assert forall i :: 0 <= i < |es| ==> Keys(es)[i] == es[i].key;
  }

  lemma KeysAppend(xs: seq<Entry>, ys: seq<Entry>)
    ensures Keys(xs + ys) == Keys(xs) + Keys(ys)
  {
  }

  lemma {:induction false} DecodeEncodedEntries(es: seq<Entry>, depth: nat, done: seq<Entry>)
    requires forall e :: e in es ==> Good(e.value)
    requires Distinct(Keys(done + es))
    ensures EntriesFit(es, depth) ==> DecodeEntries(EncodeEntries(es), depth, done) == Ok(done + es)
    ensures !EntriesFit(es, depth) ==> DecodeEntries(EncodeEntries(es), depth, done).Err?
    decreases es, 0
  {
    if es == [] {
      assert done + es == done;
    } else {
      var e := es[0];
      EntriesFitCons(es, depth);
      DecodeEncodedKey(e, EncodeEntries(es[1..]), depth);
      DecodeEncodedField(e.value, EncodeEntries(es[1..]), depth + 1);
      EntriesLayout(es);
      SetFresh(es, done);
      DecodeEncodedEntries(es[1..], depth, done + [e]);
    }
  }

  /** The three parts of an encoded list of entries. */
  lemma EntriesLayout(es: seq<Entry>)
    requires es != []
    ensures var rest := EncodeEntries(es[1..]);
            var value := Encode(es[0].value);
            && EncodeEntries(es) == Field(STRING, es[0].key) + (value + rest)
            && EncodeEntries(es)[|Field(STRING, es[0].key)|..] == value + rest
            && (value + rest)[|value|..] == rest
  {
    ThreeParts(Field(STRING, es[0].key), Encode(es[0].value), EncodeEntries(es[1..]));
  }

  lemma ThreeParts(a: seq<Byte>, b: seq<Byte>, c: seq<Byte>)
    ensures a + b + c == a + (b + c) && (a + (b + c))[|a|..] == b + c && (b + c)[|b|..] == c
  {
  }

  lemma DecodeEncodedKey(e: Entry, rest: seq<Byte>, depth: nat)
    ensures var buf := Field(STRING, e.key) + (Encode(e.value) + rest);
            if depth + 2 <= MAX_DEPTH && |e.key| <= MAX_PAYLOAD
            then DecodeField(buf, depth + 1) == Ok((Str(e.key), |Field(STRING, e.key)|))
            else DecodeField(buf, depth + 1).Err?
  {
    DecodeFieldOf(STRING, e.key, Encode(e.value) + rest, depth + 1);
  }

  lemma SetFresh(es: seq<Entry>, done: seq<Entry>)
    requires es != [] && Distinct(Keys(done + es))
    ensures SetEntry(done, es[0].key, es[0].value) == done + [es[0]]
    ensures done + [es[0]] + es[1..] == done + es
  {
    KeysAppend(done, es);
    assert forall i :: 0 <= i < |done| ==> Keys(done + es)[i] == done[i].key;
    assert Keys(done + es)[|done|] == es[0].key;
    FindAbsent(done, es[0].key);
  }

  // ----- the root -----

  /** The bytes of buf that DecodeBytes looks at: type code, length, payload. */
  function Consumed(buf: seq<Byte>): nat {
    if buf == [] then 0
    else
      match Varint.Parse(buf[1..])
      case Complete(length, n) => 1 + n + length
      case _ => 0
  }

  /** Once the length is read, the uint64 sum decides: a wrap panics, and otherwise the bytes consumed
      are there or they are not. */
  lemma RootDecoded(buf: seq<Byte>)
    requires buf != [] && Varint.Parse(buf[1..]).Complete?
    ensures Consumed(buf) >= TWO_64 ==> DecodeBytes(buf) == Panics
    ensures |buf| < Consumed(buf) < TWO_64 ==> DecodeBytes(buf) == Returns(Err(UnexpectedEof))
    ensures Consumed(buf) < TWO_64 && Consumed(buf) <= |buf| ==>
              var start := 1 + Varint.Parse(buf[1..]).size;
              DecodeBytes(buf) == Returns(DecodeValue(buf[0], buf[start..Consumed(buf)], 0))
  {
    Varint.ParsedIsUint64(buf[1..]);
  }

  lemma DecodeBytesOf(code: Byte, p: seq<Byte>, rest: seq<Byte>)
    requires |p| < MAX_INT
    ensures DecodeBytes(Field(code, p) + rest) == Returns(DecodeValue(code, p, 0))
  {
    FieldLayout(code, p, rest);
    Varint.ParseEncoded(|p|, p + rest);
    RootDecoded(Field(code, p) + rest);
  }

  /** For every distinct-keyed value and any bytes after it, the decoder returns the value
      exactly when it is within the limits, and reports an error otherwise. The size bound is
      that of a Go slice. */
  lemma ExactRoundTrip(v: Value, rest: seq<Byte>)
    requires Encodable(v) && DistinctKeyed(v) && |Encode(v)| <= MAX_INT
    ensures InLimits(v) <==> DecodeBytes(Encode(v) + rest) == Returns(Ok(v))
    ensures !InLimits(v) ==> DecodeBytes(Encode(v) + rest).Returns? && DecodeBytes(Encode(v) + rest).result.Err?
  {
    DecodeBytesOf(TypeCode(v), Payload(v), rest);
    DecodeEncoded(v, 0);
  }

  // ----- the encoding is prefix-free -----

  lemma FieldIsPrefixFree(code: Byte, p: seq<Byte>, rest: seq<Byte>, code': Byte, p': seq<Byte>, rest': seq<Byte>)
    requires Field(code, p) + rest == Field(code', p') + rest'
    ensures code == code' && p == p' && rest == rest'
  {
    FieldLayout(code, p, rest);
    FieldLayout(code', p', rest');
    Varint.EncodePrefixFree(|p|, |p'|, p + rest, p' + rest');
  }

  lemma {:induction false} PayloadDetermines(v: Value, w: Value)
    requires TypeCode(v) == TypeCode(w) && Payload(v) == Payload(w)
    ensures v == w
    decreases v, 0
  {
    match v
    case Array(vs) => ElementsDetermined(vs, w.elems);
    case Map(es) => EntriesDetermined(es, w.entries);
    case Foreign(_) =>
    case _ => ScalarDetermined(v, w);
  }

  lemma ScalarDetermined(v: Value, w: Value)
    requires !IsContainer(v) && !v.Foreign? && !IsContainer(w) && !w.Foreign?
    requires TypeCode(v) == TypeCode(w) && ScalarPayload(v) == ScalarPayload(w)
    ensures v == w
  {
    ScalarRoundTrip(v);
    ScalarRoundTrip(w);
  }

  lemma {:induction false} ElementsDetermined(vs: seq<Value>, ws: seq<Value>)
    requires EncodeAll(vs) == EncodeAll(ws)
    ensures vs == ws
    decreases vs, 0
  {
    if vs != [] && ws != [] {
      EncodingIsPrefixFree(vs[0], ws[0], EncodeAll(vs[1..]), EncodeAll(ws[1..]));
      ElementsDetermined(vs[1..], ws[1..]);
      assert vs == [vs[0]] + vs[1..] && ws == [ws[0]] + ws[1..];
    }
  }

  lemma {:induction false} EntriesDetermined(es: seq<Entry>, fs: seq<Entry>)
    requires EncodeEntries(es) == EncodeEntries(fs)
    ensures es == fs
    decreases es, 0
  {
    if es != [] && fs != [] {
      EntriesLayout(es);
      EntriesLayout(fs);
      FieldIsPrefixFree(STRING, es[0].key, Encode(es[0].value) + EncodeEntries(es[1..]),
                        STRING, fs[0].key, Encode(fs[0].value) + EncodeEntries(fs[1..]));
      EncodingIsPrefixFree(es[0].value, fs[0].value, EncodeEntries(es[1..]), EncodeEntries(fs[1..]));
      EntriesDetermined(es[1..], fs[1..]);
      assert es == [es[0]] + es[1..] && fs == [fs[0]] + fs[1..];
    }
  }

  /** No two values share an encoding, and none is the beginning of another: not even values with
      foreign type codes, duplicate keys or any nesting. */
  lemma {:induction false} EncodingIsPrefixFree(v: Value, w: Value, restV: seq<Byte>, restW: seq<Byte>)
    requires Encode(v) + restV == Encode(w) + restW
    ensures v == w && restV == restW
    decreases v, 1
  {
    FieldIsPrefixFree(TypeCode(v), Payload(v), restV, TypeCode(w), Payload(w), restW);
    PayloadDetermines(v, w);
  }
}
