/** Dynamically typed TLV values and their encoding: type code, LEB128 length, payload. */
module Values {
  import opened Bytes
  import Varint

  type ForeignCode = c: Byte | c == 0 || c > 15

  /** Floats are their IEEE 754 bit patterns, timestamps their Unix milliseconds. Foreign is a
      value carrying a type code outside the fifteen that the encoder knows. */
  datatype Value =
    | Str(text: seq<Byte>)
    | Blob(data: seq<Byte>)
    | U8(u8: Byte)
    | U16(u16: Uint16)
    | U32(u32: Uint32)
    | U64(u64: Uint64)
    | I32(i32: Int32)
    | I64(i64: Int64)
    | F32(bits32: Uint32)
    | F64(bits64: Uint64)
    | Boolean(flag: bool)
    | Array(elems: seq<Value>)
    | Map(entries: seq<Entry>)
    | Null
    | Timestamp(millis: Int64)
    | Foreign(code: ForeignCode)

  datatype Entry = Entry(key: seq<Byte>, value: Value)

  const STRING: Byte := 1
  const BYTES: Byte := 2
  const UINT8: Byte := 3
  const UINT16: Byte := 4
  const UINT32: Byte := 5
  const UINT64: Byte := 6
  const INT32: Byte := 7
  const INT64: Byte := 8
  const FLOAT32: Byte := 9
  const FLOAT64: Byte := 10
  const BOOL: Byte := 11
  const ARRAY: Byte := 12
  const MAP: Byte := 13
  const NULL: Byte := 14
  const TIMESTAMP: Byte := 15

  function TypeCode(v: Value): Byte {
    match v
    case Str(_) => STRING
    case Blob(_) => BYTES
    case U8(_) => UINT8
    case U16(_) => UINT16
    case U32(_) => UINT32
    case U64(_) => UINT64
    case I32(_) => INT32
    case I64(_) => INT64
    case F32(_) => FLOAT32
    case F64(_) => FLOAT64
    case Boolean(_) => BOOL
    case Array(_) => ARRAY
    case Map(_) => MAP
    case Null => NULL
    case Timestamp(_) => TIMESTAMP
    case Foreign(c) => c
  }

  predicate IsContainer(v: Value) {
    v.Array? || v.Map?
  }

  // ----- encoding -----

  function ScalarPayload(v: Value): seq<Byte>
    requires !IsContainer(v)
  {
    match v
    case Str(s) => s
    case Blob(b) => b
    case U8(n) => [n]
    case U16(n) => BigEndian(n, 2)
    case U32(n) => BigEndian(n, 4)
    case U64(n) => BigEndian(n, 8)
    case I32(n) => BigEndian(ToUnsigned(n, TWO_32), 4)
    case I64(n) => BigEndian(ToUnsigned(n, TWO_64), 8)
    case F32(n) => BigEndian(n, 4)
    case F64(n) => BigEndian(n, 8)
    case Boolean(b) => if b then [1] else [0]
    case Null => []
    case Timestamp(n) => BigEndian(ToUnsigned(n, TWO_64), 8)
    case Foreign(_) => []
  }

  /** Type code, length and payload of one value. */
  function Field(code: Byte, payload: seq<Byte>): seq<Byte> {
    [code] + Varint.Encode(|payload|) + payload
  }

  function Payload(v: Value): seq<Byte>
    decreases v, 0
  {
    match v
    case Array(vs) => EncodeAll(vs)
    case Map(es) => EncodeEntries(es)
    case _ => ScalarPayload(v)
  }

  function Encode(v: Value): seq<Byte>
    decreases v, 1
  {
    Field(TypeCode(v), Payload(v))
  }

  function EncodeAll(vs: seq<Value>): seq<Byte>
    decreases vs, 0
  {
    if vs == [] then [] else Encode(vs[0]) + EncodeAll(vs[1..])
  }

  function EncodeEntry(e: Entry): seq<Byte>
    decreases e, 0
  {
    Field(STRING, e.key) + Encode(e.value)
  }

  function EncodeEntries(es: seq<Entry>): seq<Byte>
    decreases es, 0
  {
    if es == [] then [] else EncodeEntry(es[0]) + EncodeEntries(es[1..])
  }

  // ----- shape of a value -----

  function Keys(es: seq<Entry>): (ks: seq<seq<Byte>>)
    ensures |ks| == |es|
  {
    seq(|es|, i requires 0 <= i < |es| => es[i].key)
  }

  predicate Distinct<T(==)>(s: seq<T>) {
    forall i, j :: 0 <= i < j < |s| ==> s[i] != s[j]
  }

  /** No foreign type code inside: what the encoder accepts. */
  predicate Encodable(v: Value) {
    match v
    case Array(vs) => forall x :: x in vs ==> Encodable(x)
    case Map(es) => forall e :: e in es ==> Encodable(e.value)
    case Foreign(_) => false
    case _ => true
  }

  /** Every map inside has distinct keys: what building maps with Set gives. */
  predicate DistinctKeyed(v: Value) {
    match v
    case Array(vs) => forall x :: x in vs ==> DistinctKeyed(x)
    case Map(es) => Distinct(Keys(es)) && forall e :: e in es ==> DistinctKeyed(e.value)
    case _ => true
  }

  function Max(a: nat, b: nat): nat {
    if a < b then b else a
  }

  /** Nesting as the decoder counts it: one level for an array, two for a map. */
  function Depth(v: Value): nat
    decreases v, 0
  {
    match v
    case Array(vs) => if vs == [] then 0 else 1 + DepthOfAll(vs)
    case Map(es) => if es == [] then 0 else 2 + DepthOfEntries(es)
    case _ => 0
  }

  function DepthOfAll(vs: seq<Value>): nat
    decreases vs, 0
  {
    if vs == [] then 0 else Max(Depth(vs[0]), DepthOfAll(vs[1..]))
  }

  function DepthOfEntries(es: seq<Entry>): nat
    decreases es, 0
  {
    if es == [] then 0 else Max(Depth(es[0].value), DepthOfEntries(es[1..]))
  }

  const MAX_PAYLOAD := 524288
  const MAX_DEPTH := 64

  /** Every proper descendant, map keys included, has a payload within the cap. */
  predicate SmallBelow(v: Value) {
    match v
    case Array(vs) => forall x :: x in vs ==> |Payload(x)| <= MAX_PAYLOAD && SmallBelow(x)
    case Map(es) =>
      forall e :: e in es ==>
        |e.key| <= MAX_PAYLOAD && |Payload(e.value)| <= MAX_PAYLOAD && SmallBelow(e.value)
    case _ => true
  }

  /** What the decoder is able to give back. */
  predicate InLimits(v: Value) {
    Depth(v) <= MAX_DEPTH && SmallBelow(v)
  }

  /** Nodes of the value tree, map keys counted. */
  function Nodes(v: Value): nat
    decreases v, 0
  {
    match v
    case Array(vs) => 1 + NodesOfAll(vs)
    case Map(es) => 1 + NodesOfEntries(es)
    case _ => 1
  }

  function NodesOfAll(vs: seq<Value>): nat
    decreases vs, 0
  {
    if vs == [] then 0 else Nodes(vs[0]) + NodesOfAll(vs[1..])
  }

  function NodesOfEntries(es: seq<Entry>): nat
    decreases es, 0
  {
    if es == [] then 0 else 1 + Nodes(es[0].value) + NodesOfEntries(es[1..])
  }

  // ----- lemmas on the encoding -----

  lemma Associative<T>(a: seq<T>, b: seq<T>, c: seq<T>)
    ensures a + (b + c) == a + b + c
  {
  }

  lemma DropDrop<T>(s: seq<T>, a: nat, b: nat)
    requires a + b <= |s|
    ensures s[a..][b..] == s[a + b..]
  {
  }

  lemma TakeTail<T>(s: seq<T>, k: nat)
    requires 1 <= k <= |s|
    ensures s[..k][0] == s[0] && s[..k][1..] == s[1..][..k - 1] && s[k..] == s[1..][k - 1..]
  {
  }

  lemma TakeThenSplit<T>(s: seq<T>, n: nat, k: nat)
    requires k <= n <= |s|
    ensures s[..n][..k] == s[..k] && s[..n][k..] == s[k..][..n - k]
  {
  }

  lemma {:induction false} EncodeAllAppend(xs: seq<Value>, ys: seq<Value>)
    ensures EncodeAll(xs + ys) == EncodeAll(xs) + EncodeAll(ys)
    decreases |xs|
  {
    if xs == [] {
      assert xs + ys == ys;
    } else {
      EncodeAllAppend(xs[1..], ys);
      assert (xs + ys)[1..] == xs[1..] + ys;
      Associative(Encode(xs[0]), EncodeAll(xs[1..]), EncodeAll(ys));
    }
  }

  lemma {:induction false} EncodeEntriesAppend(xs: seq<Entry>, ys: seq<Entry>)
    ensures EncodeEntries(xs + ys) == EncodeEntries(xs) + EncodeEntries(ys)
    decreases |xs|
  {
    if xs == [] {
      assert xs + ys == ys;
    } else {
      EncodeEntriesAppend(xs[1..], ys);
      assert (xs + ys)[1..] == xs[1..] + ys;
      Associative(EncodeEntry(xs[0]), EncodeEntries(xs[1..]), EncodeEntries(ys));
    }
  }

  /** Every node costs at least two bytes. */
  lemma {:induction false} NodesBound(v: Value)
    ensures 2 * Nodes(v) <= |Encode(v)|
    decreases v, 1
  {
    match v
    case Array(vs) => NodesOfAllBound(vs);
    case Map(es) => NodesOfEntriesBound(es);
    case _ =>
  }

  lemma {:induction false} NodesOfAllBound(vs: seq<Value>)
    ensures 2 * NodesOfAll(vs) <= |EncodeAll(vs)|
    decreases vs, 0
  {
    if vs != [] {
      NodesBound(vs[0]);
      NodesOfAllBound(vs[1..]);
    }
  }

  lemma {:induction false} NodesOfEntriesBound(es: seq<Entry>)
    ensures 2 * NodesOfEntries(es) <= |EncodeEntries(es)|
    decreases es, 0
  {
    if es != [] {
      NodesBound(es[0].value);
      NodesOfEntriesBound(es[1..]);
    }
  }

  /** The wire form of every fixed-width value and of the empty ones: type code, length, digits. */
  lemma WireForm(v: Value)
    ensures match v
            case U8(n) => Encode(v) == [3, 1, n]
            case U16(n) => Encode(v) == [4, 2] + BigEndian(n, 2)
            case U32(n) => Encode(v) == [5, 4] + BigEndian(n, 4)
            case U64(n) => Encode(v) == [6, 8] + BigEndian(n, 8)
            case I32(n) => Encode(v) == [7, 4] + BigEndian(if n < 0 then n + 0x1_0000_0000 else n, 4)
            case I64(n) => Encode(v) == [8, 8] + BigEndian(if n < 0 then n + 0x1_0000_0000_0000_0000 else n, 8)
            case F32(bits) => Encode(v) == [9, 4] + BigEndian(bits, 4)
            case F64(bits) => Encode(v) == [10, 8] + BigEndian(bits, 8)
            case Boolean(b) => Encode(v) == [11, 1, if b then 1 else 0]
            case Timestamp(n) => Encode(v) == [15, 8] + BigEndian(if n < 0 then n + 0x1_0000_0000_0000_0000 else n, 8)
            case Null => Encode(v) == [14, 0]
            case Str(s) => |s| < 128 ==> Encode(v) == [1, |s|] + s
            case Blob(b) => |b| < 128 ==> Encode(v) == [2, |b|] + b
            case Array(vs) => |EncodeAll(vs)| < 128 ==> Encode(v) == [12, |EncodeAll(vs)|] + EncodeAll(vs)
            case Map(es) => |EncodeEntries(es)| < 128 ==> Encode(v) == [13, |EncodeEntries(es)|] + EncodeEntries(es)
            case Foreign(_) => true
  {
  }
}
