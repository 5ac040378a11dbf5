/** The codec's loops: buffers that grow by appending, a byte slice that shrinks as values are
    taken from its front, a map filled by Set. Each is proved against the codec's functions. */
module Codec {
  import opened Wrappers
  import opened Bytes
  import opened Values
  import opened Decoder
  import opened OrderedMap
  import Varint

  // ----- encoding -----

  lemma PrefixStep<T>(s: seq<T>, i: nat)
    requires i < |s|
    ensures s[..i + 1] == s[..i] + [s[i]] && s == s[..i + 1] + s[i + 1..]
  {
  }

  lemma EncodeOne(v: Value)
    ensures EncodeAll([v]) == Encode(v)
  {
    assert EncodeAll([v]) == Encode(v) + EncodeAll([]);
  }

  lemma EncodeOneEntry(e: Entry)
    ensures EncodeEntries([e]) == EncodeEntry(e)
  {
    assert EncodeEntries([e]) == EncodeEntry(e) + EncodeEntries([]);
  }

  lemma EncodeAllStep(vs: seq<Value>, i: nat)
    requires i < |vs|
    ensures EncodeAll(vs[..i + 1]) == EncodeAll(vs[..i]) + Encode(vs[i])
    ensures |Encode(vs[i])| <= |EncodeAll(vs)|
  {
    PrefixStep(vs, i);
    EncodeAllAppend(vs[..i], [vs[i]]);
    EncodeOne(vs[i]);
    EncodeAllAppend(vs[..i + 1], vs[i + 1..]);
  }

  lemma EncodeEntriesStep(es: seq<Entry>, i: nat)
    requires i < |es|
    ensures EncodeEntries(es[..i + 1]) == EncodeEntries(es[..i]) + (Field(STRING, es[i].key) + Encode(es[i].value))
    ensures |Field(STRING, es[i].key) + Encode(es[i].value)| <= |EncodeEntries(es)|
  {
    PrefixStep(es, i);
    EncodeEntriesAppend(es[..i], [es[i]]);
    EncodeOneEntry(es[i]);
    EncodeEntriesAppend(es[..i + 1], es[i + 1..]);
  }

  /** The type code, the length written into a ten-byte scratch buffer, and the payload. */
  method MarshalField(code: Byte, payload: seq<Byte>) returns (out: seq<Byte>)
    requires |payload| <= MAX_INT
    ensures out == Field(code, payload)
  {
    var varintBuf := new Byte[Varint.MAX_VARINT_LEN];
    var n := Varint.PutUvarint(varintBuf, |payload|);
    out := [code];
    out := out + varintBuf[..n];
    out := out + payload;
  }

  method MarshalValue(v: Value) returns (r: Option<seq<Byte>>)
    requires |Encode(v)| <= MAX_INT
    ensures r == if Encodable(v) then Some(Encode(v)) else None
    decreases v, 3
  {
    var payload := MarshalPayload(v);
    if payload.None? {
      return None;
    }
    var out := MarshalField(TypeCode(v), payload.value);
    r := Some(out);
  }

  method MarshalPayload(v: Value) returns (r: Option<seq<Byte>>)
    requires |Payload(v)| <= MAX_INT
    ensures r == if Encodable(v) then Some(Payload(v)) else None
    decreases v, 2
  {
    match v
    case Foreign(_) => r := None;
    case Array(vs) => r := MarshalElems(vs);
    case Map(es) => r := MarshalEntries(es);
    case _ => r := Some(ScalarPayload(v));
  }

  method MarshalElems(vs: seq<Value>) returns (r: Option<seq<Byte>>)
    requires |EncodeAll(vs)| <= MAX_INT
    ensures r == if Encodable(Array(vs)) then Some(EncodeAll(vs)) else None
    decreases vs, 0
  {
    var buf := [];
    for i := 0 to |vs|
      invariant forall j :: 0 <= j < i ==> Encodable(vs[j])
      invariant buf == EncodeAll(vs[..i])
    {
      EncodeAllStep(vs, i);
      var elemBuf := MarshalValue(vs[i]);
      if elemBuf.None? {
        return None;
      }
      buf := buf + elemBuf.value;
    }
    assert vs[..|vs|] == vs;
    r := Some(buf);
  }

  method MarshalEntries(es: seq<Entry>) returns (r: Option<seq<Byte>>)
    requires |EncodeEntries(es)| <= MAX_INT
    ensures r == if Encodable(Map(es)) then Some(EncodeEntries(es)) else None
    decreases es, 0
  {
    var buf := [];
    for i := 0 to |es|
      invariant forall j :: 0 <= j < i ==> Encodable(es[j].value)
      invariant buf == EncodeEntries(es[..i])
    {
      EncodeEntriesStep(es, i);
      var keyBuf := MarshalField(STRING, es[i].key);
      var valBuf := MarshalValue(es[i].value);
      if valBuf.None? {
        return None;
      }
      Associative(buf, keyBuf, valBuf.value);
      buf := buf + keyBuf;
      buf := buf + valBuf.value;
    }
    assert es[..|es|] == es;
    r := Some(buf);
  }

  // ----- decoding -----

  /** The decoded elements, put behind those already decoded. */
  function Behind(done: seq<Value>, r: Result<seq<Value>>): Result<seq<Value>> {
    match r
    case Ok(vs) => Ok(done + vs)
    case Err(e) => Err(e)
  }

  method ReadValue(t: Byte, payload: seq<Byte>, depth: nat) returns (r: Result<Value>)
    ensures r == DecodeValue(t, payload, depth)
    decreases |payload|, 4
  {
    if depth > MAX_DEPTH {
      return Err(TooDeep);
    }
    if t == ARRAY {
      r := ReadElems(payload, depth);
    } else if t == MAP {
      r := ReadEntries(payload, depth);
    } else {
      r := DecodeScalar(t, payload);
    }
  }

  method ReadField(buf: seq<Byte>, depth: nat) returns (r: Result<(Value, nat)>)
    ensures r == DecodeField(buf, depth)
    decreases |buf|, 1
  {
    if |buf| < 1 {
      return Err(UnexpectedEof);
    }
    var length, n := Varint.Uvarint(buf[1..]);
    if length > MAX_PAYLOAD {
      return Err(TooLarge);
    }
    if n <= 0 {
      return Err(BadVarint);
    }
    var start := 1 + n;
    if |buf| < start + length {
      return Err(UnexpectedEof);
    }
    var v := ReadValue(buf[0], buf[start..start + length], depth + 1);
    match v
    case Err(e) => r := Err(e);
    case Ok(value) => r := Ok((value, start + length));
  }

  method ReadElems(payload: seq<Byte>, depth: nat) returns (r: Result<Value>)
    requires depth <= MAX_DEPTH
    ensures r == DecodeValue(ARRAY, payload, depth)
    decreases |payload|, 2
  {
    var elems, buf := [], payload;
    if DecodeElems(payload, depth).Ok? {
      assert [] + DecodeElems(payload, depth).value == DecodeElems(payload, depth).value;
    }
    while |buf| > 0
      invariant |buf| <= |payload|
      invariant DecodeElems(payload, depth) == Behind(elems, DecodeElems(buf, depth))
      decreases |buf|
    {
      var field := ReadField(buf, depth);
      if field.Err? {
        return Err(field.error);
      }
      var (v, n) := field.value;
      BehindStep(elems, v, DecodeElems(buf[n..], depth));
      elems := elems + [v];
      buf := buf[n..];
    }
    assert elems + [] == elems;
    r := Ok(Array(elems));
  }

  lemma BehindStep(done: seq<Value>, v: Value, r: Result<seq<Value>>)
    ensures Behind(done + [v], r) == Behind(done, match r case Ok(vs) => Ok([v] + vs) case Err(e) => Err(e))
  {
    if r.Ok? {
      assert done + [v] + r.value == done + ([v] + r.value);
    }
  }

  method ReadEntries(payload: seq<Byte>, depth: nat) returns (r: Result<Value>)
    requires depth <= MAX_DEPTH
    ensures r == DecodeValue(MAP, payload, depth)
    decreases |payload|, 3
  {
    var m := new OrderedMap();
    var buf := payload;
    while |buf| > 0
      invariant |buf| <= |payload|
      invariant m.Valid() && fresh(m) && fresh(m.data)
      invariant DecodeEntries(payload, depth, []) == DecodeEntries(buf, depth, m.Contents())
      decreases |buf|
    {
      var entry := ReadEntry(buf, depth);
      if entry.Err? {
        return Err(entry.error);
      }
      var (e, n) := entry.value;
      buf := buf[n..];
      m.Set(e.key, e.value);
    }
    r := Ok(Map(m.data[..m.len]));
  }

  /** The reading part of one turn of the loop. */
  method ReadEntry(buf: seq<Byte>, depth: nat) returns (r: Result<(Entry, nat)>)
    ensures r == DecodeEntry(buf, depth)
    decreases |buf|, 2
  {
    var field := ReadField(buf, depth + 1);
    if field.Err? {
      return Err(field.error);
    }
    var (key, n) := field.value;
    if !key.Str? {
      return Err(KeyNotString);
    }
    var rest := buf[n..];
    if |rest| == 0 {
      return Err(MissingValue);
    }
    field := ReadField(rest, depth + 1);
    if field.Err? {
      return Err(field.error);
    }
    var (val, m) := field.value;
    r := Ok((Entry(key.text, val), n + m));
  }
}
