/** The recursive decoder: depth-limited, size-limited below the root. */
module Decoder {
  import opened Bytes
  import opened Values
  import Varint

  datatype Error =
    | TooDeep
    | ShortScalar
    | KeyNotString
    | MissingValue
    | UnknownType
    | NotMap
    | TooLarge
    | BadVarint
    | UnexpectedEof

  datatype Result<+T> = Ok(value: T) | Err(error: Error)

  /** How a call on caller-supplied bytes ends: a Go slice expression out of range panics. */
  datatype Outcome<+T> = Returns(result: Result<T>) | Panics

  // ----- scalars -----

  function Fixed(payload: seq<Byte>, width: nat): (r: Result<nat>)
    ensures r.Ok? ==> width <= |payload| && r.value == FromBigEndian(payload[..width]) && r.value < Pow256(width)
  {
    if |payload| < width then Err(ShortScalar) else Ok(FromBigEndian(payload[..width]))
  }

  function DecodeFixed(t: Byte, payload: seq<Byte>): (r: Result<Value>)
    requires UINT8 <= t <= BOOL || t == TIMESTAMP
  {
    Widths();
    if t == UINT8 then
      if |payload| < 1 then Err(ShortScalar) else Ok(U8(payload[0]))
    else if t == BOOL then
      if |payload| < 1 then Err(ShortScalar) else Ok(Boolean(payload[0] != 0))
    else
      var width := if t == UINT16 then 2 else if t in {UINT32, INT32, FLOAT32} then 4 else 8;
      match Fixed(payload, width)
      case Err(e) => Err(e)
      case Ok(n) =>
        if t == UINT16 then Ok(U16(n))
        else if t == UINT32 then Ok(U32(n))
        else if t == UINT64 then Ok(U64(n))
        else if t == INT32 then Ok(I32(ToSigned(n, TWO_32)))
        else if t == INT64 then Ok(I64(ToSigned(n, TWO_64)))
        else if t == FLOAT32 then Ok(F32(n))
        else if t == FLOAT64 then Ok(F64(n))
        else Ok(Timestamp(ToSigned(n, TWO_64)))
  }

  function DecodeScalar(t: Byte, payload: seq<Byte>): (r: Result<Value>)
    requires t != ARRAY && t != MAP
  {
    if t == STRING then Ok(Str(payload))
    else if t == BYTES then Ok(Blob(payload))
    else if t == NULL then Ok(Null)
    else if UINT8 <= t <= BOOL || t == TIMESTAMP then DecodeFixed(t, payload)
    else Err(UnknownType)
  }

  // ----- the ordered map's Set, on its entries -----

  /** The position of the first entry with the key, or the number of entries. */
  function Find(es: seq<Entry>, key: seq<Byte>): (i: nat)
    ensures i <= |es|
    ensures i < |es| ==> es[i].key == key
    ensures forall j :: 0 <= j < i ==> es[j].key != key
  {
    if es == [] || es[0].key == key then 0 else 1 + Find(es[1..], key)
  }

  function SetEntry(es: seq<Entry>, key: seq<Byte>, v: Value): (r: seq<Entry>)
  {
    var i := Find(es, key);
    if i < |es| then es[i := Entry(key, v)] else es + [Entry(key, v)]
  }

  // ----- values -----

  function DecodeValue(t: Byte, payload: seq<Byte>, depth: nat): Result<Value>
    decreases |payload|, 4
  {
    if depth > MAX_DEPTH then Err(TooDeep)
    else if t == ARRAY then
      match DecodeElems(payload, depth)
      case Ok(vs) => Ok(Array(vs))
      case Err(e) => Err(e)
    else if t == MAP then
      match DecodeEntries(payload, depth, [])
      case Ok(es) => Ok(Map(es))
      case Err(e) => Err(e)
    else DecodeScalar(t, payload)
  }

  /** One value at the front of buf and the bytes it takes. */
  function DecodeField(buf: seq<Byte>, depth: nat): (r: Result<(Value, nat)>)
    ensures r.Ok? ==> 2 <= r.value.1 <= |buf|
    decreases |buf|, 1
  {
    if |buf| < 1 then Err(UnexpectedEof)
    else
      match Varint.Parse(buf[1..])
      case Truncated => Err(BadVarint)
      case Overflow => Err(BadVarint)
      case Complete(length, n) =>
        if length > MAX_PAYLOAD then Err(TooLarge)
        else
          var start := 1 + n;
          if |buf| < start + length then Err(UnexpectedEof)
          else
            match DecodeValue(buf[0], buf[start..start + length], depth + 1)
            case Ok(v) => Ok((v, start + length))
            case Err(e) => Err(e)
  }

  function DecodeElems(buf: seq<Byte>, depth: nat): Result<seq<Value>>
    decreases |buf|, 2
  {
    if buf == [] then Ok([])
    else
      match DecodeField(buf, depth)
      case Err(e) => Err(e)
      case Ok((v, n)) =>
        match DecodeElems(buf[n..], depth)
        case Err(e) => Err(e)
        case Ok(vs) => Ok([v] + vs)
  }

  /** The loop over map entries, with the map built so far. */
  function DecodeEntries(buf: seq<Byte>, depth: nat, es: seq<Entry>): Result<seq<Entry>>
    decreases |buf|, 3
  {
    if buf == [] then Ok(es)
    else
      match DecodeEntry(buf, depth)
      case Err(error) => Err(error)
      case Ok((e, n)) => DecodeEntries(buf[n..], depth, SetEntry(es, e.key, e.value))
  }

  /** A key field, which must be a string, and a value field, with the bytes they take. */
  function DecodeEntry(buf: seq<Byte>, depth: nat): (r: Result<(Entry, nat)>)
    ensures r.Ok? ==> 4 <= r.value.1 <= |buf|
    decreases |buf|, 2
  {
    match DecodeField(buf, depth + 1)
    case Err(e) => Err(e)
    case Ok((key, n)) =>
      if !key.Str? then Err(KeyNotString)
      else if buf[n..] == [] then Err(MissingValue)
      else
        match DecodeField(buf[n..], depth + 1)
        case Err(e) => Err(e)
        case Ok((v, m)) => Ok((Entry(key.text, v), n + m))
  }

  // ----- decoding a caller's byte slice -----

  function DecodeBytes(buf: seq<Byte>): Outcome<Value> {
    if |buf| < 1 then Returns(Err(UnexpectedEof))
    else
      match Varint.Parse(buf[1..])
      case Truncated => Returns(Err(BadVarint))
      case Overflow => Returns(Err(BadVarint))
      case Complete(length, n) =>
        var start := 1 + n;
        var end := (start + length) % 0x1_0000_0000_0000_0000;  // uint64 addition
        if |buf| < end then Returns(Err(UnexpectedEof))
        else if end < start then Panics
        else Returns(DecodeValue(buf[0], buf[start..end], 0))
  }

  function DecodeMap(buf: seq<Byte>): Outcome<seq<Entry>> {
    match DecodeBytes(buf)
    case Panics => Panics
    case Returns(Err(e)) => Returns(Err(e))
    case Returns(Ok(v)) => if v.Map? then Returns(Ok(v.entries)) else Returns(Err(NotMap))
  }
}
