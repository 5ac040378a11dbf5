/** Decoding from a reader: one value, or every value up to the end of the input. */
module Stream {
  import opened Wrappers
  import opened Bytes
  import opened Values
  import opened Decoder
  import opened RoundTrip
  import opened Canonical
  import Varint
  import Codec

  // ----- a reader that delivers its bytes in arbitrary chunks -----

  function Flatten(chunks: seq<seq<Byte>>): seq<Byte> {
    if chunks == [] then [] else chunks[0] + Flatten(chunks[1..])
  }

  lemma MoveOver(data: seq<Byte>, pending: seq<Byte>, rest: seq<Byte>, k: nat)
    requires k <= |pending|
    ensures data + (pending + rest) == data + pending[..k] + (pending[k..] + rest)
  {
  }

  /** How a read ends: with its bytes, at the very end of the input, or part-way. */
  datatype Status = Full | AtEof | CutShort

  class Reader {
    var pending: seq<Byte>       // what is left of the chunk delivered last
    var chunks: seq<seq<Byte>>   // what the source will deliver, one Read at a time

    ghost predicate Valid()
      reads this
    {
      forall i :: 0 <= i < |chunks| ==> chunks[i] != []
    }

    ghost function Contents(): seq<Byte>
      reads this
    {
      pending + Flatten(chunks)
    }

    constructor (chunks: seq<seq<Byte>>)
      requires forall i :: 0 <= i < |chunks| ==> chunks[i] != []
      ensures Valid() && Contents() == Flatten(chunks)
    {
      this.pending := [];
      this.chunks := chunks;
    }

    /** Takes the next chunk when the last one is used up. */
    method Fill()
      requires Valid()
      modifies this
      ensures Valid() && Contents() == old(Contents())
      ensures pending == [] ==> Contents() == []
      ensures |chunks| <= |old(chunks)| && (old(pending) != [] ==> pending == old(pending))
    {
      if pending == [] && chunks != [] {
        pending := chunks[0];
        chunks := chunks[1..];
      }
    }

    method ReadByte() returns (b: Option<Byte>)
      requires Valid()
      modifies this
      ensures Valid()
      ensures old(Contents()) == [] ==> b.None? && Contents() == []
      ensures old(Contents()) != [] ==> b == Some(old(Contents())[0]) && Contents() == old(Contents())[1..]
    {
      Fill();
      if pending == [] {
        return None;
      }
      b := Some(pending[0]);
      pending := pending[1..];
    }

    /** io.ReadFull: reads until it has n bytes or the input ends. */
    method ReadFull(n: nat) returns (data: seq<Byte>, status: Status)
      requires Valid() && n > 0
      modifies this
      ensures Valid() && old(Contents()) == data + Contents()
      ensures status.Full? <==> n <= |old(Contents())|
      ensures status.Full? ==> |data| == n
      ensures status.AtEof? <==> old(Contents()) == []
    {
      data := [];
      ghost var all := Contents();
      while |data| < n
        invariant Valid() && all == data + Contents() && |data| <= n
        decreases n - |data|
      {
        Fill();
        if pending == [] {
          return data, if data == [] then AtEof else CutShort;
        }
        var k := if |pending| <= n - |data| then |pending| else n - |data|;
        MoveOver(data, pending, Flatten(chunks), k);
        data := data + pending[..k];
        pending := pending[k..];
      }
      status := Full;
    }
  }

  // ----- one value from a stream -----

  datatype Next = Decoded(value: Value, rest: seq<Byte>) | EndOfInput | Failed

  /** What reading one value from these bytes gives. EndOfInput is an error that wraps io.EOF:
      the input ended before the type code, before the length, or between length and payload. */
  function DecodeNext(s: seq<Byte>): (r: Next)
    ensures r.Decoded? ==> |r.rest| < |s|
  {
    if |s| <= 1 then EndOfInput
    else
      match Varint.Parse(s[1..])
      case Truncated => Failed
      case Overflow => Failed
      case Complete(length, n) =>
        var start := 1 + n;
        if length > MAX_PAYLOAD then Failed
        else if |s| == start && length > 0 then EndOfInput
        else if |s| < start + length then Failed
        else Conclude(DecodeValue(s[0], s[start..start + length], 0), s[start + length..])
  }

  function Conclude(r: Result<Value>, rest: seq<Byte>): Next {
    match r
    case Ok(v) => Decoded(v, rest)
    case Err(_) => Failed
  }

  function Collect(v: Value, r: Option<seq<Value>>): Option<seq<Value>> {
    match r
    case Some(vs) => Some([v] + vs)
    case None => None
  }

  /** All values up to an error; only an error that wraps io.EOF is a success. */
  function DecodeAllOf(s: seq<Byte>): Option<seq<Value>>
    decreases |s|
  {
    match DecodeNext(s)
    case EndOfInput => Some([])
    case Failed => None
    case Decoded(v, rest) => Collect(v, DecodeAllOf(rest))
  }

  /** binary.ReadUvarint. After an error the value is what the bytes read so far add up to. */
  method ReadUvarint(r: Reader) returns (value: Uint64, status: Status)
    requires r.Valid()
    modifies r
    ensures r.Valid()
    ensures var p := Varint.Parse(old(r.Contents()));
            && (status.Full? <==> p.Complete?)
            && (p.Complete? ==> value == p.value && r.Contents() == old(r.Contents())[p.size..])
    ensures status.AtEof? <==> old(r.Contents()) == []
    ensures status.AtEof? ==> value == 0
  {
    ghost var all, tail := r.Contents(), r.Contents();
    var x: Uint64, s: nat := 0, 0;
    for i := 0 to Varint.MAX_VARINT_LEN
      invariant r.Valid() && s == 7 * i && tail == r.Contents() && i <= |all| && tail == all[i..]
      invariant i == 0 ==> x == 0
      invariant i < Varint.MAX_VARINT_LEN ==>
                  x < Shl(1, s) && Varint.Parse(all) == Varint.Resume(x, i, Varint.ParseFrom(tail, i))
      invariant i == Varint.MAX_VARINT_LEN ==> Varint.Parse(all) == Varint.ParseFrom(tail, i)
    {
      var next := r.ReadByte();
      if next.None? {
        return x, if i > 0 then CutShort else AtEof;
      }
      var b := next.value;
      assert tail[1..] == all[i + 1..];
      if b < 0x80 && i == Varint.MAX_VARINT_LEN - 1 && b > 1 {
        return x, CutShort;
      }
      var y := Varint.TakeDigit(x, b, s, i, tail);
      if b < 0x80 {
        return y, Full;
      }
      if i == Varint.MAX_VARINT_LEN - 1 {
        Varint.TenthDigit(x, tail);
      }
      x, s, tail := y, s + 7, tail[1..];
    }
    return x, CutShort;
  }

  method DecodeReader(r: Reader) returns (v: Option<Value>, eof: bool)
    requires r.Valid()
    modifies r
    ensures r.Valid()
    ensures match DecodeNext(old(r.Contents()))
            case Decoded(value, rest) => v == Some(value) && !eof && r.Contents() == rest
            case EndOfInput => v == None && eof
            case Failed => v == None && !eof
  {
    ghost var s := r.Contents();
    var typ := r.ReadByte();
    if typ.None? {
      return None, true;
    }
    var length, status := ReadUvarint(r);
    if !status.Full? || length > MAX_PAYLOAD {
      LengthRefused(s);
    }
    if length > MAX_PAYLOAD {
      return None, false;
    }
    if !status.Full? {
      return None, status.AtEof?;
    }
    var payload := [];
    if length > 0 {
      payload, status := r.ReadFull(length);
      if !status.Full? {
        CutField(s);
        return None, status.AtEof?;
      }
    }
    assert DecodeNext(s) == Conclude(DecodeValue(typ.value, payload, 0), r.Contents()) by {
      PayloadSlices(s, Varint.Parse(s[1..]).size, payload, r.Contents());
      NextDecodes(s);
    }
    var decoded := Codec.ReadValue(typ.value, payload, 0);
    v, eof := if decoded.Ok? then Some(decoded.value) else None, false;
  }

  /** A length that is not all there, not valid, or over the cap. */
  lemma LengthRefused(s: seq<Byte>)
    requires s != [] && !(Varint.Parse(s[1..]).Complete? && Varint.Parse(s[1..]).value <= MAX_PAYLOAD)
    ensures DecodeNext(s) == if |s| == 1 then EndOfInput else Failed
  {
  }

  lemma NextDecodes(s: seq<Byte>)
    requires s != [] && Varint.Parse(s[1..]).Complete? && Varint.Parse(s[1..]).value <= MAX_PAYLOAD
    requires 1 + Varint.Parse(s[1..]).size + Varint.Parse(s[1..]).value <= |s|
    ensures var start, length := 1 + Varint.Parse(s[1..]).size, Varint.Parse(s[1..]).value;
            DecodeNext(s) == Conclude(DecodeValue(s[0], s[start..start + length], 0), s[start + length..])
  {
  }

  /** What follows the length, split at the end of the payload. */
  lemma PayloadSlices(s: seq<Byte>, size: nat, payload: seq<Byte>, rest: seq<Byte>)
    requires 1 + size <= |s| && s[1..][size..] == payload + rest
    ensures var start := 1 + size;
            && |s| >= start + |payload|
            && s[start..start + |payload|] == payload && s[start + |payload|..] == rest
  {
    DropDrop(s, 1, size);
    SplitAfter(s, 1 + size, payload, rest);
  }

  lemma SplitAfter(s: seq<Byte>, start: nat, payload: seq<Byte>, rest: seq<Byte>)
    requires start <= |s| && s[start..] == payload + rest
    ensures |s| >= start + |payload|
    ensures s[start..start + |payload|] == payload && s[start + |payload|..] == rest
  {
    assert s[start..][..|payload|] == payload && s[start..][|payload|..] == rest;
  }

  /** A field whose payload is cut short. */
  lemma CutField(s: seq<Byte>)
    requires s != [] && Varint.Parse(s[1..]).Complete?
    requires |s[1..][Varint.Parse(s[1..]).size..]| < Varint.Parse(s[1..]).value <= MAX_PAYLOAD
    ensures DecodeNext(s) == if s[1..][Varint.Parse(s[1..]).size..] == [] then EndOfInput else Failed
  {
  }

  method DecodeAll(r: Reader) returns (result: Option<seq<Value>>)
    requires r.Valid()
    modifies r
    ensures result == DecodeAllOf(old(r.Contents()))
  {
    ghost var all := r.Contents();
    var vals := [];
    if DecodeAllOf(all).Some? {
      assert [] + DecodeAllOf(all).value == DecodeAllOf(all).value;
    }
    while true
      invariant r.Valid()
      invariant DecodeAllOf(all) == Append(vals, DecodeAllOf(r.Contents()))
      decreases |r.Contents()|
    {
      ghost var before := r.Contents();
      var v, eof := DecodeReader(r);
      if eof {
        assert DecodeAllOf(before) == Some([]);
        assert vals + [] == vals;
        return Some(vals);
      }
      if v.None? {
        return None;
      }
      AppendStep(vals, v.value, DecodeAllOf(r.Contents()));
      vals := vals + [v.value];
    }
  }

  function Append(vals: seq<Value>, r: Option<seq<Value>>): Option<seq<Value>> {
    match r
    case Some(vs) => Some(vals + vs)
    case None => None
  }

  lemma AppendStep(vals: seq<Value>, v: Value, r: Option<seq<Value>>)
    ensures Append(vals, Collect(v, r)) == Append(vals + [v], r)
  {
    if r.Some? {
      assert vals + ([v] + r.value) == vals + [v] + r.value;
    }
  }

  // ----- exactly which streams DecodeAll accepts -----

  /** A whole accepted form of a value, small enough to be a stream root. */
  ghost predicate IsForm(part: seq<Byte>, v: Value) {
    Accepts(part, v) && Consumed(part) == |part| && Varint.Parse(part[1..]).value <= MAX_PAYLOAD
  }

  /** What may be left over: nothing, a lone type code, or a type code and the length of a
      payload of which no byte has come. */
  predicate IsResidue(s: seq<Byte>) {
    || |s| <= 1
    || (&& Varint.Parse(s[1..]).Complete?
        && 1 <= Varint.Parse(s[1..]).value <= MAX_PAYLOAD
        && |s| == 1 + Varint.Parse(s[1..]).size)
  }

  ghost predicate IsStreamOf(s: seq<Byte>, parts: seq<seq<Byte>>, residue: seq<Byte>, vs: seq<Value>) {
    && s == Flatten(parts) + residue
    && IsResidue(residue)
    && |parts| == |vs|
    && forall i :: 0 <= i < |vs| ==> IsForm(parts[i], vs[i])
  }

  lemma ResidueExactly(s: seq<Byte>)
    ensures DecodeNext(s).EndOfInput? <==> IsResidue(s)
  {
  }

  /** A form at the front of a stream is read off whole. */
  lemma FormIsRead(part: seq<Byte>, v: Value, rest: seq<Byte>)
    requires IsForm(part, v)
    ensures DecodeNext(part + rest) == Decoded(v, rest)
  {
    FormParse(part, v, rest);
    FormSlices(part, rest, 1 + Varint.Parse(part[1..]).size);
    NextDecodes(part + rest);
  }

  lemma FormSlices(part: seq<Byte>, rest: seq<Byte>, start: nat)
    requires 1 <= start <= |part|
    ensures var s := part + rest;
            s[0] == part[0] && s[start..|part|] == part[start..|part|] && s[|part|..] == rest
  {
  }

  lemma FormParse(part: seq<Byte>, v: Value, rest: seq<Byte>)
    requires IsForm(part, v)
    ensures Varint.Parse((part + rest)[1..]) == Varint.Parse(part[1..])
    ensures Varint.Parse(part[1..]).Complete?
    ensures var start, length := 1 + Varint.Parse(part[1..]).size, Varint.Parse(part[1..]).value;
            start + length == |part| && DecodeValue(part[0], part[start..start + length], 0) == Ok(v)
  {
    RootDecoded(part);
    Varint.ParsePrefix(part[1..], rest, 0);
    assert (part + rest)[1..] == part[1..] + rest;
  }

  lemma PrefixParse(s: seq<Byte>, k: nat)
    requires s != [] && Varint.Parse(s[1..]).Complete?
    requires 1 + Varint.Parse(s[1..]).size <= k <= |s|
    ensures Varint.Parse(s[..k][1..]) == Varint.Parse(s[1..])
  {
    var size, t := Varint.Parse(s[1..]).size, s[..k][1..];
    Varint.ParseExact(s[1..], 0);
    assert s[1..][..size] == t[..size];
    Varint.ParsePrefix(t[..size], t[size..], 0);
    assert t == t[..size] + t[size..];
  }

  /** What is read off the front of a stream is a form. */
  lemma ReadIsForm(s: seq<Byte>)
    requires DecodeNext(s).Decoded?
    ensures var part := s[..|s| - |DecodeNext(s).rest|];
            s == part + DecodeNext(s).rest && IsForm(part, DecodeNext(s).value)
  {
    var p := Varint.Parse(s[1..]);
    var start := 1 + p.size;
    PrefixParse(s, start + p.value);
    assert s[..start + p.value][start..start + p.value] == s[start..start + p.value];
  }

  lemma FormIsCollected(part: seq<Byte>, v: Value, rest: seq<Byte>)
    requires IsForm(part, v)
    ensures DecodeAllOf(part + rest) == Collect(v, DecodeAllOf(rest))
  {
    FormIsRead(part, v, rest);
  }

  lemma {:induction false} StreamIsDecoded(parts: seq<seq<Byte>>, residue: seq<Byte>, vs: seq<Value>)
    requires |parts| == |vs| && IsResidue(residue)
    requires forall i :: 0 <= i < |vs| ==> IsForm(parts[i], vs[i])
    ensures DecodeAllOf(Flatten(parts) + residue) == Some(vs)
    decreases |parts|
  {
    if parts == [] {
      assert Flatten(parts) + residue == residue;
      ResidueExactly(residue);
    } else {
      var rest := Flatten(parts[1..]) + residue;
      assert DecodeAllOf(rest) == Some(vs[1..]) by {
        StreamIsDecoded(parts[1..], residue, vs[1..]);
      }
      assert Flatten(parts) + residue == parts[0] + rest by {
        Associative(parts[0], Flatten(parts[1..]), residue);
      }
      FormIsCollected(parts[0], vs[0], rest);
      assert vs == [vs[0]] + vs[1..];
    }
  }

  lemma {:induction false} DecodedIsStream(s: seq<Byte>) returns (parts: seq<seq<Byte>>, residue: seq<Byte>)
    requires DecodeAllOf(s).Some?
    ensures IsStreamOf(s, parts, residue, DecodeAllOf(s).value)
    decreases |s|
  {
    var next := DecodeNext(s);
    if next.EndOfInput? {
      ResidueExactly(s);
      parts, residue := [], s;
      assert s == [] + residue;
    } else {
      var part := s[..|s| - |next.rest|];
      ReadIsForm(s);
      var ps;
      ps, residue := DecodedIsStream(next.rest);
      parts := [part] + ps;
      assert parts[1..] == ps;
      assert s == part + (Flatten(ps) + residue) == Flatten(parts) + residue;
    }
  }

  /** DecodeAll succeeds with vs exactly on concatenations of accepted forms of vs, each with a
      root payload within the cap, followed by one of the residues that read as io.EOF. */
  lemma DecodeAllExactly(s: seq<Byte>, vs: seq<Value>)
    ensures DecodeAllOf(s) == Some(vs) <==> exists parts, residue :: IsStreamOf(s, parts, residue, vs)
  {
    if DecodeAllOf(s) == Some(vs) {
      var parts, residue := DecodedIsStream(s);
    }
    forall parts, residue | IsStreamOf(s, parts, residue, vs)
      ensures DecodeAllOf(s) == Some(vs)
    {
      StreamIsDecoded(parts, residue, vs);
    }
  }

  /** In particular it inverts concatenated encodings. */
  lemma {:induction false} DecodeAllInverts(vs: seq<Value>)
    requires forall v :: v in vs ==> Good(v) && InLimits(v) && |Payload(v)| <= MAX_PAYLOAD
    ensures DecodeAllOf(EncodeAll(vs)) == Some(vs)
  {
    if vs != [] {
      var v := vs[0];
      FieldLayout(TypeCode(v), Payload(v), []);
      Varint.ParseEncoded(|Payload(v)|, Payload(v) + []);
      assert Encode(v) + [] == Encode(v);
      ExactRoundTrip(v, []);
      FormIsRead(Encode(v), v, EncodeAll(vs[1..]));
      DecodeAllInverts(vs[1..]);
      assert vs == [v] + vs[1..];
    }
  }

  // ----- the two entry points agree -----

  /** The root length is one the stream decoder does not refuse for its size. */
  predicate RootWithinCap(buf: seq<Byte>) {
    buf != [] && Varint.Parse(buf[1..]).Complete? ==> Varint.Parse(buf[1..]).value <= MAX_PAYLOAD
  }

  /** Stream and slice decoding return the same value or both fail, unless the root payload is
      over the cap: then the stream decoder always fails. */
  lemma EntryPointsAgree(buf: seq<Byte>)
    ensures RootWithinCap(buf) ==>
              if DecodeNext(buf).Decoded? then Accepts(buf, DecodeNext(buf).value)
              else DecodeBytes(buf).Returns? && DecodeBytes(buf).result.Err?
    ensures !RootWithinCap(buf) ==> DecodeNext(buf).Failed?
  {
    if buf != [] && Varint.Parse(buf[1..]).Complete? {
      RootDecoded(buf);
    }
  }
}
