/** Requests and responses inside frames, in the clear or encrypted. */
module Messages {
  import opened Wrappers
  import opened Bytes
  import opened Values
  import opened Decoder
  import opened RoundTrip
  import opened Framing
  import Stream
  import Varint

  // ----- AEAD, known by its laws only -----

  const NONCE_SIZE := 12
  const TAG_SIZE := 16

  datatype Cipher = Cipher(
    seal: (seq<Byte>, seq<Byte>, seq<Byte>) -> seq<Byte>,  // key, nonce, plaintext
    open: (seq<Byte>, seq<Byte>) -> Option<seq<Byte>>      // key, nonce and ciphertext
  )

  /** Opening what was sealed under the same key gives the plaintext, and sealing adds the nonce
      and the tag. */
  ghost predicate Lawful(c: Cipher) {
    forall key, nonce, plain :: |nonce| == NONCE_SIZE ==>
      && |c.seal(key, nonce, plain)| == |plain| + NONCE_SIZE + TAG_SIZE
      && c.open(key, c.seal(key, nonce, plain)) == Some(plain)
  }

  /** The key lengths AES accepts. */
  predicate ValidKey(key: seq<Byte>) {
    |key| in {16, 24, 32}
  }

  /** A session key, or none when the session is not encrypted. */
  type SessionKey = Option<seq<Byte>>

  predicate Usable(key: SessionKey) {
    key.Some? ==> ValidKey(key.value)
  }

  function Protect(c: Cipher, key: SessionKey, nonce: seq<Byte>, plain: seq<Byte>): Option<seq<Byte>> {
    if key.None? then Some(plain)
    else if !ValidKey(key.value) then None
    else Some(c.seal(key.value, nonce, plain))
  }

  function Unprotect(c: Cipher, key: SessionKey, data: seq<Byte>): Option<seq<Byte>> {
    if key.None? then Some(data)
    else if |data| < NONCE_SIZE + TAG_SIZE || !ValidKey(key.value) then None
    else c.open(key.value, data)
  }

  lemma ProtectRoundTrip(c: Cipher, key: SessionKey, nonce: seq<Byte>, plain: seq<Byte>)
    requires Lawful(c) && Usable(key) && |nonce| == NONCE_SIZE
    ensures Protect(c, key, nonce, plain).Some?
    ensures Unprotect(c, key, Protect(c, key, nonce, plain).value) == Some(plain)
    ensures |Protect(c, key, nonce, plain).value| == |plain| + if key.Some? then NONCE_SIZE + TAG_SIZE else 0
  {
  }

  // ----- payloads: a TLV map, or nothing at all -----

  type Payload = Option<seq<Entry>>

  function PayloadBytes(p: Payload): seq<Byte> {
    if p.None? then [] else Encode(Map(p.value))
  }

  function ParsePayload(s: seq<Byte>): Outcome<Payload> {
    if s == [] then Returns(Ok(None))
    else
      match DecodeMap(s)
      case Panics => Panics
      case Returns(Err(e)) => Returns(Err(e))
      case Returns(Ok(es)) => Returns(Ok(Some(es)))
  }

  /** A payload that Go code can build: no foreign type codes, maps made by Set. */
  predicate Buildable(p: Payload) {
    p.Some? ==> Good(Map(p.value)) && |Encode(Map(p.value))| <= MAX_INT
  }

  predicate Deliverable(p: Payload) {
    p.Some? ==> InLimits(Map(p.value))
  }

  /** A payload comes back exactly when it is within the decoder's limits; an absent payload and
      an empty map stay apart. */
  lemma PayloadRoundTrip(p: Payload)
    requires Buildable(p)
    ensures Deliverable(p) ==> ParsePayload(PayloadBytes(p)) == Returns(Ok(p))
    ensures !Deliverable(p) ==>
              ParsePayload(PayloadBytes(p)).Returns? && ParsePayload(PayloadBytes(p)).result.Err?
  {
    if p.Some? {
      ExactRoundTrip(Map(p.value), []);
      assert Encode(Map(p.value)) + [] == Encode(Map(p.value));
    }
  }

  // ----- requests and responses -----

  datatype Request = Request(opcode: Uint16, payload: Payload)

  /** The sequence field is filled in from the frame that carried the response. */
  datatype Response = Response(status: Byte, payload: Payload, sequence: Uint32)

  datatype Error =
    | FrameError
    | CipherError
    | MessageTooShort
    | PayloadError(error: Decoder.Error)

  datatype Received<+T> = Message(value: T) | Bad(error: Error) | Crashed

  function RequestPlain(r: Request): seq<Byte> {
    BigEndian(r.opcode, 2) + PayloadBytes(r.payload)
  }

  function ParseRequest(plain: seq<Byte>): Received<Request> {
    if |plain| < 2 then Bad(MessageTooShort)
    else
      Widths();
      match ParsePayload(plain[2..])
      case Panics => Crashed
      case Returns(Err(e)) => Bad(PayloadError(e))
      case Returns(Ok(p)) => Message(Request(FromBigEndian(plain[..2]), p))
  }

  function ResponsePlain(r: Response): seq<Byte> {
    [r.status] + PayloadBytes(r.payload)
  }

  function ParseResponse(plain: seq<Byte>, sequence: Uint32): Received<Response> {
    if |plain| < 1 then Bad(MessageTooShort)
    else
      match ParsePayload(plain[1..])
      case Panics => Crashed
      case Returns(Err(e)) => Bad(PayloadError(e))
      case Returns(Ok(p)) => Message(Response(plain[0], p, sequence))
  }

  lemma RequestPlainRoundTrip(r: Request)
    requires Buildable(r.payload)
    ensures Deliverable(r.payload) ==> ParseRequest(RequestPlain(r)) == Message(r)
    ensures !Deliverable(r.payload) ==> ParseRequest(RequestPlain(r)).Bad?
  {
    PayloadRoundTrip(r.payload);
    Widths();
    BigEndianRoundTrip(r.opcode, 2);
    assert RequestPlain(r)[..2] == BigEndian(r.opcode, 2);
    assert RequestPlain(r)[2..] == PayloadBytes(r.payload);
  }

  lemma ResponsePlainRoundTrip(r: Response, sequence: Uint32)
    requires Buildable(r.payload)
    ensures Deliverable(r.payload) ==> ParseResponse(ResponsePlain(r), sequence) == Message(r.(sequence := sequence))
    ensures !Deliverable(r.payload) ==> ParseResponse(ResponsePlain(r), sequence).Bad?
  {
    PayloadRoundTrip(r.payload);
    assert ResponsePlain(r)[1..] == PayloadBytes(r.payload);
  }

  // ----- one message on the wire -----

  /** The bytes that writing a message puts on the wire, or nothing if the write is refused. */
  function WireBytes(c: Cipher, key: SessionKey, nonce: seq<Byte>, sequence: Uint32,
      plain: seq<Byte>): Option<seq<Byte>>
  {
    match Protect(c, key, nonce, plain)
    case None => None
    case Some(data) => if Fits(Frame(sequence, data)) then Some(FrameBytes(Frame(sequence, data))) else None
  }

  /** What a reader makes of the front of its input: sequence number, plaintext, bytes left. */
  function ParseWire(c: Cipher, key: SessionKey, s: seq<Byte>): (r: Received<(Uint32, seq<Byte>, seq<Byte>)>) {
    match ParseFrame(s)
    case None => Bad(FrameError)
    case Some((f, rest)) =>
      match Unprotect(c, key, f.data)
      case None => Bad(CipherError)
      case Some(plain) => Message((f.sequence, plain, rest))
  }

  /** An encrypted write fits exactly when its plaintext is at most MaxSafePayload bytes and then
      adds WireOverhead bytes; a plaintext write has the whole frame but its sequence number. */
  lemma WireSize(c: Cipher, key: SessionKey, nonce: seq<Byte>, sequence: Uint32, plain: seq<Byte>)
    requires Lawful(c) && Usable(key) && |nonce| == NONCE_SIZE
    ensures var w := WireBytes(c, key, nonce, sequence, plain);
            if key.Some?
            then (w.Some? <==> |plain| <= MAX_SAFE_PAYLOAD) && (w.Some? ==> |w.value| == |plain| + WIRE_OVERHEAD)
            else (w.Some? <==> |plain| <= 1048572) && (w.Some? ==> |w.value| == |plain| + 8)
    ensures MAX_SAFE_PAYLOAD == 1048544 && WIRE_OVERHEAD == 36
  {
    ProtectRoundTrip(c, key, nonce, plain);
  }

  lemma WireRoundTrip(c: Cipher, key: SessionKey, nonce: seq<Byte>, sequence: Uint32, plain: seq<Byte>, rest: seq<Byte>)
    requires Lawful(c) && Usable(key) && |nonce| == NONCE_SIZE
    requires WireBytes(c, key, nonce, sequence, plain).Some?
    ensures ParseWire(c, key, WireBytes(c, key, nonce, sequence, plain).value + rest)
         == Message((sequence, plain, rest))
  {
    ProtectRoundTrip(c, key, nonce, plain);
    FrameRoundTrip(Frame(sequence, Protect(c, key, nonce, plain).value), rest);
  }

  // ----- one message sent and received -----

  datatype Sent<T> = Sent(message: T, sequence: Uint32, nonce: seq<Byte>)

  predicate WellSent(c: Cipher, key: SessionKey, m: Sent<Request>) {
    && |m.nonce| == NONCE_SIZE
    && Buildable(m.message.payload)
    && WireBytes(c, key, m.nonce, m.sequence, RequestPlain(m.message)).Some?
  }

  predicate WellSentResponse(c: Cipher, key: SessionKey, m: Sent<Response>) {
    && |m.nonce| == NONCE_SIZE
    && Buildable(m.message.payload)
    && WireBytes(c, key, m.nonce, m.sequence, ResponsePlain(m.message)).Some?
  }

  function RequestWire(c: Cipher, key: SessionKey, m: Sent<Request>): seq<Byte>
    requires WellSent(c, key, m)
  {
    WireBytes(c, key, m.nonce, m.sequence, RequestPlain(m.message)).value
  }

  function ResponseWire(c: Cipher, key: SessionKey, m: Sent<Response>): seq<Byte>
    requires WellSentResponse(c, key, m)
  {
    WireBytes(c, key, m.nonce, m.sequence, ResponsePlain(m.message)).value
  }

  /** One request read from the front of the input. */
  function ReceiveRequest(c: Cipher, key: SessionKey, s: seq<Byte>): (r: Received<((Request, Uint32), seq<Byte>)>) {
    match ParseWire(c, key, s)
    case Bad(e) => Bad(e)
    case Crashed => Crashed
    case Message((sequence, plain, rest)) =>
      match ParseRequest(plain)
      case Bad(e) => Bad(e)
      case Crashed => Crashed
      case Message(req) => Message(((req, sequence), rest))
  }

  function ReceiveResponse(c: Cipher, key: SessionKey, s: seq<Byte>): (r: Received<(Response, seq<Byte>)>) {
    match ParseWire(c, key, s)
    case Bad(e) => Bad(e)
    case Crashed => Crashed
    case Message((sequence, plain, rest)) =>
      match ParseResponse(plain, sequence)
      case Bad(e) => Bad(e)
      case Crashed => Crashed
      case Message(resp) => Message((resp, rest))
  }

  /** Parsing a payload panics exactly when the length it announces wraps the uint64 sum. */
  lemma PayloadPanicsExactly(s: seq<Byte>)
    ensures ParsePayload(s).Panics? <==> Consumed(s) >= TWO_64
  {
    if s != [] && Varint.Parse(s[1..]).Complete? {
      RootDecoded(s);
    }
  }

  /** Reading a request panics exactly on a frame that opens, holds an opcode, and goes on with a
      payload whose start and length add up to 2^64 or more. */
  lemma RequestCrashesExactly(c: Cipher, key: SessionKey, s: seq<Byte>)
    ensures ReceiveRequest(c, key, s).Crashed? <==>
              && ParseWire(c, key, s).Message?
              && var (_, plain, _) := ParseWire(c, key, s).value;
                 |plain| >= 2 && Consumed(plain[2..]) >= TWO_64
  {
    if ParseWire(c, key, s).Message? {
      var (_, plain, _) := ParseWire(c, key, s).value;
      if |plain| >= 2 {
        PayloadPanicsExactly(plain[2..]);
      }
    }
  }

  /** The same for a response, whose payload follows one status byte. */
  lemma ResponseCrashesExactly(c: Cipher, key: SessionKey, s: seq<Byte>)
    ensures ReceiveResponse(c, key, s).Crashed? <==>
              && ParseWire(c, key, s).Message?
              && var (_, plain, _) := ParseWire(c, key, s).value;
                 |plain| >= 1 && Consumed(plain[1..]) >= TWO_64
  {
    if ParseWire(c, key, s).Message? {
      var (_, plain, _) := ParseWire(c, key, s).value;
      if |plain| >= 1 {
        PayloadPanicsExactly(plain[1..]);
      }
    }
  }

  lemma RequestRoundTrip(c: Cipher, key: SessionKey, m: Sent<Request>, rest: seq<Byte>)
    requires Lawful(c) && Usable(key) && WellSent(c, key, m)
    ensures var s := RequestWire(c, key, m) + rest;
            if Deliverable(m.message.payload)
            then ReceiveRequest(c, key, s) == Message(((m.message, m.sequence), rest))
            else ReceiveRequest(c, key, s).Bad?
  {
    WireRoundTrip(c, key, m.nonce, m.sequence, RequestPlain(m.message), rest);
    RequestPlainRoundTrip(m.message);
  }

  lemma ResponseRoundTrip(c: Cipher, key: SessionKey, m: Sent<Response>, rest: seq<Byte>)
    requires Lawful(c) && Usable(key) && WellSentResponse(c, key, m)
    ensures var s := ResponseWire(c, key, m) + rest;
            if Deliverable(m.message.payload)
            then ReceiveResponse(c, key, s) == Message((m.message.(sequence := m.sequence), rest))
            else ReceiveResponse(c, key, s).Bad?
  {
    WireRoundTrip(c, key, m.nonce, m.sequence, ResponsePlain(m.message), rest);
    ResponsePlainRoundTrip(m.message, m.sequence);
  }

  // ----- a stream of messages -----

  /** Reading n messages in a row. */
  function ReadMany<T>(read: seq<Byte> -> Received<(T, seq<Byte>)>, s: seq<Byte>, n: nat): Option<seq<T>>
    decreases n
  {
    if n == 0 then Some([])
    else
      match read(s)
      case Message((x, rest)) => Prepend(x, ReadMany(read, rest, n - 1))
      case _ => None
  }

  function Prepend<T>(x: T, later: Option<seq<T>>): Option<seq<T>> {
    match later
    case Some(xs) => Some([x] + xs)
    case None => None
  }

  /** The values, if all are there. */
  function AllOf<T>(xs: seq<Option<T>>): Option<seq<T>> {
    if forall i :: 0 <= i < |xs| ==> xs[i].Some?
    then Some(seq(|xs|, i requires 0 <= i < |xs| && xs[i].Some? => xs[i].value))
    else None
  }

  /** The part is read as x, or as no message if x is none, whatever follows it. */
  ghost predicate ReadsAs<T>(read: seq<Byte> -> Received<(T, seq<Byte>)>, part: seq<Byte>, x: Option<T>) {
    forall rest ::
      if x.Some? then read(part + rest) == Message((x.value, rest)) else !read(part + rest).Message?
  }

  lemma AllOfCons<T>(x: Option<T>, xs: seq<Option<T>>)
    ensures AllOf([x] + xs) == if x.Some? then Prepend(x.value, AllOf(xs)) else None
  {
    var all := [x] + xs;
    assert all[0] == x && forall i :: 0 <= i < |xs| ==> all[i + 1] == xs[i];
    if AllOf(xs).Some? && x.Some? {
      assert forall i :: 0 < i < |all| ==> all[i] == xs[i - 1];
      assert AllOf(all).value == [x.value] + AllOf(xs).value;
    }
  }

  lemma {:induction false} ReadManyBack<T>(read: seq<Byte> -> Received<(T, seq<Byte>)>, parts: seq<seq<Byte>>,
      xs: seq<Option<T>>)
    requires |parts| == |xs| && forall i :: 0 <= i < |parts| ==> ReadsAs(read, parts[i], xs[i])
    ensures ReadMany(read, Stream.Flatten(parts), |parts|) == AllOf(xs)
    decreases |parts|
  {
    if parts == [] {
      assert AllOf(xs).value == [];
    } else {
      var rest := Stream.Flatten(parts[1..]);
      ReadManyBack(read, parts[1..], xs[1..]);
      AllOfCons(xs[0], xs[1..]);
      assert xs == [xs[0]] + xs[1..];
      assert ReadsAs(read, parts[0], xs[0]) && Stream.Flatten(parts) == parts[0] + rest;
    }
  }

  /** What becomes of a request: it is delivered when its payload is within the decoder's limits. */
  function RequestOutcome(m: Sent<Request>): Option<(Request, Uint32)> {
    if Deliverable(m.message.payload) then Some((m.message, m.sequence)) else None
  }

  function RequestsOnWire(c: Cipher, key: SessionKey, ms: seq<Sent<Request>>): (parts: seq<seq<Byte>>)
    requires forall i :: 0 <= i < |ms| ==> WellSent(c, key, ms[i])
    ensures |parts| == |ms|
  {
    seq(|ms|, i requires 0 <= i < |ms| && WellSent(c, key, ms[i]) => RequestWire(c, key, ms[i]))
  }

  function RequestReader(c: Cipher, key: SessionKey): seq<Byte> -> Received<((Request, Uint32), seq<Byte>)> {
    s => ReceiveRequest(c, key, s)
  }

  /** What becomes of a response: it is delivered when its payload is within the decoder's limits. */
  function ResponseOutcome(m: Sent<Response>): Option<Response> {
    if Deliverable(m.message.payload) then Some(m.message.(sequence := m.sequence)) else None
  }

  function ResponsesOnWire(c: Cipher, key: SessionKey, ms: seq<Sent<Response>>): (parts: seq<seq<Byte>>)
    requires forall i :: 0 <= i < |ms| ==> WellSentResponse(c, key, ms[i])
    ensures |parts| == |ms|
  {
    seq(|ms|, i requires 0 <= i < |ms| && WellSentResponse(c, key, ms[i]) => ResponseWire(c, key, ms[i]))
  }

  function ResponseReader(c: Cipher, key: SessionKey): seq<Byte> -> Received<(Response, seq<Byte>)> {
    s => ReceiveResponse(c, key, s)
  }

  lemma RequestReadsAs(c: Cipher, key: SessionKey, m: Sent<Request>)
    requires Lawful(c) && Usable(key) && WellSent(c, key, m)
    ensures ReadsAs(RequestReader(c, key), RequestWire(c, key, m), RequestOutcome(m))
  {
    forall rest
      ensures if RequestOutcome(m).Some?
              then ReceiveRequest(c, key, RequestWire(c, key, m) + rest) == Message((RequestOutcome(m).value, rest))
              else !ReceiveRequest(c, key, RequestWire(c, key, m) + rest).Message?
    {
      RequestRoundTrip(c, key, m, rest);
    }
  }

  lemma ResponseReadsAs(c: Cipher, key: SessionKey, m: Sent<Response>)
    requires Lawful(c) && Usable(key) && WellSentResponse(c, key, m)
    ensures ReadsAs(ResponseReader(c, key), ResponseWire(c, key, m), ResponseOutcome(m))
  {
    forall rest
      ensures if ResponseOutcome(m).Some?
              then ReceiveResponse(c, key, ResponseWire(c, key, m) + rest) == Message((ResponseOutcome(m).value, rest))
              else !ReceiveResponse(c, key, ResponseWire(c, key, m) + rest).Message?
    {
      ResponseRoundTrip(c, key, m, rest);
    }
  }

  /** Requests written to one stream are all read back, in order, exactly when every payload is
      within the decoder's limits. */
  lemma RequestStream(c: Cipher, key: SessionKey, ms: seq<Sent<Request>>)
    requires Lawful(c) && Usable(key)
    requires forall i :: 0 <= i < |ms| ==> WellSent(c, key, ms[i])
    ensures ReadMany(RequestReader(c, key), Stream.Flatten(RequestsOnWire(c, key, ms)), |ms|)
         == AllOf(seq(|ms|, i requires 0 <= i < |ms| => RequestOutcome(ms[i])))
  {
    var parts, xs := RequestsOnWire(c, key, ms), seq(|ms|, i requires 0 <= i < |ms| => RequestOutcome(ms[i]));
    forall i | 0 <= i < |ms| ensures ReadsAs(RequestReader(c, key), parts[i], xs[i]) {
      RequestReadsAs(c, key, ms[i]);
    }
    ReadManyBack(RequestReader(c, key), parts, xs);
  }

  lemma ResponseStream(c: Cipher, key: SessionKey, ms: seq<Sent<Response>>)
    requires Lawful(c) && Usable(key)
    requires forall i :: 0 <= i < |ms| ==> WellSentResponse(c, key, ms[i])
    ensures ReadMany(ResponseReader(c, key), Stream.Flatten(ResponsesOnWire(c, key, ms)), |ms|)
         == AllOf(seq(|ms|, i requires 0 <= i < |ms| => ResponseOutcome(ms[i])))
  {
    var parts, xs := ResponsesOnWire(c, key, ms), seq(|ms|, i requires 0 <= i < |ms| => ResponseOutcome(ms[i]));
    forall i | 0 <= i < |ms| ensures ReadsAs(ResponseReader(c, key), parts[i], xs[i]) {
      ResponseReadsAs(c, key, ms[i]);
    }
    ReadManyBack(ResponseReader(c, key), parts, xs);
  }

  /** Some cipher satisfies the laws, so the results above are about something. */
  lemma LawfulCipherExists() returns (c: Cipher)
    ensures Lawful(c)
  {
    var tag: seq<Byte> := seq(TAG_SIZE, _ => 0);
    c := Cipher(
      (key: seq<Byte>, nonce: seq<Byte>, plain: seq<Byte>) => nonce + plain + tag,
      (key: seq<Byte>, data: seq<Byte>) =>
        if |data| < NONCE_SIZE + TAG_SIZE then None else Some(data[NONCE_SIZE..|data| - TAG_SIZE]));
    forall key: seq<Byte>, nonce: seq<Byte>, plain: seq<Byte> | |nonce| == NONCE_SIZE
      ensures |c.seal(key, nonce, plain)| == |plain| + NONCE_SIZE + TAG_SIZE
      ensures c.open(key, c.seal(key, nonce, plain)) == Some(plain)
    {
      assert (nonce + plain + tag)[NONCE_SIZE..NONCE_SIZE + |plain|] == plain;
    }
  }

  // ----- the reading and writing methods -----

  method WriteRequest(w: Writer, c: Cipher, key: SessionKey, nonce: seq<Byte>, sequence: Uint32, r: Request)
    returns (ok: bool)
    requires r.payload.Some? ==> Encodable(Map(r.payload.value))
    modifies w
    ensures var wire := WireBytes(c, key, nonce, sequence, RequestPlain(r));
            ok == wire.Some? && w.written == old(w.written) + if ok then wire.value else []
  {
    var data := Protect(c, key, nonce, RequestPlain(r));
    if data.None? {
      return false;
    }
    ok := Framing.Write(w, sequence, data.value);
  }

  method WriteResponse(w: Writer, c: Cipher, key: SessionKey, nonce: seq<Byte>, sequence: Uint32,
      r: Response) returns (ok: bool)
    requires r.payload.Some? ==> Encodable(Map(r.payload.value))
    modifies w
    ensures var wire := WireBytes(c, key, nonce, sequence, ResponsePlain(r));
            ok == wire.Some? && w.written == old(w.written) + if ok then wire.value else []
  {
    var data := Protect(c, key, nonce, ResponsePlain(r));
    if data.None? {
      return false;
    }
    ok := Framing.Write(w, sequence, data.value);
  }

  /** However the input is cut into chunks, the result depends on its bytes alone. */
  method ReadRequest(r: Stream.Reader, c: Cipher, key: SessionKey) returns (result: Received<(Request, Uint32)>)
    requires r.Valid()
    modifies r
    ensures r.Valid()
    ensures match ReceiveRequest(c, key, old(r.Contents()))
            case Message((req, rest)) => result == Message(req) && r.Contents() == rest
            case Bad(e) => result == Bad(e)
            case Crashed => result == Crashed
  {
    var f := Framing.Read(r);
    if f.None? {
      return Bad(FrameError);
    }
    var plain := Unprotect(c, key, f.value.data);
    if plain.None? {
      return Bad(CipherError);
    }
    match ParseRequest(plain.value)
    case Bad(e) => result := Bad(e);
    case Crashed => result := Crashed;
    case Message(req) => result := Message((req, f.value.sequence));
  }

  method ReadResponse(r: Stream.Reader, c: Cipher, key: SessionKey) returns (result: Received<Response>)
    requires r.Valid()
    modifies r
    ensures r.Valid()
    ensures match ReceiveResponse(c, key, old(r.Contents()))
            case Message((resp, rest)) => result == Message(resp) && r.Contents() == rest
            case Bad(e) => result == Bad(e)
            case Crashed => result == Crashed
  {
    var f := Framing.Read(r);
    if f.None? {
      return Bad(FrameError);
    }
    var plain := Unprotect(c, key, f.value.data);
    if plain.None? {
      return Bad(CipherError);
    }
    match ParseResponse(plain.value, f.value.sequence)
    case Bad(e) => result := Bad(e);
    case Crashed => result := Crashed;
    case Message(resp) => result := Message(resp);
  }
}
