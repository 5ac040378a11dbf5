/** Exactly which bytes a frame, a request and a response are, on reading and on writing. */
module Receipt {
  import opened Wrappers
  import opened Bytes
  import opened Values
  import opened Decoder
  import opened Framing
  import opened Messages

  // ----- frames -----

  /** Length of what follows and sequence number, four bytes each with the most significant first,
      and then the data. */
  lemma FrameLayout(f: Frame)
    requires 4 + |f.data| <= 1048576
    ensures var n, q := 4 + |f.data|, f.sequence;
            FrameBytes(f) ==
              [0, n / 65536, n / 256 % 256, n % 256]
                + [q / 16777216, q / 65536 % 256, q / 256 % 256, q % 256] + f.data
  {
    FourBytes(4 + |f.data|);
    FourBytes(f.sequence);
  }

  lemma FourBytes(n: Uint32)
    ensures BigEndian(n, 4) == [n / 16777216, n / 65536 % 256, n / 256 % 256, n % 256]
  {
    assert n / 256 / 256 == n / 65536 && n / 65536 / 256 == n / 16777216;
    assert BigEndian(n / 16777216, 1) == [n / 16777216];
    assert BigEndian(n / 65536, 2) == [n / 16777216, n / 65536 % 256];
    assert BigEndian(n / 256, 3) == [n / 16777216, n / 65536 % 256, n / 256 % 256];
  }

  /** A frame of at most 1 MiB is at the front of the input. */
  predicate FrameAt(s: seq<Byte>, f: Frame, rest: seq<Byte>) {
    4 + |f.data| <= 1048576 && s == FrameBytes(f) + rest
  }

  lemma FrameExactly(s: seq<Byte>, f: Frame, rest: seq<Byte>)
    ensures ParseFrame(s) == Some((f, rest)) <==> FrameAt(s, f, rest)
  {
    if ParseFrame(s) == Some((f, rest)) {
      ParsedFrameBytes(s);
    }
    if FrameAt(s, f, rest) {
      FrameRoundTrip(f, rest);
    }
  }

  // ----- protection -----

  /** Without a session key data is its own plaintext. With one it must be at least nonce and tag
      long, the key must be one that AES accepts, and the cipher must open it. */
  ghost predicate Opens(c: Cipher, key: SessionKey, data: seq<Byte>, plain: seq<Byte>) {
    match key
    case None => plain == data
    case Some(k) => |data| >= 28 && |k| in {16, 24, 32} && c.open(k, data) == Some(plain)
  }

  lemma OpensExactly(c: Cipher, key: SessionKey, data: seq<Byte>, plain: seq<Byte>)
    ensures Unprotect(c, key, data) == Some(plain) <==> Opens(c, key, data, plain)
  {
  }

  /** Without a session key a plaintext is sent as it is; with one it is sealed, or not sent. */
  ghost predicate Seals(c: Cipher, key: SessionKey, nonce: seq<Byte>, plain: seq<Byte>, data: seq<Byte>) {
    match key
    case None => data == plain
    case Some(k) => |k| in {16, 24, 32} && data == c.seal(k, nonce, plain)
  }

  /** A write puts one frame of the sealed plaintext on the wire, or is refused. */
  lemma WireExactly(c: Cipher, key: SessionKey, nonce: seq<Byte>, sequence: Uint32, plain: seq<Byte>, w: seq<Byte>)
    ensures WireBytes(c, key, nonce, sequence, plain) == Some(w) <==>
              exists data :: Seals(c, key, nonce, plain, data) && FrameAt(w, Frame(sequence, data), [])
  {
    if WireBytes(c, key, nonce, sequence, plain) == Some(w) {
      var data := Protect(c, key, nonce, plain).value;
      assert Seals(c, key, nonce, plain, data) && FrameAt(w, Frame(sequence, data), []);
    }
    forall data | Seals(c, key, nonce, plain, data) && FrameAt(w, Frame(sequence, data), [])
      ensures WireBytes(c, key, nonce, sequence, plain) == Some(w)
    {
      assert FrameBytes(Frame(sequence, data)) + [] == FrameBytes(Frame(sequence, data));
    }
  }

  // ----- what a reader makes of its input -----

  /** The input begins with a frame that opens to the plaintext. */
  ghost predicate Arrives(c: Cipher, key: SessionKey, s: seq<Byte>, sequence: Uint32, plain: seq<Byte>,
      rest: seq<Byte>)
  {
    exists data :: FrameAt(s, Frame(sequence, data), rest) && Opens(c, key, data, plain)
  }

  lemma ArrivesExactly(c: Cipher, key: SessionKey, s: seq<Byte>, sequence: Uint32, plain: seq<Byte>, rest: seq<Byte>)
    ensures ParseWire(c, key, s) == Message((sequence, plain, rest)) <==> Arrives(c, key, s, sequence, plain, rest)
  {
    if ParseWire(c, key, s) == Message((sequence, plain, rest)) {
      var (f, tail) := ParseFrame(s).value;
      FrameExactly(s, f, tail);
      OpensExactly(c, key, f.data, plain);
      assert f == Frame(sequence, f.data);
    }
    forall data | FrameAt(s, Frame(sequence, data), rest) && Opens(c, key, data, plain)
      ensures ParseWire(c, key, s) == Message((sequence, plain, rest))
    {
      FrameExactly(s, Frame(sequence, data), rest);
      OpensExactly(c, key, data, plain);
    }
  }

  /** The payload that bytes hold: none if there are no bytes, and otherwise the map they decode to. */
  ghost predicate HoldsPayload(s: seq<Byte>, p: Payload) {
    match p
    case None => s == []
    case Some(es) => s != [] && DecodeBytes(s) == Returns(Ok(Map(es)))
  }

  lemma PayloadExactly(s: seq<Byte>, p: Payload)
    ensures ParsePayload(s) == Returns(Ok(p)) <==> HoldsPayload(s, p)
  {
  }

  lemma OpcodeBytes(plain: seq<Byte>)
    requires |plain| >= 2
    ensures FromBigEndian(plain[..2]) == 256 * (plain[0] as int) + plain[1]
  {
    assert plain[..2] == [] + [plain[0]] + [plain[1]];
    FromBigEndianAppend([] + [plain[0]], plain[1]);
    FromBigEndianAppend([], plain[0]);
  }

  /** A request is read exactly when the input begins with a frame that opens to two bytes of opcode
      and a payload. */
  lemma RequestReadExactly(c: Cipher, key: SessionKey, s: seq<Byte>, req: Request, sequence: Uint32, rest: seq<Byte>)
    ensures ReceiveRequest(c, key, s) == Message(((req, sequence), rest)) <==>
              exists plain ::
                && Arrives(c, key, s, sequence, plain, rest)
                && |plain| >= 2 && req.opcode == 256 * (plain[0] as int) + plain[1]
                && HoldsPayload(plain[2..], req.payload)
  {
    if ReceiveRequest(c, key, s) == Message(((req, sequence), rest)) {
      var (q, plain, tail) := ParseWire(c, key, s).value;
      ArrivesExactly(c, key, s, sequence, plain, rest);
      OpcodeBytes(plain);
      PayloadExactly(plain[2..], req.payload);
    }
    forall plain |
      && Arrives(c, key, s, sequence, plain, rest)
      && |plain| >= 2 && req.opcode == 256 * (plain[0] as int) + plain[1]
      && HoldsPayload(plain[2..], req.payload)
      ensures ReceiveRequest(c, key, s) == Message(((req, sequence), rest))
    {
      ArrivesExactly(c, key, s, sequence, plain, rest);
      OpcodeBytes(plain);
      PayloadExactly(plain[2..], req.payload);
    }
  }

  /** A response is read exactly when the input begins with a frame that opens to a status byte and a
      payload; its number is the frame's. */
  lemma ResponseReadExactly(c: Cipher, key: SessionKey, s: seq<Byte>, r: Response, rest: seq<Byte>)
    ensures ReceiveResponse(c, key, s) == Message((r, rest)) <==>
              exists plain ::
                && Arrives(c, key, s, r.sequence, plain, rest)
                && |plain| >= 1 && r.status == plain[0]
                && HoldsPayload(plain[1..], r.payload)
  {
    if ReceiveResponse(c, key, s) == Message((r, rest)) {
      var (q, plain, tail) := ParseWire(c, key, s).value;
      ArrivesExactly(c, key, s, r.sequence, plain, rest);
      PayloadExactly(plain[1..], r.payload);
    }
    forall plain |
      && Arrives(c, key, s, r.sequence, plain, rest)
      && |plain| >= 1 && r.status == plain[0]
      && HoldsPayload(plain[1..], r.payload)
      ensures ReceiveResponse(c, key, s) == Message((r, rest))
    {
      ArrivesExactly(c, key, s, r.sequence, plain, rest);
      PayloadExactly(plain[1..], r.payload);
    }
  }

  // ----- what is refused -----

  /** On a keyed session a frame too short for nonce and tag, or read under a key that AES does not
      accept, or whose data the cipher does not open, is refused as a request and as a response. */
  lemma UnopenedRefused(c: Cipher, key: SessionKey, s: seq<Byte>)
    ensures (exists f, rest :: FrameAt(s, f, rest) && forall plain :: !Opens(c, key, f.data, plain)) <==>
              ReceiveRequest(c, key, s) == Bad(CipherError)
    ensures ReceiveRequest(c, key, s) == Bad(CipherError) <==> ReceiveResponse(c, key, s) == Bad(CipherError)
  {
    forall f, rest | FrameAt(s, f, rest)
      ensures (forall plain :: !Opens(c, key, f.data, plain)) <==> ReceiveRequest(c, key, s) == Bad(CipherError)
    {
      FrameExactly(s, f, rest);
      NothingOpens(c, key, f.data);
    }
    if ParseFrame(s).Some? {
      var (f, rest) := ParseFrame(s).value;
      FrameExactly(s, f, rest);
    }
  }

  lemma NothingOpens(c: Cipher, key: SessionKey, data: seq<Byte>)
    ensures Unprotect(c, key, data) == None <==> forall plain :: !Opens(c, key, data, plain)
  {
    if Unprotect(c, key, data).Some? {
      OpensExactly(c, key, data, Unprotect(c, key, data).value);
    }
    forall plain | Unprotect(c, key, data) == None ensures !Opens(c, key, data, plain) {
      OpensExactly(c, key, data, plain);
    }
  }

  /** In particular cleartext does not pass on a keyed session: whatever the cipher, data shorter than
      28 bytes and keys of other lengths are refused. */
  lemma CleartextRefused(c: Cipher, key: seq<Byte>, f: Frame, rest: seq<Byte>)
    requires 4 + |f.data| <= 1048576 && (|f.data| < 28 || |key| !in {16, 24, 32})
    ensures ReceiveRequest(c, Some(key), FrameBytes(f) + rest) == Bad(CipherError)
    ensures ReceiveResponse(c, Some(key), FrameBytes(f) + rest) == Bad(CipherError)
  {
    UnopenedRefused(c, Some(key), FrameBytes(f) + rest);
    assert FrameAt(FrameBytes(f) + rest, f, rest);
  }

  /** An input that does not begin with a frame is refused, and so is a plaintext without room for
      the opcode or the status. */
  lemma ShortRefused(c: Cipher, key: SessionKey, s: seq<Byte>)
    ensures (forall f, rest :: !FrameAt(s, f, rest)) <==> ReceiveRequest(c, key, s) == Bad(FrameError)
    ensures (forall f, rest :: !FrameAt(s, f, rest)) <==> ReceiveResponse(c, key, s) == Bad(FrameError)
    ensures forall sequence: Uint32, plain, rest :: Arrives(c, key, s, sequence, plain, rest) ==>
              && (|plain| < 2 <==> ReceiveRequest(c, key, s) == Bad(MessageTooShort))
              && (|plain| < 1 <==> ReceiveResponse(c, key, s) == Bad(MessageTooShort))
  {
    forall f, rest | FrameAt(s, f, rest) ensures ParseFrame(s) == Some((f, rest)) {
      FrameExactly(s, f, rest);
    }
    if ParseFrame(s).Some? {
      var (f, rest) := ParseFrame(s).value;
      FrameExactly(s, f, rest);
    }
    forall sequence: Uint32, plain, rest | Arrives(c, key, s, sequence, plain, rest)
      ensures ParseWire(c, key, s) == Message((sequence, plain, rest))
    {
      ArrivesExactly(c, key, s, sequence, plain, rest);
    }
  }
}
