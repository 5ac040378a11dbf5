/** What the decoder accepts, it returns within its limits and re-encodes in no more bytes:
    decoding after encoding after decoding is decoding. */
module Canonical {
  import opened Bytes
  import opened Values
  import opened Decoder
  import opened RoundTrip
  import Varint

  // ----- the ordered map's Set keeps keys distinct and the encoding short -----

  lemma SetKeepsDistinct(es: seq<Entry>, key: seq<Byte>, v: Value)
    requires Distinct(Keys(es))
    ensures Distinct(Keys(SetEntry(es, key, v)))
  {
    var i, r := Find(es, key), SetEntry(es, key, v);
    assert forall j :: 0 <= j < |es| ==> Keys(es)[j] == es[j].key;
    if i < |es| {
      assert Keys(r) == Keys(es);
    } else {
      assert Keys(r) == Keys(es) + [key];
    }
  }

  lemma SetEntryAtHead(es: seq<Entry>, key: seq<Byte>, v: Value)
    ensures SetEntry(es, key, v) ==
              if es == [] then [Entry(key, v)] + []
              else if es[0].key == key then [Entry(key, v)] + es[1..]
              else [es[0]] + SetEntry(es[1..], key, v)
  {
  }

  lemma EncodeEntriesCons(e: Entry, es: seq<Entry>)
    ensures EncodeEntries([e] + es) == EncodeEntry(e) + EncodeEntries(es)
  {
    assert ([e] + es)[1..] == es;
  }

  lemma {:induction false} SetEncodedSize(es: seq<Entry>, key: seq<Byte>, v: Value)
    ensures |EncodeEntries(SetEntry(es, key, v))| <= |EncodeEntries(es)| + |EncodeEntry(Entry(key, v))|
  {
    SetEntryAtHead(es, key, v);
    if es == [] {
      EncodeEntriesCons(Entry(key, v), []);
    } else if es[0].key == key {
      EncodeEntriesCons(Entry(key, v), es[1..]);
    } else {
      SetEncodedSize(es[1..], key, v);
      EncodeEntriesCons(es[0], SetEntry(es[1..], key, v));
    }
  }

  // ----- what the decoder returns -----

  /** The entries of a map decoded at a depth satisfy the limits. */
  predicate EntriesOk(es: seq<Entry>, depth: nat) {
    && Distinct(Keys(es))
    && forall e :: e in es ==> EntryOk(e, depth)
  }

  predicate EntryOk(e: Entry, depth: nat) {
    && Good(e.value) && |e.key| <= MAX_PAYLOAD && FieldFits(e.value, depth + 1)
  }

  lemma {:induction false} EntriesOkFit(es: seq<Entry>, depth: nat)
    requires forall e :: e in es ==> EntryOk(e, depth)
    ensures EntriesFit(es, depth)
  {
    if es != [] {
      assert EntryOk(es[0], depth);
      EntriesOkFit(es[1..], depth);
      EntriesFitCons(es, depth);
    }
  }

  lemma SetKeepsOk(es: seq<Entry>, key: seq<Byte>, v: Value, depth: nat)
    requires EntriesOk(es, depth) && EntryOk(Entry(key, v), depth)
    ensures EntriesOk(SetEntry(es, key, v), depth)
  {
    SetKeepsDistinct(es, key, v);
  }

  lemma FixedDecoded(t: Byte, payload: seq<Byte>)
    requires UINT8 <= t <= BOOL || t == TIMESTAMP
    requires DecodeFixed(t, payload).Ok?
    ensures var v := DecodeFixed(t, payload).value;
            TypeCode(v) == t && !IsContainer(v) && !v.Foreign? && |ScalarPayload(v)| <= |payload|
  {
  }

  lemma ScalarDecoded(t: Byte, payload: seq<Byte>)
    requires t != ARRAY && t != MAP && DecodeScalar(t, payload).Ok?
    ensures var v := DecodeScalar(t, payload).value;
            TypeCode(v) == t && !IsContainer(v) && !v.Foreign? && |ScalarPayload(v)| <= |payload|
  {
    if UINT8 <= t <= BOOL || t == TIMESTAMP {
      FixedDecoded(t, payload);
    }
  }

  /** A decoded value is encodable, distinct-keyed, within the limits left at its depth, and its
      own payload is no longer than the one it was decoded from. */
  lemma {:induction false} DecodedValue(t: Byte, payload: seq<Byte>, depth: nat)
    requires DecodeValue(t, payload, depth).Ok?
    ensures var v := DecodeValue(t, payload, depth).value;
            && TypeCode(v) == t && Good(v)
            && depth + Depth(v) <= MAX_DEPTH && SmallBelow(v)
            && |Payload(v)| <= |payload|
    decreases |payload|, 4
  {
    if t == ARRAY {
      DecodedElems(payload, depth);
    } else if t == MAP {
      DecodedEntries(payload, depth, []);
      EntriesOkFit(DecodeEntries(payload, depth, []).value, depth);
    } else {
      ScalarDecoded(t, payload);
    }
  }

  lemma {:induction false} DecodedField(buf: seq<Byte>, depth: nat)
    requires DecodeField(buf, depth).Ok?
    ensures var (v, n) := DecodeField(buf, depth).value;
            Good(v) && FieldFits(v, depth) && |Encode(v)| <= n
    decreases |buf|, 1
  {
    var payload := FieldPayload(buf, depth);
    DecodedValue(buf[0], payload, depth + 1);
    EncodedNoLonger(buf, payload, DecodeField(buf, depth).value.0);
  }

  /** The payload that a successful DecodeField decodes. */
  lemma FieldPayload(buf: seq<Byte>, depth: nat) returns (payload: seq<Byte>)
    requires DecodeField(buf, depth).Ok?
    ensures Varint.Parse(buf[1..]).Complete? && |payload| == Varint.Parse(buf[1..]).value <= MAX_PAYLOAD
    ensures DecodeField(buf, depth).value.1 == 1 + Varint.Parse(buf[1..]).size + |payload|
    ensures DecodeValue(buf[0], payload, depth + 1) == Ok(DecodeField(buf, depth).value.0)
    ensures |payload| < |buf|
  {
    var p := Varint.Parse(buf[1..]);
    payload := buf[1 + p.size..1 + p.size + p.value];
  }

  lemma EncodedNoLonger(buf: seq<Byte>, payload: seq<Byte>, v: Value)
    requires buf != [] && Varint.Parse(buf[1..]).Complete?
    requires |Payload(v)| <= |payload| == Varint.Parse(buf[1..]).value
    ensures |Encode(v)| <= 1 + Varint.Parse(buf[1..]).size + |payload|
  {
    Varint.LengthMonotone(|Payload(v)|, |payload|);
    Varint.EncodedShortest(buf[1..]);
  }

  lemma {:induction false} DecodedElems(buf: seq<Byte>, depth: nat)
    requires DecodeElems(buf, depth).Ok?
    ensures var vs := DecodeElems(buf, depth).value;
            && (forall x :: x in vs ==> Good(x))
            && AllFit(vs, depth)
            && |EncodeAll(vs)| <= |buf|
    decreases |buf|, 2
  {
    if buf != [] {
      var (v, n) := DecodeField(buf, depth).value;
      DecodedField(buf, depth);
      DecodedElems(buf[n..], depth);
      var vs := DecodeElems(buf[n..], depth).value;
      assert ([v] + vs)[1..] == vs;
      AllFitCons([v] + vs, depth);
    }
  }

  lemma {:induction false} DecodedEntries(buf: seq<Byte>, depth: nat, done: seq<Entry>)
    requires EntriesOk(done, depth) && DecodeEntries(buf, depth, done).Ok?
    ensures var es := DecodeEntries(buf, depth, done).value;
            && EntriesOk(es, depth)
            && |EncodeEntries(es)| <= |EncodeEntries(done)| + |buf|
    decreases |buf|, 3
  {
    if buf != [] {
      var (e, n) := DecodeEntry(buf, depth).value;
      assert EntryOk(e, depth) && |EncodeEntry(e)| <= n by {
        DecodedEntry(buf, depth);
      }
      SetKeepsOk(done, e.key, e.value, depth);
      SetEncodedSize(done, e.key, e.value);
      DecodedEntries(buf[n..], depth, SetEntry(done, e.key, e.value));
    }
  }

  lemma {:induction false} DecodedEntry(buf: seq<Byte>, depth: nat)
    requires DecodeEntry(buf, depth).Ok?
    ensures var (e, n) := DecodeEntry(buf, depth).value;
            EntryOk(e, depth) && |EncodeEntry(e)| <= n
    decreases |buf|, 2
  {
    var (key, n) := DecodeField(buf, depth + 1).value;
    DecodedField(buf, depth + 1);
    DecodedField(buf[n..], depth + 1);
    assert Encode(key) == Field(STRING, key.text);
  }

  // ----- the root -----

  ghost predicate Accepts(buf: seq<Byte>, v: Value) {
    DecodeBytes(buf) == Returns(Ok(v))
  }

  /** The payload that an accepting DecodeBytes decodes. */
  lemma RootPayload(buf: seq<Byte>, v: Value) returns (payload: seq<Byte>)
    requires Accepts(buf, v) && |buf| <= MAX_INT
    ensures buf != [] && Varint.Parse(buf[1..]).Complete? && |payload| == Varint.Parse(buf[1..]).value
    ensures Consumed(buf) == 1 + Varint.Parse(buf[1..]).size + |payload| <= |buf|
    ensures DecodeValue(buf[0], payload, 0) == Ok(v)
  {
    RootDecoded(buf);
    payload := buf[1 + Varint.Parse(buf[1..]).size..Consumed(buf)];
  }

  /** Every accepted byte string decodes to a value whose encoding is no longer than the bytes
      consumed and decodes to the value again, whatever follows it. Hence the encoder's form is
      the shortest of all the forms the decoder accepts for a value. */
  lemma Canonicalisation(buf: seq<Byte>, v: Value, rest: seq<Byte>)
    requires Accepts(buf, v) && |buf| <= MAX_INT
    ensures Good(v) && InLimits(v)
    ensures |Encode(v)| <= Consumed(buf) <= |buf|
    ensures Accepts(Encode(v) + rest, v)
  {
    var payload := RootPayload(buf, v);
    DecodedValue(buf[0], payload, 0);
    EncodedNoLonger(buf, payload, v);
    ExactRoundTrip(v, rest);
  }

  /** A decoded tree, map keys counted, has at most half as many nodes as the input has bytes. */
  lemma DecodedTreeSize(buf: seq<Byte>, v: Value)
    requires Accepts(buf, v) && |buf| <= MAX_INT
    ensures 2 * Nodes(v) <= Consumed(buf) <= |buf|
  {
    Canonicalisation(buf, v, []);
    NodesBound(v);
  }

  /** The only outcome that is not a returned value or error: the uint64 sum of the payload's
      start and length wraps round and the slice expression panics. */
  lemma PanicsExactly(buf: seq<Byte>)
    ensures DecodeBytes(buf).Panics? <==> Consumed(buf) >= TWO_64
  {
    if buf != [] && Varint.Parse(buf[1..]).Complete? {
      RootDecoded(buf);
    }
  }

  /** The ten-byte form of the largest uint64. */
  lemma LargestLength() returns (form: seq<Byte>)
    ensures form == [255, 255, 255, 255, 255, 255, 255, 255, 255, 1]
    ensures Varint.Parse(form) == Varint.Complete(TWO_64 - 1, 10)
  {
    form := [255, 255, 255, 255, 255, 255, 255, 255, 255, 1];
    assert Varint.ParseFrom(form[9..], 9) == Varint.Complete(1, 1);
    assert Varint.ParseFrom(form[8..], 8) == Varint.Complete(0xff, 2);
    assert Varint.ParseFrom(form[7..], 7) == Varint.Complete(0x7fff, 3);
    assert Varint.ParseFrom(form[6..], 6) == Varint.Complete(0x3f_ffff, 4);
    assert Varint.ParseFrom(form[5..], 5) == Varint.Complete(0x1fff_ffff, 5);
    assert Varint.ParseFrom(form[4..], 4) == Varint.Complete(0xf_ffff_ffff, 6);
    assert Varint.ParseFrom(form[3..], 3) == Varint.Complete(0x7ff_ffff_ffff, 7);
    assert Varint.ParseFrom(form[2..], 2) == Varint.Complete(0x3_ffff_ffff_ffff, 8);
    assert Varint.ParseFrom(form[1..], 1) == Varint.Complete(0x1ff_ffff_ffff_ffff, 9);
  }

  /** Such an input: a string whose length is the largest uint64. */
  lemma PanicExample()
    ensures DecodeBytes([STRING, 255, 255, 255, 255, 255, 255, 255, 255, 255, 1]) == Panics
  {
    var form := LargestLength();
    assert ([STRING] + form)[1..] == form;
    PanicsExactly([STRING] + form);
  }
}
