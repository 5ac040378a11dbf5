/** Exactly which bytes the decoder accepts and what they mean, layer by layer: canonical or not. */
module WireFormat {
  import opened Wrappers
  import opened Bytes
  import opened Values
  import opened Decoder
  import opened RoundTrip
  import opened Canonical
  import Varint
  import Stream
  import M = OrderedMap

  // ----- scalars -----

  /** How many bytes a fixed-width type reads. */
  function Width(t: Byte): (w: nat)
    requires 3 <= t <= 11 || t == 15
  {
    match t
    case 3 => 1
    case 11 => 1
    case 4 => 2
    case 5 => 4
    case 7 => 4
    case 9 => 4
    case _ => 8
  }

  lemma TooDeepExactly(t: Byte, payload: seq<Byte>, depth: nat)
    ensures DecodeValue(t, payload, depth) == Err(TooDeep) || depth <= 64
    ensures depth <= 64 && t != 12 && t != 13 ==> DecodeValue(t, payload, depth) == DecodeScalar(t, payload)
  {
  }

  /** A boolean is true exactly when its first byte is not 0. */
  lemma BooleanExactly(payload: seq<Byte>, depth: nat)
    requires depth <= 64
    ensures DecodeValue(11, payload, depth) ==
              if payload == [] then Err(ShortScalar) else Ok(Boolean(payload[0] != 0))
  {
  }

  lemma PrefixReadsBack(payload: seq<Byte>, width: nat)
    requires width <= |payload|
    ensures BigEndian(FromBigEndian(payload[..width]), width) == payload[..width]
  {
    BigEndianSurjective(payload[..width]);
  }

  lemma UnsignedExactly(t: Byte, payload: seq<Byte>)
    requires t in {4, 5, 6, 9, 10} && |payload| >= Width(t)
    ensures DecodeScalar(t, payload).Ok?
    ensures var v := DecodeScalar(t, payload).value;
            TypeCode(v) == t && !IsContainer(v) && ScalarPayload(v) == payload[..Width(t)]
  {
    Widths();
    PrefixReadsBack(payload, Width(t));
  }

  lemma SignedExactly(t: Byte, payload: seq<Byte>)
    requires t in {7, 8, 15} && |payload| >= Width(t)
    ensures DecodeScalar(t, payload).Ok?
    ensures var v := DecodeScalar(t, payload).value;
            TypeCode(v) == t && !IsContainer(v) && ScalarPayload(v) == payload[..Width(t)]
  {
    Widths();
    PrefixReadsBack(payload, Width(t));
  }

  /** A fixed-width value needs its width and no more: it is the value of its type whose own payload
      is the first bytes of the payload; a payload too short is an error. */
  lemma FixedExactly(t: Byte, payload: seq<Byte>, depth: nat)
    requires depth <= 64 && (3 <= t <= 10 || t == 15)
    ensures |payload| < Width(t) ==> DecodeValue(t, payload, depth) == Err(ShortScalar)
    ensures |payload| >= Width(t) ==>
              && DecodeValue(t, payload, depth).Ok?
              && var v := DecodeValue(t, payload, depth).value;
                 TypeCode(v) == t && !IsContainer(v) && ScalarPayload(v) == payload[..Width(t)]
  {
    TooDeepExactly(t, payload, depth);
    if |payload| >= Width(t) {
      if t in {7, 8, 15} {
        SignedExactly(t, payload);
      } else if t != 3 {
        UnsignedExactly(t, payload);
      }
    }
  }

  /** Strings, bytes and null; every other code is refused. */
  lemma OtherScalarsExactly(t: Byte, payload: seq<Byte>, depth: nat)
    requires depth <= 64
    ensures t == 1 ==> DecodeValue(t, payload, depth) == Ok(Str(payload))
    ensures t == 2 ==> DecodeValue(t, payload, depth) == Ok(Blob(payload))
    ensures t == 14 ==> DecodeValue(t, payload, depth) == Ok(Null)
    ensures t == 0 || t > 15 ==> DecodeValue(t, payload, depth) == Err(UnknownType)
  {
  }

  // ----- one nested value -----

  /** A form of n, of k bytes, stands behind the type code. */
  ghost predicate LengthAt(buf: seq<Byte>, k: nat, n: nat) {
    1 + k <= |buf| && Varint.IsForm(buf[1..1 + k], n)
  }

  lemma LengthIsParsed(buf: seq<Byte>, k: nat, n: nat)
    requires buf != []
    ensures LengthAt(buf, k, n) <==> Varint.Parse(buf[1..]) == Varint.Complete(n, k)
  {
    Varint.ParsesExactly(buf[1..], n, k);
    if 1 + k <= |buf| {
      assert buf[1..][..k] == buf[1..1 + k];
    }
  }

  /** The bytes of one nested value: a type code, any form of the payload's length, and a payload
      of at most 524288 bytes that decodes one level down. */
  ghost predicate IsFieldOf(part: seq<Byte>, v: Value, depth: nat) {
    exists k: nat :: IsFieldWith(part, k, v, depth)
  }

  ghost predicate IsFieldWith(part: seq<Byte>, k: nat, v: Value, depth: nat) {
    && 1 + k <= |part| && LengthAt(part, k, |part| - 1 - k) && |part| - 1 - k <= 524288
    && DecodeValue(part[0], part[1 + k..], depth + 1) == Ok(v)
  }

  lemma FieldIsAccepted(part: seq<Byte>, rest: seq<Byte>, v: Value, depth: nat)
    requires IsFieldOf(part, v, depth)
    ensures DecodeField(part + rest, depth) == Ok((v, |part|))
  {
    var k: nat :| IsFieldWith(part, k, v, depth);
    var n := |part| - 1 - k;
    FrontSlices(part, rest, k);
    LengthIsParsed(part + rest, k, n);
    SmallFieldDecodes(part + rest, k, n, depth);
  }

  lemma FrontSlices(part: seq<Byte>, rest: seq<Byte>, k: nat)
    requires 1 + k <= |part|
    ensures var buf := part + rest;
            buf[0] == part[0] && buf[1..1 + k] == part[1..1 + k] && buf[1 + k..|part|] == part[1 + k..]
  {
  }

  lemma SmallFieldDecodes(buf: seq<Byte>, k: nat, n: nat, depth: nat)
    requires 1 + k + n <= |buf| && n <= 524288 && Varint.Parse(buf[1..]) == Varint.Complete(n, k)
    ensures DecodeField(buf, depth) ==
              match DecodeValue(buf[0], buf[1 + k..1 + k + n], depth + 1)
              case Ok(v) => Ok((v, 1 + k + n))
              case Err(e) => Err(e)
  {
  }

  lemma AcceptedIsField(buf: seq<Byte>, depth: nat)
    requires DecodeField(buf, depth).Ok?
    ensures var (v, n) := DecodeField(buf, depth).value; IsFieldOf(buf[..n], v, depth)
  {
    var (v, n) := DecodeField(buf, depth).value;
    var p := Varint.Parse(buf[1..]);
    LengthIsParsed(buf, p.size, p.value);
    assert buf[..n][1..1 + p.size] == buf[1..1 + p.size];
    assert buf[..n][1 + p.size..] == buf[1 + p.size..n];
    assert IsFieldWith(buf[..n], p.size, v, depth);
  }

  /** A nested value is read off the front of a buffer exactly when the bytes it takes are its
      type code, a form of its length and its payload. */
  lemma FieldExactly(buf: seq<Byte>, depth: nat, v: Value, n: nat)
    ensures DecodeField(buf, depth) == Ok((v, n)) <==> n <= |buf| && IsFieldOf(buf[..n], v, depth)
  {
    if DecodeField(buf, depth) == Ok((v, n)) {
      AcceptedIsField(buf, depth);
    }
    if n <= |buf| && IsFieldOf(buf[..n], v, depth) {
      FieldIsAccepted(buf[..n], buf[n..], v, depth);
      assert buf == buf[..n] + buf[n..];
    }
  }

  // ----- reading parts end to end -----

  /** Reads a whole buffer part by part; a reader returns what it read and the bytes it took. */
  function ReadAll<T>(read: seq<Byte> -> Result<(T, nat)>, buf: seq<Byte>): Result<seq<T>>
    decreases |buf|
  {
    if buf == [] then Ok([])
    else
      match read(buf)
      case Err(e) => Err(e)
      case Ok((x, n)) =>
        if n == 0 || n > |buf| then Err(UnexpectedEof) else M.PutFirst(x, ReadAll(read, buf[n..]))
  }

  /** The reader reads exactly the parts that satisfy the predicate, whatever follows them. */
  ghost predicate Reads<T(!new)>(read: seq<Byte> -> Result<(T, nat)>, form: (seq<Byte>, T) -> bool) {
    && (forall buf, x, n: nat :: read(buf) == Ok((x, n)) <==> n <= |buf| && form(buf[..n], x))
    && forall x :: !form([], x)
  }

  ghost predicate AreParts<T>(form: (seq<Byte>, T) -> bool, parts: seq<seq<Byte>>, xs: seq<T>) {
    |parts| == |xs| && forall i :: 0 <= i < |xs| ==> form(parts[i], xs[i])
  }

  lemma ReadOne<T(!new)>(read: seq<Byte> -> Result<(T, nat)>, form: (seq<Byte>, T) -> bool, part: seq<Byte>,
      x: T, rest: seq<Byte>)
    requires Reads(read, form) && form(part, x)
    ensures ReadAll(read, part + rest) == M.PutFirst(x, ReadAll(read, rest))
  {
    assert (part + rest)[..|part|] == part && (part + rest)[|part|..] == rest;
    assert read(part + rest) == Ok((x, |part|));
    assert part != [];
  }

  lemma {:induction false} PartsAreRead<T(!new)>(read: seq<Byte> -> Result<(T, nat)>, form: (seq<Byte>, T) -> bool,
      parts: seq<seq<Byte>>, xs: seq<T>)
    requires Reads(read, form) && AreParts(form, parts, xs)
    ensures ReadAll(read, Stream.Flatten(parts)) == Ok(xs)
    decreases |parts|
  {
    if parts != [] {
      PartsAreRead(read, form, parts[1..], xs[1..]);
      ReadOne(read, form, parts[0], xs[0], Stream.Flatten(parts[1..]));
      assert xs == [xs[0]] + xs[1..];
    }
  }

  lemma {:induction false} ReadIsParts<T(!new)>(read: seq<Byte> -> Result<(T, nat)>, form: (seq<Byte>, T) -> bool,
      buf: seq<Byte>) returns (parts: seq<seq<Byte>>)
    requires Reads(read, form) && ReadAll(read, buf).Ok?
    ensures Stream.Flatten(parts) == buf && AreParts(form, parts, ReadAll(read, buf).value)
    decreases |buf|
  {
    if buf == [] {
      parts := [];
    } else {
      var (x, n) := read(buf).value;
      var later := ReadIsParts(read, form, buf[n..]);
      parts := [buf[..n]] + later;
      assert parts[1..] == later && buf == buf[..n] + buf[n..];
    }
  }

  /** A buffer is read as xs exactly when it is parts of xs end to end. */
  lemma ReadAllExactly<T(!new)>(read: seq<Byte> -> Result<(T, nat)>, form: (seq<Byte>, T) -> bool, buf: seq<Byte>,
      xs: seq<T>)
    requires Reads(read, form)
    ensures ReadAll(read, buf) == Ok(xs) <==> exists parts :: Stream.Flatten(parts) == buf && AreParts(form, parts, xs)
  {
    if ReadAll(read, buf) == Ok(xs) {
      var parts := ReadIsParts(read, form, buf);
    }
    forall parts | Stream.Flatten(parts) == buf && AreParts(form, parts, xs) ensures ReadAll(read, buf) == Ok(xs) {
      PartsAreRead(read, form, parts, xs);
    }
  }

  // ----- arrays -----

  function FieldReader(depth: nat): seq<Byte> -> Result<(Value, nat)> {
    buf => DecodeField(buf, depth)
  }

  ghost function FieldOf(depth: nat): (seq<Byte>, Value) -> bool {
    (part, v) => IsFieldOf(part, v, depth)
  }

  lemma FieldsRead(depth: nat)
    ensures Reads(FieldReader(depth), FieldOf(depth))
  {
    forall buf, v, n: nat
      ensures FieldReader(depth)(buf) == Ok((v, n)) <==> n <= |buf| && FieldOf(depth)(buf[..n], v)
    {
      FieldExactly(buf, depth, v, n);
    }
  }

  lemma {:induction false} ElementsAreRead(buf: seq<Byte>, depth: nat)
    ensures DecodeElems(buf, depth) == ReadAll(FieldReader(depth), buf)
    decreases |buf|
  {
    if buf != [] && DecodeField(buf, depth).Ok? {
      ElementsAreRead(buf[DecodeField(buf, depth).value.1..], depth);
    }
  }

  /** A payload decodes as an array of vs exactly when it is nested values of vs end to end. */
  lemma ArrayExactly(payload: seq<Byte>, depth: nat, v: Value)
    ensures DecodeValue(12, payload, depth) == Ok(v) <==>
              && depth <= 64 && v.Array?
              && exists parts :: Stream.Flatten(parts) == payload && AreParts(FieldOf(depth), parts, v.elems)
  {
    ElementsAreRead(payload, depth);
    FieldsRead(depth);
    if v.Array? {
      ReadAllExactly(FieldReader(depth), FieldOf(depth), payload, v.elems);
    }
  }

  // ----- maps -----

  /** Key and value are both nested one level deeper than an array's elements. */
  ghost predicate IsEntryOf(part: seq<Byte>, e: Entry, depth: nat) {
    IsPair(FieldOf(depth + 1), part, Str(e.key), e.value)
  }

  ghost predicate IsPair<T>(form: (seq<Byte>, T) -> bool, part: seq<Byte>, x: T, y: T) {
    exists k: nat :: AreTwoParts(form, part, k, x, y)
  }

  ghost predicate AreTwoParts<T>(form: (seq<Byte>, T) -> bool, part: seq<Byte>, k: nat, x: T, y: T) {
    k <= |part| && form(part[..k], x) && form(part[k..], y)
  }

  ghost predicate ReadsTwo<T>(read: seq<Byte> -> Result<(T, nat)>, buf: seq<Byte>, k: nat, n: nat, x: T, y: T) {
    k <= n <= |buf| && read(buf) == Ok((x, k)) && read(buf[k..]) == Ok((y, n - k))
  }

  ghost predicate ReadsPair<T>(read: seq<Byte> -> Result<(T, nat)>, buf: seq<Byte>, n: nat, x: T, y: T) {
    exists k: nat :: ReadsTwo(read, buf, k, n, x, y)
  }

  lemma TwoPartsRead<T(!new)>(read: seq<Byte> -> Result<(T, nat)>, form: (seq<Byte>, T) -> bool, buf: seq<Byte>,
      k: nat, n: nat, x: T, y: T)
    requires Reads(read, form)
    ensures ReadsTwo(read, buf, k, n, x, y) <==> k <= n <= |buf| && AreTwoParts(form, buf[..n], k, x, y)
  {
    if k <= n <= |buf| {
      TakeThenSplit(buf, n, k);
    }
  }

  lemma EntryReadsTwo(buf: seq<Byte>, depth: nat, e: Entry, n: nat)
    ensures DecodeEntry(buf, depth) == Ok((e, n)) <==>
              ReadsPair(FieldReader(depth + 1), buf, n, Str(e.key), e.value)
  {
    var read := FieldReader(depth + 1);
    if DecodeEntry(buf, depth) == Ok((e, n)) {
      var k := DecodeField(buf, depth + 1).value.1;
      assert ReadsTwo(read, buf, k, n, Str(e.key), e.value);
    }
    forall k: nat | ReadsTwo(read, buf, k, n, Str(e.key), e.value)
      ensures DecodeEntry(buf, depth) == Ok((e, n))
    {
      TwoFields(buf, depth, e, k, n - k);
    }
  }

  lemma TwoFields(buf: seq<Byte>, depth: nat, e: Entry, k: nat, m: nat)
    requires k <= |buf|
    requires DecodeField(buf, depth + 1) == Ok((Str(e.key), k)) && DecodeField(buf[k..], depth + 1) == Ok((e.value, m))
    ensures DecodeEntry(buf, depth) == Ok((e, k + m))
  {
  }

  lemma EntryExactly(buf: seq<Byte>, depth: nat, e: Entry, n: nat)
    ensures DecodeEntry(buf, depth) == Ok((e, n)) <==> n <= |buf| && IsEntryOf(buf[..n], e, depth)
  {
    var read, form := FieldReader(depth + 1), FieldOf(depth + 1);
    FieldsRead(depth + 1);
    EntryReadsTwo(buf, depth, e, n);
    forall k: nat
      ensures ReadsTwo(read, buf, k, n, Str(e.key), e.value) <==>
                k <= n <= |buf| && AreTwoParts(form, buf[..n], k, Str(e.key), e.value)
    {
      TwoPartsRead(read, form, buf, k, n, Str(e.key), e.value);
    }
  }

  function EntryReader(depth: nat): seq<Byte> -> Result<(Entry, nat)> {
    buf => DecodeEntry(buf, depth)
  }

  ghost function EntryOf(depth: nat): (seq<Byte>, Entry) -> bool {
    (part, e) => IsEntryOf(part, e, depth)
  }

  lemma EntriesRead(depth: nat)
    ensures Reads(EntryReader(depth), EntryOf(depth))
  {
    forall buf, e, n: nat
      ensures EntryReader(depth)(buf) == Ok((e, n)) <==> n <= |buf| && EntryOf(depth)(buf[..n], e)
    {
      EntryExactly(buf, depth, e, n);
    }
  }

  lemma {:induction false} WireEntriesAreRead(buf: seq<Byte>, depth: nat)
    ensures M.WireEntries(buf, depth) == ReadAll(EntryReader(depth), buf)
    decreases |buf|
  {
    if buf != [] && DecodeEntry(buf, depth).Ok? {
      WireEntriesAreRead(buf[DecodeEntry(buf, depth).value.1..], depth);
    }
  }

  /** An entry list is determined by its keys in order and by what it holds for each. */
  lemma EntriesDetermined(es: seq<Entry>, fs: seq<Entry>)
    requires Keys(es) == Keys(fs) && Distinct(Keys(es))
    requires forall key :: M.Lookup(es, key) == M.Lookup(fs, key)
    ensures es == fs
  {
    forall i | 0 <= i < |es| ensures es[i] == fs[i] {
      LookupAt(es, i);
      LookupAt(fs, i);
      assert Keys(es)[i] == Keys(fs)[i];
    }
  }

  lemma LookupAt(es: seq<Entry>, i: nat)
    requires i < |es| && Distinct(Keys(es))
    ensures Keys(es)[i] == es[i].key && M.Lookup(es, es[i].key) == Some(es[i].value)
  {
    var j := Find(es, es[i].key);
    assert Keys(es)[i] == es[i].key;
    assert j <= i;
    assert Keys(es)[j] == es[j].key;
  }

  /** The entries that a sequence of writes leaves, said without the writing loop: the mathematical
      map of the writes, the last one winning, in the order of first occurrence. */
  ghost predicate IsMapOf(es: seq<Entry>, writes: seq<Entry>) {
    M.Represents(es, M.AsMap(map[], writes)) && Keys(es) == M.FirstOccurrences([], Keys(writes))
  }

  lemma WritesLeave(writes: seq<Entry>)
    ensures IsMapOf(M.SetAll([], writes), writes) && Distinct(Keys(M.SetAll([], writes)))
  {
    assert Keys([]) == [];
    M.WritesRefineMap([], map[], writes);
  }

  lemma MapOfIsUnique(es: seq<Entry>, writes: seq<Entry>)
    ensures IsMapOf(es, writes) <==> es == M.SetAll([], writes)
  {
    WritesLeave(writes);
    var fs := M.SetAll([], writes);
    if IsMapOf(es, writes) {
      forall key ensures M.Lookup(es, key) == M.Lookup(fs, key) {
        var m := M.AsMap(map[], writes);
        assert M.Lookup(es, key) == if key in m then Some(m[key]) else None;
        assert M.Lookup(fs, key) == if key in m then Some(m[key]) else None;
      }
      EntriesDetermined(es, fs);
    }
  }

  /** A payload decodes as a map exactly when it is key and value fields end to end, and then as the
      mathematical map of those writes, in the order in which keys first occur. */
  lemma MapExactly(payload: seq<Byte>, depth: nat, v: Value)
    ensures DecodeValue(13, payload, depth) == Ok(v) <==>
              && depth <= 64 && v.Map?
              && exists parts, writes ::
                   Stream.Flatten(parts) == payload && AreParts(EntryOf(depth), parts, writes)
                     && IsMapOf(v.entries, writes)
  {
    M.DecodeEntriesIsWrites(payload, depth, []);
    WireEntriesAreRead(payload, depth);
    EntriesRead(depth);
    if DecodeValue(13, payload, depth) == Ok(v) {
      ReadAllExactly(EntryReader(depth), EntryOf(depth), payload, M.WireEntries(payload, depth).value);
      MapOfIsUnique(v.entries, M.WireEntries(payload, depth).value);
    }
    if depth <= 64 && v.Map? {
      forall parts, writes |
        && Stream.Flatten(parts) == payload && AreParts(EntryOf(depth), parts, writes)
        && IsMapOf(v.entries, writes)
        ensures DecodeValue(13, payload, depth) == Ok(v)
      {
        ReadAllExactly(EntryReader(depth), EntryOf(depth), payload, writes);
        MapOfIsUnique(v.entries, writes);
      }
    }
  }

  // ----- the root -----

  /** A type code, any form of n, n bytes of payload, and anything after them. */
  ghost predicate IsRootWith(buf: seq<Byte>, k: nat, n: nat, v: Value) {
    && 1 + k + n <= |buf| && LengthAt(buf, k, n)
    && DecodeValue(buf[0], buf[1 + k..1 + k + n], 0) == Ok(v)
  }

  lemma RootAt(buf: seq<Byte>, k: nat, n: nat)
    requires LengthAt(buf, k, n)
    ensures Consumed(buf) == 1 + k + n
    ensures 1 + k + n >= 0x1_0000_0000_0000_0000 ==> DecodeBytes(buf) == Panics
    ensures |buf| < 1 + k + n < 0x1_0000_0000_0000_0000 ==> DecodeBytes(buf) == Returns(Err(UnexpectedEof))
    ensures 1 + k + n < 0x1_0000_0000_0000_0000 && 1 + k + n <= |buf| ==>
              DecodeBytes(buf) == Returns(DecodeValue(buf[0], buf[1 + k..1 + k + n], 0))
  {
    LengthIsParsed(buf, k, n);
    RootDecoded(buf);
  }

  /** What a caller's byte slice decodes to; the root's own payload has no cap. */
  lemma RootExactly(buf: seq<Byte>, v: Value)
    requires |buf| <= MAX_INT
    ensures DecodeBytes(buf) == Returns(Ok(v)) <==> exists k: nat, n: nat :: IsRootWith(buf, k, n, v)
  {
    if DecodeBytes(buf) == Returns(Ok(v)) {
      AcceptedRoot(buf, v);
    }
    forall k: nat, n: nat | IsRootWith(buf, k, n, v) ensures DecodeBytes(buf) == Returns(Ok(v)) {
      RootAt(buf, k, n);
    }
  }

  lemma AcceptedRoot(buf: seq<Byte>, v: Value)
    requires DecodeBytes(buf) == Returns(Ok(v))
    ensures exists k: nat, n: nat :: IsRootWith(buf, k, n, v)
  {
    var p := Varint.Parse(buf[1..]);
    LengthIsParsed(buf, p.size, p.value);
    RootAt(buf, p.size, p.value);
    assert IsRootWith(buf, p.size, p.value, v);
  }

  /** The slice expression panics exactly on a type code and a form of a number that takes the
      uint64 sum to 2^64. */
  lemma PanicForms(buf: seq<Byte>)
    ensures DecodeBytes(buf) == Panics <==>
              exists k: nat, n: nat :: LengthAt(buf, k, n) && 1 + k + n >= 0x1_0000_0000_0000_0000
  {
    if DecodeBytes(buf) == Panics {
      var p := Varint.Parse(buf[1..]);
      LengthIsParsed(buf, p.size, p.value);
      RootAt(buf, p.size, p.value);
    }
    forall k: nat, n: nat | LengthAt(buf, k, n) && 1 + k + n >= 0x1_0000_0000_0000_0000
      ensures DecodeBytes(buf) == Panics
    {
      RootAt(buf, k, n);
    }
  }

  /** DecodeMap is DecodeBytes on maps and an error of its own on any other value. */
  lemma MapRootExactly(buf: seq<Byte>, es: seq<Entry>)
    ensures DecodeMap(buf) == Returns(Ok(es)) <==> DecodeBytes(buf) == Returns(Ok(Map(es)))
    ensures DecodeMap(buf) == Panics <==> DecodeBytes(buf) == Panics
    ensures forall v :: DecodeBytes(buf) == Returns(Ok(v)) && !v.Map? ==> DecodeMap(buf) == Returns(Err(NotMap))
    ensures forall e :: DecodeBytes(buf) == Returns(Err(e)) ==> DecodeMap(buf) == Returns(Err(e))
  {
  }
}
