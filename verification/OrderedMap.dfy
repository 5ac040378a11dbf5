/** The ordered string-keyed map: entries in a growable array, updated in place. */
module OrderedMap {
  import opened Wrappers
  import opened Bytes
  import opened Values
  import opened Decoder
  import opened Canonical

  type Key = seq<Byte>

  // ----- what Set and Get mean -----

  /** The value an entry list holds for a key. */
  function Lookup(es: seq<Entry>, key: Key): Option<Value> {
    var i := Find(es, key);
    if i < |es| then Some(es[i].value) else None
  }

  /** The entries after a sequence of Set calls, oldest first. */
  function SetAll(es: seq<Entry>, writes: seq<Entry>): seq<Entry>
    decreases |writes|
  {
    if writes == [] then es
    else SetAll(SetEntry(es, writes[0].key, writes[0].value), writes[1..])
  }

  /** The mathematical map the writes stand for: the last write to a key wins. */
  function AsMap(m: map<Key, Value>, writes: seq<Entry>): map<Key, Value>
    decreases |writes|
  {
    if writes == [] then m else AsMap(m[writes[0].key := writes[0].value], writes[1..])
  }

  /** Keys in the order of their first occurrence, after the keys already there. */
  function FirstOccurrences(ks: seq<Key>, more: seq<Key>): seq<Key>
    decreases |more|
  {
    if more == [] then ks
    else if more[0] in ks then FirstOccurrences(ks, more[1..])
    else FirstOccurrences(ks + [more[0]], more[1..])
  }

  /** An entry list represents a map. */
  ghost predicate Represents(es: seq<Entry>, m: map<Key, Value>) {
    forall key :: Lookup(es, key) == if key in m then Some(m[key]) else None
  }

  lemma FindIn(es: seq<Entry>, key: Key)
    ensures Find(es, key) < |es| <==> key in Keys(es)
  {
    assert forall j :: 0 <= j < |es| ==> Keys(es)[j] == es[j].key;
  }

  lemma SetKeys(es: seq<Entry>, key: Key, v: Value)
    ensures Keys(SetEntry(es, key, v)) == if key in Keys(es) then Keys(es) else Keys(es) + [key]
  {
    FindIn(es, key);
  }

  lemma {:induction false} FindAfterSet(es: seq<Entry>, key: Key, v: Value, other: Key)
    ensures Find(SetEntry(es, key, v), other) ==
              if other == key || Find(es, other) < |es| then Find(es, other) else |SetEntry(es, key, v)|
  {
    if es != [] {
      var r := SetEntry(es, key, v);
      if es[0].key == key {
        assert r[1..] == es[1..];
      } else {
        FindAfterSet(es[1..], key, v, other);
        assert r[1..] == SetEntry(es[1..], key, v);
      }
    }
  }

  lemma LookupAfterSet(es: seq<Entry>, key: Key, v: Value, other: Key)
    ensures Lookup(SetEntry(es, key, v), other) == if other == key then Some(v) else Lookup(es, other)
  {
    FindAfterSet(es, key, v, other);
  }

  lemma RepresentsStep(es: seq<Entry>, m: map<Key, Value>, k: Key, v: Value)
    requires Represents(es, m)
    ensures Represents(SetEntry(es, k, v), m[k := v])
  {
    forall key ensures Lookup(SetEntry(es, k, v), key) == if key in m[k := v] then Some(m[k := v][key]) else None {
      LookupAfterSet(es, k, v, key);
      assert key != k ==> Lookup(es, key) == if key in m then Some(m[key]) else None;
    }
  }

  lemma {:induction false} WritesRepresent(es: seq<Entry>, m: map<Key, Value>, writes: seq<Entry>)
    requires Represents(es, m)
    ensures Represents(SetAll(es, writes), AsMap(m, writes))
    decreases |writes|
  {
    if writes != [] {
      RepresentsStep(es, m, writes[0].key, writes[0].value);
      WritesRepresent(SetEntry(es, writes[0].key, writes[0].value), m[writes[0].key := writes[0].value], writes[1..]);
    }
  }

  lemma {:induction false} WritesKeys(es: seq<Entry>, writes: seq<Entry>)
    requires Distinct(Keys(es))
    ensures Distinct(Keys(SetAll(es, writes)))
    ensures Keys(SetAll(es, writes)) == FirstOccurrences(Keys(es), Keys(writes))
    decreases |writes|
  {
    if writes != [] {
      var k, v := writes[0].key, writes[0].value;
      SetKeepsDistinct(es, k, v);
      SetKeys(es, k, v);
      KeysStep(writes);
      WritesKeys(SetEntry(es, k, v), writes[1..]);
    }
  }

  lemma KeysStep(es: seq<Entry>)
    requires es != []
    ensures Keys(es)[0] == es[0].key && Keys(es)[1..] == Keys(es[1..])
  {
  }

  /** After any writes, Get agrees with the mathematical map, keys are distinct, and iteration
      follows first insertion. */
  lemma WritesRefineMap(es: seq<Entry>, m: map<Key, Value>, writes: seq<Entry>)
    requires Distinct(Keys(es)) && Represents(es, m)
    ensures Represents(SetAll(es, writes), AsMap(m, writes))
    ensures Distinct(Keys(SetAll(es, writes)))
    ensures Keys(SetAll(es, writes)) == FirstOccurrences(Keys(es), Keys(writes))
  {
    WritesRepresent(es, m, writes);
    WritesKeys(es, writes);
  }

  // ----- the decoder's loop is such a sequence of writes -----

  function PutFirst<T>(x: T, r: Result<seq<T>>): Result<seq<T>> {
    match r
    case Err(e) => Err(e)
    case Ok(xs) => Ok([x] + xs)
  }

  /** The key and value pairs of a map payload as they stand on the wire. */
  function WireEntries(buf: seq<Byte>, depth: nat): Result<seq<Entry>>
    decreases |buf|
  {
    if buf == [] then Ok([])
    else
      match DecodeEntry(buf, depth)
      case Err(error) => Err(error)
      case Ok((e, n)) => PutFirst(e, WireEntries(buf[n..], depth))
  }

  lemma {:induction false} DecodeEntriesIsWrites(buf: seq<Byte>, depth: nat, es: seq<Entry>)
    ensures DecodeEntries(buf, depth, es) ==
              match WireEntries(buf, depth)
              case Ok(writes) => Ok(SetAll(es, writes))
              case Err(error) => Err(error)
    decreases |buf|
  {
    if buf != [] {
      if DecodeEntry(buf, depth).Ok? {
        var (e, n) := DecodeEntry(buf, depth).value;
        DecodeEntriesIsWrites(buf[n..], depth, SetEntry(es, e.key, e.value));
        if WireEntries(buf[n..], depth).Ok? {
          SetAllFirst(es, e, WireEntries(buf[n..], depth).value);
        }
      }
    }
  }

  lemma SetAllFirst(es: seq<Entry>, e: Entry, later: seq<Entry>)
    ensures SetAll(es, [e] + later) == SetAll(SetEntry(es, e.key, e.value), later)
  {
    assert ([e] + later)[1..] == later;
  }

  /** A decoded map is the mathematical map of its wire entries, in first-occurrence order. */
  lemma DecodedMapMeaning(payload: seq<Byte>, depth: nat)
    requires DecodeValue(MAP, payload, depth).Ok?
    ensures WireEntries(payload, depth).Ok?
    ensures var es := DecodeValue(MAP, payload, depth).value.entries;
            var writes := WireEntries(payload, depth).value;
            Represents(es, AsMap(map[], writes)) && Keys(es) == FirstOccurrences([], Keys(writes))
  {
    DecodeEntriesIsWrites(payload, depth, []);
    assert Keys([]) == [];
    WritesRefineMap([], map[], WireEntries(payload, depth).value);
  }

  // ----- the object -----

  class OrderedMap {
    var data: array<Entry>
    var len: nat

    ghost predicate Valid()
      reads this, data
    {
      len <= data.Length && Distinct(Keys(data[..len]))
    }

    ghost function Contents(): (es: seq<Entry>)
      reads this, data
      requires Valid()
      ensures Distinct(Keys(es))
    {
      data[..len]
    }

    constructor ()
      ensures Valid() && fresh(data) && Contents() == []
    {
      data := new Entry[0];
      len := 0;
      new;
      assert data[..0] == [];
    }

    /** A map with a fresh array holding the given entries. */
    constructor Of(es: seq<Entry>)
      ensures fresh(data) && len == |es| <= data.Length && data[..len] == es
      ensures Distinct(Keys(es)) ==> Valid() && Contents() == es
    {
      data := new Entry[|es|](j requires 0 <= j < |es| => es[j]);
      len := |es|;
      new;
      assert data[..len] == es;
    }

    /** The position of the key, or the number of entries. */
    method Position(key: Key) returns (i: nat)
      requires Valid()
      ensures i == Find(Contents(), key)
    {
      i := 0;
      while i < len
        invariant i <= len
        invariant Find(data[..len], key) == i + Find(data[..len][i..], key)
      {
        var tail := data[..len][i..];
        assert tail[0] == data[i] && tail[1..] == data[..len][i + 1..];
        if data[i].key == key {
          return;
        }
        i := i + 1;
      }
    }

    /** Overwrites the key's value in place, or appends an entry, moving to a larger array when
        the present one is full. */
    method Set(key: Key, v: Value)
      requires Valid()
      modifies this, data
      ensures Valid() && (data == old(data) || fresh(data))
      ensures Contents() == SetEntry(old(Contents()), key, v)
    {
      SetKeepsDistinct(data[..len], key, v);
      ghost var before := data[..len];
      var i := Position(key);
      if i < len {
        data[i] := Entry(data[i].key, v);
        assert data[..len] == before[i := Entry(key, v)];
      } else {
        if len == data.Length {
          Grow();
        }
        data[len] := Entry(key, v);
        len := len + 1;
        assert data[..len] == before + [Entry(key, v)];
      }
    }

    method Grow()
      requires Valid()
      modifies this`data
      ensures Valid() && fresh(data) && len < data.Length && Contents() == old(Contents())
    {
      var previous := data;
      var bigger := new Entry[2 * len + 1](_ => Entry([], Null));
      forall j | 0 <= j < len {
        bigger[j] := previous[j];
      }
      data := bigger;
      assert data[..len] == old(data[..len]);
    }

    method Get(key: Key) returns (r: Option<Value>)
      requires Valid()
      ensures r == Lookup(Contents(), key)
    {
      var i := Position(key);
      r := if i < len then Some(data[i].value) else None;
    }

    /** A map of its own with the same entries: no array is shared, so a later Set on either one
        leaves the other as it is. */
    method Clone() returns (c: OrderedMap)
      requires Valid()
      ensures fresh(c) && fresh(c.data) && c.Valid() && c.Contents() == Contents()
    {
      c := new OrderedMap.Of(data[..len]);
    }

    /** A copy of the map stored under the key. */
    method GetMap(key: Key) returns (c: OrderedMap?)
      requires Valid()
      ensures c == null <==> !(Lookup(Contents(), key).Some? && Lookup(Contents(), key).value.Map?)
      ensures c != null ==> fresh(c) && fresh(c.data) && c.len <= c.data.Length
      ensures c != null ==> c.data[..c.len] == Lookup(Contents(), key).value.entries
      ensures c != null && DistinctKeyed(Lookup(Contents(), key).value) ==> c.Valid()
    {
      var r := Get(key);
      if r.None? || !r.value.Map? {
        return null;
      }
      c := new OrderedMap.Of(r.value.entries);
    }
  }

  /** Writes to a clone and writes to the original do not reach each other. */
  method CloneIsolation(m: OrderedMap, key1: Key, v1: Value, key2: Key, v2: Value) returns (c: OrderedMap)
    requires m.Valid()
    modifies m, m.data
    ensures m.Valid() && c.Valid()
    ensures m.Contents() == SetEntry(old(m.Contents()), key1, v1)
    ensures c.Contents() == SetEntry(old(m.Contents()), key2, v2)
  {
    c := m.Clone();
    m.Set(key1, v1);
    c.Set(key2, v2);
  }
}
