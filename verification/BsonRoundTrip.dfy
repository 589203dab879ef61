/** What encode, decode, makeindex and replace do together. */
module BsonRoundTrip {
  import opened Arith
  import opened Bytes
  import opened Options
  import opened Bson
  import opened BsonRead
  import opened BsonWrite
  import opened BsonIndex

  /** What comes back is what went in exactly when no integer in it is at the ends of 64 bits. */
  lemma {:induction false} PickedBack(v: Value)
    requires Writable(v)
    ensures ToLua(Picked(v)) == ToLua(v) <==> Moderate(v)
    decreases v, 1, 0
  {
    match v
    case Int(n, _) => WidthRightIff(n);
    case Doc(fields) =>
      PickedEntries(v, 0);
      assert forall i | 0 <= i < |fields| :: ValueAt(v, i) == fields[i].value;
    case Arr(items) =>
      PickedEntries(v, 0);
      assert forall i | 0 <= i < |items| :: ValueAt(v, i) == items[i];
    case _ =>
  }

  lemma {:induction false} PickedEntries(v: Value, i: nat)
    requires Writable(v) && IsTable(v)
    ensures Entries(Picked(v), i) == Entries(v, i) <==> forall j | i <= j < Count(v) :: Moderate(ValueAt(v, j))
    decreases v, 0, Count(v) - i + 1
  {
    hide ToLua, Moderate;
    PickedParts(v, i);
    if i >= Count(v) {
    } else {
      PickedBack(ValueAt(v, i));
      PickedEntries(v, i + 1);
      var s, t := Entries(Picked(v), i + 1), Entries(v, i + 1);
      assert ([EntryAt(Picked(v), i)] + s)[1..] == s && ([EntryAt(v, i)] + t)[1..] == t;
      assert ([EntryAt(Picked(v), i)] + s)[0] == EntryAt(Picked(v), i) && ([EntryAt(v, i)] + t)[0] == EntryAt(v, i);
    }
  }

  /** Decoding what was encoded gives the same nested value, unless an integer in it is at the ends of 64 bits. */
  method EncodeThenDecode(v: Value) returns (r: Option<Lua>)
    requires v.Doc? && Writable(v) && |Framed(Elements(Picked(v), 0))| < LIMIT
    ensures r == Some(ToLua(Picked(v)))
    ensures r == Some(ToLua(v)) <==> Moderate(v)
  {
    PickedStorable(v);
    PickedBack(v);
    PickedParts(v, 0);
    assert Picked(v).Doc?;
    hide Elements, Framed, Storable, Writable, Picked, Moderate, ToLua;
    var b := Encode(v);
    r := Decode(b.ptr[b.base..b.base + b.size], Picked(v));
  }

  /** Type and offset of an entry fit in an int for documents below 2^26 bytes. */
  lemma {:induction false} IdFits(t: Byte, offset: int)
    requires t < 32 && 0 <= offset < 0x400_0000
    ensures 0 <= IdOf(t, offset) < 0x8000_0000
  {
  }

  lemma {:induction false} EntriesBehind(v: Value, i: nat, w: Value, j: nat)
    requires v.Doc? && i < |v.fields| && i < j
    ensures Entries(WithField(v, i, w), j) == Entries(v, j)
    decreases |v.fields| - j
  {
    if j >= |v.fields| {
    } else {
      EntriesBehind(v, i, w, j + 1);
    }
  }

  lemma {:induction false} EntriesReplaced(v: Value, i: nat, w: Value, j: nat)
    requires v.Doc? && j <= i < |v.fields|
    ensures |Entries(v, j)| == |v.fields| - j
    ensures Entries(WithField(v, i, w), j) == Entries(v, j)[i - j := Entry(Name(v.fields[i].key), ToLua(w))]
    decreases i - j
  {
    hide ToLua;
    EntriesLength(v, j);
    if j == i {
      EntriesBehind(v, i, w, i + 1);
    } else {
      EntriesReplaced(v, i, w, j + 1);
    }
  }

  lemma {:induction false} EntriesLength(v: Value, j: nat)
    requires v.Doc? && j <= |v.fields|
    ensures |Entries(v, j)| == |v.fields| - j
    decreases |v.fields| - j
  {
    if j >= |v.fields| {
    } else {
      EntriesLength(v, j + 1);
    }
  }

  lemma {:induction false} FieldStored(v: Value, i: nat, w: Value)
    requires v.Doc? && i < |v.fields| && Storable(v) && Storable(w)
    ensures Storable(WithField(v, i, w))
  {
    var u := WithField(v, i, w);
    forall j | 0 <= j < |u.fields|
      ensures 0 !in u.fields[j].key && Storable(u.fields[j].value)
    {
      assert 0 !in v.fields[j].key && Storable(v.fields[j].value);
    }
  }

  lemma {:induction false} SameLength(v: Value, i: nat, w: Value)
    requires v.Doc? && i < |v.fields| && Tag(w) == Tag(v.fields[i].value)
    requires |Payload(w)| == |Payload(v.fields[i].value)|
    ensures |Framed(Elements(WithField(v, i, w), 0))| == |Framed(Elements(v, 0))|
  {
    hide Elements, Payload, Tag;
    OnlyThatValue(v, i, w, 0);
  }

  /** Some field has the key and a type that takes the value. */
  ghost predicate HasReplaceable(v: Value, key: seq<Byte>, value: Lua)
    requires v.Doc?
  {
    exists j | 0 <= j < |v.fields| :: v.fields[j].key == key && Replacement(v.fields[j].value, value).Some?
  }

  /** The only field that can be replaced is the one that the index names. */
  lemma {:induction false} OnlyCandidate(index: map<seq<Byte>, int>, v: Value, key: seq<Byte>, value: Lua, i: nat)
    requires DistinctKeys(v) && Indexes(index, v, |v.fields|)
    requires key in index ==> i < |v.fields| && v.fields[i].key == key
    ensures HasReplaceable(v, key, value) <==> key in index && Replacement(v.fields[i].value, value).Some?
  {
    hide SizeOfType, Tag, Indexes, Replacement;
    forall j | 0 <= j < |v.fields| && v.fields[j].key == key && Replacement(v.fields[j].value, value).Some?
      ensures key in index && j == i
    {
      FixedType(v.fields[j].value, value);
      NotIndexed(index, v, key, j);
    }
  }

  lemma {:induction false} FixedType(old_: Value, new_: Lua)
    requires Replacement(old_, new_).Some?
    ensures SizeOfType(Tag(old_)) > 0
  {
  }

  /** Index, replace one field, decode: the old table with that one entry changed, and the same length. */
  method ReplaceThenDecode(data: array<Byte>, key: seq<Byte>, value: Lua, ghost v: Value)
    returns (ok: bool, r: Option<Lua>, ghost i: nat)
    requires DistinctKeys(v) && Storable(v) && data[..] == Framed(Elements(v, 0)) && data.Length < 0x400_0000
    modifies data
    ensures ok ==> i < |v.fields| && v.fields[i].key == key && Replacement(v.fields[i].value, value).Some?
                   && i < |Entries(v, 0)|
                   && var stored := Replacement(v.fields[i].value, value).value;
                      r == Some(Table(Entries(v, 0)[i := Entry(Name(key), ToLua(stored))]))
    ensures !ok ==> r == Some(ToLua(v)) && data[..] == old(data[..])
    ensures ok <==> HasReplaceable(v, key, value)
  {
    hide Elements, Framed, Storable, DistinctKeys, Indexes, Replacement, Tag, Payload, HasReplaceable;
    var index := MakeIndex(data[..], v);
    IsDocument(v);
    ok, i := Replace(data, index.value, key, value, v);
    OnlyCandidate(index.value, v, key, value, i);
    ghost var u := v;
    if ok {
      ghost var w := Replacement(v.fields[i].value, value).value;
      u := WithField(v, i, w);
      StoredField(v, i);
      ReplacementKeeps(v.fields[i].value, value);
      FieldStored(v, i, w);
      SameLength(v, i, w);
      EntriesLength(v, 0);
      EntriesReplaced(v, i, w, 0);
    }
    r := Decode(data[..], u);
  }

  lemma {:induction false} IsDocument(v: Value)
    requires DistinctKeys(v)
    ensures v.Doc?
  {
  }

  lemma {:induction false} StoredField(v: Value, i: nat)
    requires v.Doc? && Storable(v) && i < |v.fields|
    ensures Storable(v.fields[i].value)
  {
  }
}
