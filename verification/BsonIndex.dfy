/** The index of a document's fixed-size fields, and replacing one in place. */
module BsonIndex {
  import opened Arith
  import opened Bytes
  import opened Options
  import opened Bson
  import opened BsonRead
  import opened BsonWrite

  /** The types whose values have the same size in every document. */
  function SizeOfType(t: Byte): nat {
    if t == INT64 || t == TIMESTAMP || t == DATE || t == REAL then 8
    else if t == BOOLEAN then 1
    else if t == OBJECTID then 12
    else if t == INT32 then 4
    else 0
  }

  lemma {:induction false} FixedPayload(v: Value)
    requires Storable(v) && SizeOfType(Tag(v)) > 0
    ensures |Payload(v)| == SizeOfType(Tag(v)) && Tag(v) < 32
  {
  }

  /** Where the value of the i-th element begins in the document. */
  ghost function Offset(v: Value, i: nat): int
    requires i < Count(v)
  {
    4 + (|Elements(v, 0)| - |Elements(v, i)|) + |KeyAt(v, i)| + 2
  }

  /** bt | offset << 5 */
  function IdOf(t: Byte, offset: int): int {
    t + offset * 32
  }

  ghost predicate DistinctKeys(v: Value) {
    v.Doc? && forall i, j | 0 <= i < j < |v.fields| :: v.fields[i].key != v.fields[j].key
  }

  /** The fields of fixed size among the first n are indexed, and nothing else. */
  ghost predicate Indexes(m: map<seq<Byte>, int>, v: Value, n: nat)
    requires v.Doc? && n <= |v.fields|
  {
    && (forall i | 0 <= i < n :: SizeOfType(Tag(v.fields[i].value)) > 0 ==>
          v.fields[i].key in m && m[v.fields[i].key] == IdOf(Tag(v.fields[i].value), Offset(v, i)))
    && (forall k | k in m :: exists i | 0 <= i < n :: v.fields[i].key == k && SizeOfType(Tag(v.fields[i].value)) > 0)
  }

  /** Skips the value of an element whose size is not fixed. */
  method SkipValue(br: Reader, bt: Byte, ghost w: Option<Value>) returns (ok: bool)
    requires br.Valid()
    modifies br
    ensures br.Valid() && br.ptr + br.size == old(br.ptr + br.size) && br.size <= old(br.size)
    ensures old(Expects(br, w)) && Tag(w.value) == bt && SizeOfType(bt) == 0 ==>
              ok && br.ptr == old(br.ptr) + |Payload(w.value)|
  {
    hide Elements, LowFirst, Natural, Storable;
    ok := false;
    if Expects(br, w) && Tag(w.value) == bt {
      Readable(br, w.value);
      if IsTable(w.value) {
        FramedParts(br, w.value);
      }
    }
    if bt == STRING || bt == ARRAY || bt == DOCUMENT {
      var sz := br.ReadInt(4);
      if sz.Some? {
        var b := br.ReadBytes(if bt == STRING then sz.value else sz.value - 4);
        ok := b.Some?;
      }
    } else if IsMark(bt) {
      ok := true;
    }
  }

  /** makeindex: the position and type of every field of fixed size, by key. */
  method MakeIndex(data: seq<Byte>, ghost v: Value) returns (r: Option<map<seq<Byte>, int>>)
    ensures DistinctKeys(v) && Storable(v) && |data| < 0x400_0000 && data == Framed(Elements(v, 0)) ==>
              r.Some? && Indexes(r.value, v, |v.fields|)
  {
    hide Elements, Remaining, Storable, Payload, Tag, KeyAt, ValueAt, LowFirst, Indexes, DistinctKeys;
    ghost var expected := DistinctKeys(v) && Storable(v) && |data| < 0x400_0000 && data == Framed(Elements(v, 0));
    var n := if |data| >= 4 then Signed(Natural(data[..4]), 4) else -1;
    if n < 5 || n > |data| {
      if expected {
        WholeLength(data, Elements(v, 0));
      }
      return None;
    }
    var br := new Reader(data, 4, n - 5);
    var m: map<seq<Byte>, int> := map[];
    ghost var i := 0;
    if expected {
      FirstElement(data, v);
    }
    while br.size != 0
      invariant br.Valid() && br.ptr + br.size == n - 1 && fresh(br) && br.data == data
      invariant expected ==>
        v.Doc? && 0 <= i <= |v.fields| && n - 1 == 4 + |Elements(v, 0)|
        && Remaining(data, br.ptr, n - 1, v, i) && Indexes(m, v, i)
      decreases br.size
    {
      if expected {
        NotAtEnd(data, br.ptr, n - 1, v, i);
      }
      var e := IndexElement(br, m, v, i);
      if e.None? {
        return None;
      }
      m := e.value;
      i := i + 1;
    }
    if expected {
      AtEnd(data, br.ptr, v, i);
    }
    return Some(m);
  }

  lemma {:induction false} FirstElement(data: seq<Byte>, v: Value)
    requires DistinctKeys(v) && Storable(v) && |data| < 0x400_0000 && data == Framed(Elements(v, 0))
    ensures Signed(Natural(data[..4]), 4) == |data|
    ensures v.Doc? && Remaining(data, 4, |data| - 1, v, 0) && Indexes(map[], v, 0)
    ensures |data| - 1 == 4 + |Elements(v, 0)|
  {
    hide Elements, LowFirst;
    WholeLength(data, Elements(v, 0));
    var body := Elements(v, 0);
    assert data[4..|data| - 1] == body;
  }

  lemma {:induction false} NotAtEnd(data: seq<Byte>, ptr: nat, end: nat, v: Value, i: nat)
    requires Remaining(data, ptr, end, v, i) && ptr < end
    ensures i < Count(v)
  {
  }

  lemma {:induction false} AtEnd(data: seq<Byte>, ptr: nat, v: Value, i: nat)
    requires Remaining(data, ptr, ptr, v, i)
    ensures i == Count(v)
  {
    assert data[ptr..ptr] == [];
    NothingLeft(v, i);
  }

  /** One turn: an element, entered in the index when its size is fixed. */
  method IndexElement(br: Reader, m: map<seq<Byte>, int>, ghost v: Value, ghost i: nat)
    returns (r: Option<map<seq<Byte>, int>>)
    requires br.Valid() && br.size > 0
    modifies br
    ensures br.Valid() && br.ptr + br.size == old(br.ptr + br.size) && br.size < old(br.size)
    ensures v.Doc? && DistinctKeys(v) && i < |v.fields| && Indexes(m, v, i)
            && old(Remaining(br.data, br.ptr, br.ptr + br.size, v, i))
            && old(br.ptr + br.size) == 4 + |Elements(v, 0)|
            ==> r.Some? && Indexes(r.value, v, i + 1) && Remaining(br.data, br.ptr, br.ptr + br.size, v, i + 1)
  {
    hide Elements, Remaining, Storable, Payload, Tag, KeyAt, ValueAt, Indexes, DistinctKeys, SizeOfType, Offset, IdOf;
    ghost var start, end := br.ptr, br.ptr + br.size;
    ghost var expected := v.Doc? && DistinctKeys(v) && i < |v.fields| && Indexes(m, v, i)
                          && Remaining(br.data, start, end, v, i) && end == 4 + |Elements(v, 0)|;
    if expected {
      ElementParts(br.data, start, end, v, i);
      StartIs(br.data, start, end, v, i);
      FixedPayloadIf(ValueAt(v, i));
    }
    var bt := br.ReadByte();
    var key := br.ReadCString();
    if key.None? {
      return None;
    }
    if expected {
      SameKey(br.data, start + 1, KeyAt(v, i), key.value);
    }
    var fieldSize := SizeOfType(bt.value);
    if fieldSize > 0 {
      var id := IdOf(bt.value, br.ptr);
      var b := br.ReadBytes(fieldSize);
      if b.None? {
        return None;
      }
      if expected {
        IndexesFixed(m, v, i, id);
      }
      return Some(m[key.value := id]);
    }
    ghost var w := if expected then Some(ValueAt(v, i)) else None;
    var ok := SkipValue(br, bt.value, w);
    if !ok {
      return None;
    }
    if expected {
      IndexesOther(m, v, i);
    }
    return Some(m);
  }

  lemma {:induction false} FixedPayloadIf(w: Value)
    ensures Storable(w) && SizeOfType(Tag(w)) > 0 ==> |Payload(w)| == SizeOfType(Tag(w)) && Tag(w) < 32
  {
    if Storable(w) && SizeOfType(Tag(w)) > 0 {
      FixedPayload(w);
    }
  }

  lemma {:induction false} StartIs(data: seq<Byte>, start: nat, end: nat, v: Value, i: nat)
    requires v.Doc? && i < |v.fields| && Remaining(data, start, end, v, i) && end == 4 + |Elements(v, 0)|
    ensures Offset(v, i) == start + |KeyAt(v, i)| + 2
  {
    hide Elements;
    assert |data[start..end]| == end - start;
  }

  lemma {:induction false} IndexesFixed(m: map<seq<Byte>, int>, v: Value, i: nat, id: int)
    requires DistinctKeys(v) && i < |v.fields| && Indexes(m, v, i)
    requires SizeOfType(Tag(ValueAt(v, i))) > 0 && id == IdOf(Tag(ValueAt(v, i)), Offset(v, i))
    ensures Indexes(m[KeyAt(v, i) := id], v, i + 1)
  {
    hide Elements, Tag, SizeOfType, Offset;
    var m' := m[KeyAt(v, i) := id];
    forall k | k in m'
      ensures exists j | 0 <= j < i + 1 :: v.fields[j].key == k && SizeOfType(Tag(v.fields[j].value)) > 0
    {
      if k == KeyAt(v, i) {
        assert v.fields[i].key == k;
      } else {
        assert k in m;
      }
    }
  }

  lemma {:induction false} IndexesOther(m: map<seq<Byte>, int>, v: Value, i: nat)
    requires DistinctKeys(v) && i < |v.fields| && Indexes(m, v, i) && SizeOfType(Tag(ValueAt(v, i))) == 0
    ensures Indexes(m, v, i + 1)
  {
    hide Elements, Tag, SizeOfType, Offset;
  }

  // ---- Replacing ----

  /** The value that takes the place of old when new is given for it, or none for another type. */
  function Replacement(old_: Value, new_: Lua): Option<Value> {
    match old_
    case Int(_, wide) =>
      if !new_.Number? || !(-0x8000_0000_0000_0000 <= new_.n < 0x8000_0000_0000_0000) then None
      else Some(Int(if wide then new_.n else Truncated(new_.n), wide))
    case Real(_) => if new_.Float? && new_.bits < WIDE then Some(Real(new_.bits)) else None
    case Bool(_) => Some(Bool(new_ != Boolean(false)))
    case ObjectId(_) => if Marked(new_, OBJECTID, 12) then Some(ObjectId(new_.s[2..])) else None
    case Date(_) => if Marked(new_, DATE, 4) then DateOf(new_.s[2..]) else None
    case Timestamp(_, _) =>
      if Marked(new_, TIMESTAMP, 8) then StampOf(new_.s[2..6], new_.s[6..10]) else None
    case _ => None
  }

  /** A string of the given type mark and length of value. */
  predicate Marked(x: Lua, t: Byte, n: nat) {
    x.String? && |x.s| == n + 2 && x.s[0] == 0 && x.s[1] == t
  }

  function DateOf(s: seq<Byte>): Option<Value> {
    Some(Date(Natural(s)))
  }

  function StampOf(inc: seq<Byte>, ts: seq<Byte>): Option<Value> {
    Some(Timestamp(Natural(inc), Natural(ts)))
  }

  lemma {:induction false} ReplacementKeeps(old_: Value, new_: Lua)
    requires Storable(old_) && Replacement(old_, new_).Some?
    ensures var w := Replacement(old_, new_).value;
            && Storable(w) && Tag(w) == Tag(old_) && SizeOfType(Tag(w)) > 0
            && |Payload(w)| == |Payload(old_)| == SizeOfType(Tag(w))
  {
    hide Natural, LowFirst, SizeOfType, Payload;
    var w := Replacement(old_, new_).value;
    assert Power256(2) == 0x1_0000 && Power256(4) == WORD;
    if w.Date? {
      NaturalBound(new_.s[2..]);
    }
    if w.Timestamp? {
      NaturalBound(new_.s[2..6]);
      NaturalBound(new_.s[6..10]);
    }
    TypeSizes(w);
    FixedPayload(w);
    FixedPayload(old_);
  }

  lemma {:induction false} TypeSizes(w: Value)
    ensures w.Int? || w.Real? || w.Bool? || w.ObjectId? || w.Date? || w.Timestamp? ==> SizeOfType(Tag(w)) > 0
  {
  }

  /** The document with the i-th field holding w. */
  function WithField(v: Value, i: nat, w: Value): Value
    requires v.Doc? && i < |v.fields|
  {
    Doc(v.fields[i := Field(v.fields[i].key, w)])
  }

  lemma {:induction false} SameBehind(v: Value, i: nat, w: Value, j: nat)
    requires v.Doc? && i < |v.fields| && i < j
    ensures Elements(WithField(v, i, w), j) == Elements(v, j)
    decreases |v.fields| - j
  {
    if j >= |v.fields| {
    } else {
      SameBehind(v, i, w, j + 1);
    }
  }

  /** Replacing a value by one of the same type and size changes only the bytes of that value. */
  lemma {:induction false} OnlyThatValue(v: Value, i: nat, w: Value, j: nat)
    requires v.Doc? && i < |v.fields| && j <= i
    requires var o := v.fields[i].value; Tag(w) == Tag(o) && |Payload(w)| == |Payload(o)|
    ensures var s, d := Elements(v, j), |Elements(v, j)| - |Elements(v, i)| + |KeyAt(v, i)| + 2;
            && 0 <= d && d + |Payload(w)| <= |s|
            && Elements(WithField(v, i, w), j) == s[..d] + Payload(w) + s[d + |Payload(w)|..]
    decreases i - j
  {
    hide Payload, Tag, Elements, Framed;
    var v' := WithField(v, i, w);
    ElementsNext(v, j);
    ElementsNext(v', j);
    var key, value := v.fields[j].key, v.fields[j].value;
    if j == i {
      SameBehind(v, i, w, i + 1);
      Swapped(Head(Tag(value), key), Payload(value), Payload(w), Elements(v, i + 1));
    } else {
      OnlyThatValue(v, i, w, j + 1);
      var e, t := Element(key, value), Elements(v, j + 1);
      Shifted(e, t, |t| - |Elements(v, i)| + |KeyAt(v, i)| + 2, Payload(w));
    }
  }

  lemma {:induction false} Swapped(h: seq<Byte>, p: seq<Byte>, q: seq<Byte>, rest: seq<Byte>)
    requires |p| == |q|
    ensures var s := (h + p) + rest; (h + q) + rest == s[..|h|] + q + s[|h| + |q|..]
  {
    var s := (h + p) + rest;
    assert s[..|h|] == h && s[|h| + |p|..] == rest;
  }

  lemma {:induction false} Shifted(e: seq<Byte>, t: seq<Byte>, d: nat, p: seq<Byte>)
    requires d + |p| <= |t|
    ensures var s := e + t; e + (t[..d] + p + t[d + |p|..]) == s[..|e| + d] + p + s[|e| + d + |p|..]
  {
    var s := e + t;
    assert s[..|e| + d] == e + t[..d] && s[|e| + d + |p|..] == t[d + |p|..];
  }

  lemma {:induction false} IdParts(t: Byte, offset: int)
    requires t < 32
    ensures IdOf(t, offset) % 32 == t && IdOf(t, offset) / 32 == offset
  {
  }

  /** The field that the index names for the key, and where its value lies. */
  lemma {:induction false} Found(index: map<seq<Byte>, int>, v: Value, key: seq<Byte>) returns (i: nat)
    requires DistinctKeys(v) && Storable(v) && Indexes(index, v, |v.fields|) && key in index
    ensures v.Doc? && i < |v.fields| && v.fields[i].key == key && Storable(v.fields[i].value)
    ensures var t := Tag(v.fields[i].value);
            && 0 < SizeOfType(t) <= 12 && index[key] % 32 == t && index[key] / 32 == Offset(v, i)
            && 0 <= Offset(v, i) && Offset(v, i) + SizeOfType(t) < |Framed(Elements(v, 0))|
  {
    hide Elements, Tag, SizeOfType, Payload;
    i :| 0 <= i < |v.fields| && v.fields[i].key == key && SizeOfType(Tag(v.fields[i].value)) > 0;
    var w := v.fields[i].value;
    FixedPayload(w);
    SmallTypes(Tag(w));
    IdParts(Tag(w), Offset(v, i));
    InsideBody(v, i, 0);
  }

  lemma {:induction false} SmallTypes(t: Byte)
    ensures SizeOfType(t) <= 12
  {
  }

  lemma {:induction false} InsideBody(v: Value, i: nat, j: nat)
    requires v.Doc? && j <= i < |v.fields|
    ensures |Elements(v, j)| - |Elements(v, i)| >= 0
    ensures |Elements(v, i)| >= |KeyAt(v, i)| + 2 + |Payload(v.fields[i].value)|
    decreases i - j
  {
    hide Payload;
    if j >= i {
    } else {
      InsideBody(v, i, j + 1);
    }
  }

  lemma {:induction false} NotIndexed(index: map<seq<Byte>, int>, v: Value, key: seq<Byte>, i: nat)
    requires DistinctKeys(v) && Indexes(index, v, |v.fields|) && i < |v.fields| && v.fields[i].key == key
    ensures key in index <==> SizeOfType(Tag(v.fields[i].value)) > 0
  {
    hide SizeOfType, Tag, Offset;
  }

  /** What replacing must do: the field changes when the key is indexed and the type fits, and nothing else ever. */
  ghost predicate Replaced(ok: bool, before: seq<Byte>, after: seq<Byte>, index: map<seq<Byte>, int>, key: seq<Byte>,
                           value: Lua, v: Value, i: nat)
    requires v.Doc? && (key in index ==> i < |v.fields|)
  {
    if key in index && Replacement(v.fields[i].value, value).Some? then
      ok && after == Framed(Elements(WithField(v, i, Replacement(v.fields[i].value, value).value), 0))
    else !ok && after == before
  }

  /** bson_replace: overwrites the value of an indexed field with one of the same type. */
  method Replace(data: array<Byte>, index: map<seq<Byte>, int>, key: seq<Byte>, value: Lua, ghost v: Value)
    returns (ok: bool, ghost i: nat)
    requires DistinctKeys(v) && Storable(v) && data[..] == Framed(Elements(v, 0))
    requires Indexes(index, v, |v.fields|)
    modifies data
    ensures key in index ==> i < |v.fields| && v.fields[i].key == key
    ensures Replaced(ok, old(data[..]), data[..], index, key, value, v, i)
  {
    hide Elements, Tag, SizeOfType, Payload, Storable, DistinctKeys, Indexes, Offset, LowFirst, Natural;
    i := 0;
    if key !in index {
      return false, 0;
    }
    i := Found(index, v, key);
    var id := index[key];
    var t, offset := id % 32, id / 32;
    var w := NewValue(t, value, v.fields[i].value);
    if w.None? {
      return false, i;
    }
    ReplacementKeeps(v.fields[i].value, value);
    ghost var before := data[..];
    var b := new Buffer.Over(data, offset);
    WriteScalar(b, w.value);
    InPlace(v, i, w.value, offset, before, data[..]);
    ok := true;
  }

  /** The document after the bytes of one value have been overwritten. */
  lemma {:induction false} InPlace(v: Value, i: nat, w: Value, offset: int, s: seq<Byte>, t: seq<Byte>)
    requires v.Doc? && i < |v.fields| && s == Framed(Elements(v, 0)) && offset == Offset(v, i) && 0 <= offset
    requires Tag(w) == Tag(v.fields[i].value) && |Payload(w)| == |Payload(v.fields[i].value)|
    requires offset + |Payload(w)| <= |s| && OnlyChanged(s, t, offset, offset + |Payload(w)|)
    requires t[offset..offset + |Payload(w)|] == Payload(w)
    ensures t == Framed(Elements(WithField(v, i, w), 0))
  {
    hide Elements, Payload, Tag, LowFirst;
    OnlyThatValue(v, i, w, 0);
    var e, e', d, p := Elements(v, 0), Elements(WithField(v, i, w), 0), offset - 4, Payload(w);
    assert |e'| == |e|;
    var len := LowFirst(|e| + 5, 4);
    forall k | 0 <= k < |t|
      ensures t[k] == (len + (e' + [0]))[k]
    {
      if offset <= k < offset + |p| {
        assert t[k] == t[offset..offset + |p|][k - offset];
      } else {
        assert t[k] == s[k];
      }
    }
  }

  /** Checks the new value against the type, as each case of the replacement does. */
  method NewValue(t: Byte, value: Lua, ghost old_: Value) returns (r: Option<Value>)
    requires Storable(old_) && t == Tag(old_) && SizeOfType(t) > 0
    ensures r == Replacement(old_, value)
  {
    r := None;
    if t == REAL {
      if value.Float? && value.bits < WIDE {
        r := Some(Real(value.bits));
      }
    } else if t == BOOLEAN {
      r := Some(Bool(value != Boolean(false)));
    } else if t == OBJECTID {
      if Marked(value, t, 12) {
        r := Some(ObjectId(value.s[2..]));
      }
    } else if t == DATE {
      if Marked(value, t, 4) {
        r := DateOf(value.s[2..]);
      }
    } else if t == TIMESTAMP {
      if Marked(value, t, 8) {
        r := StampOf(value.s[2..6], value.s[6..10]);
      }
    } else if value.Number? && -0x8000_0000_0000_0000 <= value.n < 0x8000_0000_0000_0000 {
      r := Some(Int(if t == INT64 then value.n else Truncated(value.n), t == INT64));
    }
  }

  /** The writes of the replacement, into the sixteen bytes from the offset on. */
  method WriteScalar(b: Buffer, v: Value)
    requires b.Valid() && b.size == 0 && SizeOfType(Tag(v)) > 0 && |Payload(v)| <= b.cap
    requires |Payload(v)| == SizeOfType(Tag(v))
    modifies b, b.ptr
    ensures b.Valid() && b.ptr == old(b.ptr)
    ensures b.ptr[b.base..b.base + |Payload(v)|] == Payload(v)
    ensures OnlyChanged(old(b.ptr[..]), b.ptr[..], b.base, b.base + |Payload(v)|)
  {
    hide LowFirst;
    ghost var before := b.ptr[..];
    match v
    case Int(n, wide) => WriteNumber(b, if wide then n % WIDE else n % WORD, if wide then 8 else 4);
    case Real(bits) => WriteNumber(b, bits, 8);
    case Bool(f) =>
      b.WriteByte(if f then 1 else 0);
    case ObjectId(id) => CopyIn(b.ptr, b.base, id);
    case Date(t) => WriteNumber(b, t * 1000, 8);
    case Timestamp(inc, ts) =>
      b.WriteInt(inc, 4);
      b.WriteInt(ts, 4);
  }

  method WriteNumber(b: Buffer, v: nat, n: nat)
    requires b.Valid() && b.size == 0 && n <= b.cap
    modifies b, b.ptr
    ensures b.Valid() && b.ptr == old(b.ptr)
    ensures b.ptr[b.base..b.base + n] == LowFirst(v, n)
    ensures OnlyChanged(old(b.ptr[..]), b.ptr[..], b.base, b.base + n)
  {
    b.WriteInt(v, n);
  }
}
