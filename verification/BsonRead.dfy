/** Reading a document back. */
module BsonRead {
  import opened Arith
  import opened Bytes
  import opened Options
  import opened Bson

  /** A Lua value; a table is the list of the assignments that made it. */
  datatype Lua =
    | Number(n: int)
    | Float(bits: nat)
    | String(s: seq<Byte>)
    | Boolean(b: bool)
    | Table(entries: seq<Entry>)

  datatype Key = Name(s: seq<Byte>) | Index(i: int)
  datatype Entry = Entry(key: Key, value: Lua)

  /** What a stored value is in Lua: types that Lua has not are strings with a zero and the type in front. */
  ghost function ToLua(v: Value): Lua
    decreases v, 1, 0
  {
    match v
    case Int(n, _) => Number(n)
    case Real(bits) => Float(bits)
    case Text(s) => String(s)
    case Bool(b) => Boolean(b)
    case Mark(t) => String([0, t])
    case ObjectId(id) => String([0, OBJECTID] + id)
    case Date(t) => String([0, DATE] + LowFirst(t, 4))
    case Timestamp(inc, ts) => String([0, TIMESTAMP] + (LowFirst(inc, 4) + LowFirst(ts, 4)))
    case Doc(_) => Table(Entries(v, 0))
    case Arr(_) => Table(Entries(v, 0))
  }

  ghost function EntryAt(v: Value, i: nat): Entry
    requires i < Count(v)
    decreases v, 0, 0
  {
    Entry(if v.Arr? then Index(i + 1) else Name(v.fields[i].key), ToLua(ValueAt(v, i)))
  }

  ghost function Entries(v: Value, i: nat): seq<Entry>
    decreases v, 0, Count(v) - i + 1
  {
    if i >= Count(v) then [] else [EntryAt(v, i)] + Entries(v, i + 1)
  }

  class Reader {
    const data: seq<Byte>
    var ptr: nat
    var size: nat

    constructor (data: seq<Byte>, ptr: nat, size: nat)
      requires ptr + size <= |data|
      ensures this.data == data && this.ptr == ptr && this.size == size
    {
      this.data := data;
      this.ptr, this.size := ptr, size;
    }

    ghost predicate Valid()
      reads this
    {
      ptr + size <= |data|
    }

    /** The bytes s are next. */
    ghost predicate Ahead(s: seq<Byte>)
      requires Valid()
      reads this
    {
      |s| <= size && data[ptr..ptr + |s|] == s
    }

    /** Moves behind the next sz bytes; a negative or too large sz is an error. */
    method ReadBytes(sz: int) returns (r: Option<seq<Byte>>)
      requires Valid()
      modifies this
      ensures Valid() && r.Some? == (0 <= sz <= old(size))
      ensures r.Some? ==> r.value == data[old(ptr)..old(ptr) + sz] && ptr == old(ptr) + sz && size == old(size) - sz
      ensures r.None? ==> ptr == old(ptr) && size == old(size)
    {
      if sz < 0 || size < sz {
        return None;
      }
      r := Some(data[ptr..ptr + sz]);
      ptr, size := ptr + sz, size - sz;
    }

    method ReadByte() returns (r: Option<Byte>)
      requires Valid()
      modifies this
      ensures Valid() && r.Some? == (old(size) > 0)
      ensures r.Some? ==> r.value == data[old(ptr)] && ptr == old(ptr) + 1 && size == old(size) - 1
      ensures r.None? ==> ptr == old(ptr) && size == old(size)
    {
      if size < 1 {
        return None;
      }
      r := Some(data[ptr]);
      ptr, size := ptr + 1, size - 1;
    }

    /** read_int32 and read_int64: a number of n bytes in two's complement. */
    method ReadInt(n: nat) returns (r: Option<int>)
      requires Valid()
      modifies this
      ensures Valid() && r.Some? == (n <= old(size))
      ensures r.Some? ==> r.value == Signed(Natural(data[old(ptr)..old(ptr) + n]), n)
      ensures r.Some? ==> ptr == old(ptr) + n && size == old(size) - n
      ensures r.None? ==> ptr == old(ptr) && size == old(size)
    {
      var b := ReadBytes(n);
      return if b.None? then None else Some(Signed(Natural(b.value), n));
    }

    /** The bytes before the next zero. */
    method ReadCString() returns (r: Option<seq<Byte>>)
      requires Valid()
      modifies this
      ensures Valid() && old(ptr) <= ptr && ptr + size == old(ptr) + old(size)
      ensures r.Some? ==> 0 !in r.value && data[old(ptr)..ptr] == r.value + [0] && size < old(size)
      ensures r.None? ==> ptr == old(ptr) && forall j | ptr <= j < ptr + size :: data[j] != 0
    {
      var i := 0;
      while true
        invariant 0 <= i <= size && forall j | ptr <= j < ptr + i :: data[j] != 0
        invariant ptr == old(ptr) && size == old(size)
        decreases size - i
      {
        if i == size {
          return None;
        }
        if data[ptr + i] == 0 {
          break;
        }
        i := i + 1;
      }
      r := Some(data[ptr..ptr + i]);
      ptr, size := ptr + i + 1, size - (i + 1);
    }
  }

  /** What an integer of four bytes read back is. */
  lemma {:induction false} Int4(n: int)
    requires -0x8000_0000 <= n < 0x8000_0000
    ensures Signed(Natural(LowFirst(n % WORD, 4)), 4) == n
  {
    assert Power256(2) == 0x1_0000 && Power256(4) == 0x1_0000_0000;
    NaturalOfLowFirst(n % WORD, 4);
  }

  lemma {:induction false} Int8(n: int)
    requires -0x8000_0000_0000_0000 <= n < 0x8000_0000_0000_0000
    ensures Signed(Natural(LowFirst(n % WIDE, 8)), 8) == n
  {
    Power8();
    NaturalOfLowFirst(n % WIDE, 8);
  }

  lemma {:induction false} AheadSplit(br: Reader, a: seq<Byte>, b: seq<Byte>)
    requires br.Valid() && br.Ahead(a + b)
    ensures |a| + |b| <= br.size && br.data[br.ptr..br.ptr + |a|] == a
    ensures br.data[br.ptr + |a|..br.ptr + |a| + |b|] == b
  {
    var s := br.data[br.ptr..br.ptr + |a + b|];
    assert s == a + b;
    assert s[..|a|] == a && s[|a|..] == b;
  }

  lemma {:induction false} KeyBytes(data: seq<Byte>, at: nat, key: seq<Byte>)
    requires at + |key| + 1 <= |data| && data[at..at + |key| + 1] == key + [0] && 0 !in key
    ensures data[at + |key|] == 0 && forall j | 0 <= j < |key| :: data[at + j] == key[j] != 0
  {
    var k := data[at..at + |key| + 1];
    assert k[|key|] == 0;
    forall j | 0 <= j < |key|
      ensures data[at + j] == key[j] != 0
    {
      assert k[j] == key[j] && key[j] in key;
    }
  }

  /** No zero in the key: the next zero is the one behind it. */
  lemma {:induction false} SameKey(data: seq<Byte>, at: nat, key: seq<Byte>, got: seq<Byte>)
    requires at + |key| + 1 <= |data| && data[at..at + |key| + 1] == key + [0] && 0 !in key
    requires at + |got| + 1 <= |data| && data[at..at + |got| + 1] == got + [0] && 0 !in got
    ensures got == key
  {
    KeyBytes(data, at, key);
    KeyBytes(data, at, got);
    assert |got| == |key|;
  }

  /** The value w is next in the reader, and its type and table kind are as given. */
  ghost predicate Expects(br: Reader, w: Option<Value>)
    requires br.Valid()
    reads br
  {
    w.Some? && Storable(w.value) && |Payload(w.value)| < 0x7fff_0000 && br.Ahead(Payload(w.value))
  }

  /** unpack_dict: a table from its length, its elements and the closing zero. */
  method UnpackDict(br: Reader, isArray: bool, ghost w: Option<Value>) returns (r: Option<Lua>)
    requires br.Valid()
    modifies br
    ensures br.Valid() && br.ptr + br.size == old(br.ptr + br.size) && old(br.ptr) <= br.ptr
    ensures old(Expects(br, w)) && IsTable(w.value) && w.value.Arr? == isArray ==>
              r == Some(ToLua(w.value)) && br.ptr == old(br.ptr) + |Payload(w.value)|
    decreases br.size, 0
  {
    hide Natural, Elements;
    ghost var expected := Expects(br, w) && IsTable(w.value) && w.value.Arr? == isArray;
    ghost var start := br.ptr;
    if expected {
      FramedParts(br, w.value);
    }
    var sz := br.ReadInt(4);
    if sz.None? {
      return None;
    }
    var at := br.ptr;
    var bytes := br.ReadBytes(sz.value - 5);
    if bytes.None? {
      return None;
    }
    var t := new Reader(br.data, at, sz.value - 5);
    var end := br.ReadByte();
    if end.None? || end.value != 0 {
      return None;
    }
    var entries := UnpackElements(t, isArray, if expected then w else None);
    return if entries.None? then None else Some(Table(entries.value));
  }

  /** The parts of a framed table, as the reader will meet them. */
  lemma {:induction false} FramedParts(br: Reader, v: Value)
    requires br.Valid() && Expects(br, Some(v)) && IsTable(v)
    ensures var n := |Elements(v, 0)|;
            && |Payload(v)| == n + 5 <= br.size
            && Signed(Natural(br.data[br.ptr..br.ptr + 4]), 4) == n + 5
            && br.data[br.ptr + 4..br.ptr + 4 + n] == Elements(v, 0)
            && br.data[br.ptr + 4 + n] == 0
  {
    hide Elements, LowFirst;
    var body := Elements(v, 0);
    var n := |body|;
    AheadSplit(br, LowFirst(n + 5, 4), body + [0]);
    Int4(n + 5);
    var s := br.data[br.ptr + 4..br.ptr + 4 + (n + 1)];
    assert s == body + [0];
    assert s[..n] == body && s[n] == 0;
  }

  /** The elements up to the end of the reader. */
  method UnpackElements(t: Reader, isArray: bool, ghost w: Option<Value>) returns (r: Option<seq<Entry>>)
    requires t.Valid()
    modifies t
    ensures t.Valid() && t.ptr + t.size == old(t.ptr + t.size)
    ensures w.Some? && w.value.Arr? == isArray && old(Remaining(t.data, t.ptr, t.ptr + t.size, w.value, 0)) ==>
              r == Some(Entries(w.value, 0))
    decreases t.size, 2
  {
    var entries: seq<Entry> := [];
    ghost var i := 0;
    ghost var expected := w.Some? && w.value.Arr? == isArray && Remaining(t.data, t.ptr, t.ptr + t.size, w.value, 0);
    while t.size != 0
      invariant t.Valid() && t.ptr + t.size == old(t.ptr + t.size) && t.size <= old(t.size)
      invariant expected ==> 0 <= i <= Count(w.value) && Remaining(t.data, t.ptr, t.ptr + t.size, w.value, i)
      invariant expected ==> entries + Entries(w.value, i) == Entries(w.value, 0)
      decreases t.size
    {
      var e := UnpackElement(t, isArray, w, i);
      if e.None? {
        return None;
      }
      entries := entries + [e.value];
      i := i + 1;
    }
    if expected {
      NothingLeft(w.value, i);
      assert entries + [] == entries;
    }
    return Some(entries);
  }

  lemma {:induction false} NothingLeft(v: Value, i: nat)
    requires i <= Count(v) && Elements(v, i) == []
    ensures Entries(v, i) == [] && i == Count(v)
  {
  }

  /** The bytes from ptr to end are the elements of v from the i-th on. */
  ghost predicate Remaining(data: seq<Byte>, ptr: nat, end: nat, v: Value, i: nat) {
    && ptr <= end <= |data| && IsTable(v) && Storable(v) && i <= Count(v)
    && data[ptr..end] == Elements(v, i) && |Elements(v, i)| < 0x7fff_0000
  }

  lemma {:induction false} ElementParts(data: seq<Byte>, ptr: nat, end: nat, v: Value, i: nat)
    requires Remaining(data, ptr, end, v, i) && i < Count(v)
    ensures var key, w := KeyAt(v, i), ValueAt(v, i);
            var at := ptr + |key| + 2;
            && Storable(w) && 0 !in key && at + |Payload(w)| <= end && |Payload(w)| < 0x7fff_0000
            && data[ptr] == Tag(w) && data[ptr + 1..at] == key + [0] && data[at - 1] == 0
            && data[at..at + |Payload(w)|] == Payload(w)
            && Remaining(data, at + |Payload(w)|, end, v, i + 1)
  {
    var key, w := KeyAt(v, i), ValueAt(v, i);
    hide Payload, Tag;
    var rest, p := Elements(v, i + 1), Payload(w);
    assert Elements(v, i) == Element(key, w) + rest && Element(key, w) == Head(Tag(w), key) + p;
    var k := |key| + 2;
    Cut3(data, ptr, end, [Tag(w)], key + [0], p, rest);
    assert data[ptr + k - 1] == data[ptr + 1..ptr + k][|key|];
    assert data[ptr] == data[ptr..ptr + 1][0];
  }

  lemma {:induction false} Cut3(data: seq<Byte>, ptr: nat, end: nat, a: seq<Byte>, b: seq<Byte>, c: seq<Byte>,
      d: seq<Byte>)
    requires ptr <= end <= |data| && data[ptr..end] == ((a + b) + c) + d
    ensures end == ptr + |a| + |b| + |c| + |d|
    ensures data[ptr..ptr + |a|] == a && data[ptr + |a|..ptr + |a| + |b|] == b
    ensures data[ptr + |a| + |b|..ptr + |a| + |b| + |c|] == c && data[ptr + |a| + |b| + |c|..end] == d
  {
    var s := data[ptr..end];
    assert s[..|a|] == a && s[|a|..|a| + |b|] == b;
    assert s[|a| + |b|..|a| + |b| + |c|] == c && s[|a| + |b| + |c|..|s|] == d;
    Within(data, ptr, end, 0, |a|);
    Within(data, ptr, end, |a|, |a| + |b|);
    Within(data, ptr, end, |a| + |b|, |a| + |b| + |c|);
    Within(data, ptr, end, |a| + |b| + |c|, |s|);
  }

  lemma {:induction false} Within(data: seq<Byte>, ptr: nat, end: nat, i: nat, j: nat)
    requires ptr <= end <= |data| && i <= j <= end - ptr
    ensures data[ptr..end][i..j] == data[ptr + i..ptr + j]
  {
    var s := data[ptr..end];
    forall k | 0 <= k < j - i
      ensures s[i..j][k] == data[ptr + i..ptr + j][k]
    {
      assert s[i..j][k] == s[i + k];
    }
  }

  /** One element: type, key, value. */
  method UnpackElement(t: Reader, isArray: bool, ghost w: Option<Value>, ghost i: nat) returns (r: Option<Entry>)
    requires t.Valid() && t.size > 0
    modifies t
    ensures t.Valid() && t.ptr + t.size == old(t.ptr + t.size) && t.size < old(t.size)
    ensures w.Some? && w.value.Arr? == isArray && i < Count(w.value)
            && old(Remaining(t.data, t.ptr, t.ptr + t.size, w.value, i)) ==>
              r == Some(EntryAt(w.value, i)) && Remaining(t.data, t.ptr, t.ptr + t.size, w.value, i + 1)
    decreases t.size, 1
  {
    hide Payload, Tag, Remaining, Storable, ToLua, KeyAt, StrTol;
    ghost var expected := w.Some? && w.value.Arr? == isArray && i < Count(w.value)
                          && Remaining(t.data, t.ptr, t.ptr + t.size, w.value, i);
    ghost var start, end := t.ptr, t.ptr + t.size;
    if expected {
      ElementParts(t.data, start, end, w.value, i);
    }
    var bt := t.ReadByte();
    var key := t.ReadCString();
    if key.None? {
      return None;
    }
    if expected {
      SameKey(t.data, start + 1, KeyAt(w.value, i), key.value);
    }
    var id := if isArray then Index(StrTol(key.value) + 1) else Name(key.value);
    ghost var v := if expected then Some(ValueAt(w.value, i)) else None;
    var value := UnpackValue(t, bt.value, v);
    if value.None? {
      return None;
    }
    if expected {
      KeyIs(w.value, i, id, key.value);
    }
    return Some(Entry(id, value.value));
  }

  lemma {:induction false} KeyIs(v: Value, i: nat, id: Key, key: seq<Byte>)
    requires i < Count(v) && key == KeyAt(v, i)
    requires id == if v.Arr? then Index(StrTol(key) + 1) else Name(key)
    ensures EntryAt(v, i).key == id
  {
    if v.Arr? {
      IndexFromKey(i);
    }
  }

  /** A value of type bt. */
  method UnpackValue(t: Reader, bt: Byte, ghost w: Option<Value>) returns (r: Option<Lua>)
    requires t.Valid()
    modifies t
    ensures t.Valid() && t.ptr + t.size == old(t.ptr + t.size) && t.size <= old(t.size)
    ensures old(Expects(t, w)) && Tag(w.value) == bt ==>
              r == Some(ToLua(w.value)) && t.ptr == old(t.ptr) + |Payload(w.value)|
    decreases t.size, 1
  {
    hide Storable, Elements, Natural, LowFirst;
    if Expects(t, w) && Tag(w.value) == bt {
      Readable(t, w.value);
    }
    if bt == DOCUMENT || bt == ARRAY {
      r := UnpackDict(t, bt == ARRAY, w);
    } else if bt == STRING {
      r := UnpackText(t);
    } else {
      r := UnpackScalar(t, bt, w);
    }
  }

  /** A value of a type without length prefix. */
  method UnpackScalar(t: Reader, bt: Byte, ghost w: Option<Value>) returns (r: Option<Lua>)
    requires t.Valid()
    modifies t
    ensures t.Valid() && t.ptr + t.size == old(t.ptr + t.size) && t.size <= old(t.size)
    ensures old(Expects(t, w)) && Tag(w.value) == bt && !IsTable(w.value) && !w.value.Text? ==>
              r == Some(ToLua(w.value)) && t.ptr == old(t.ptr) + |Payload(w.value)|
  {
    hide Storable, Elements, Natural, LowFirst;
    if Expects(t, w) && Tag(w.value) == bt {
      Readable(t, w.value);
    }
    r := None;
    if bt == BOOLEAN {
      var b := t.ReadByte();
      if b.Some? {
        r := Some(Boolean(b.value != 0));
      }
    } else if bt == REAL {
      var b := t.ReadBytes(8);
      if b.Some? {
        r := Some(Float(Natural(b.value)));
      }
    } else if bt == INT32 || bt == INT64 {
      var n := t.ReadInt(if bt == INT32 then 4 else 8);
      if n.Some? {
        r := Some(Number(n.value));
      }
    } else if bt == OBJECTID {
      var b := t.ReadBytes(12);
      if b.Some? {
        r := Some(String([0, OBJECTID] + b.value));
      }
    } else if bt == TIMESTAMP {
      var inc := t.ReadBytes(4);
      var ts := t.ReadBytes(4);
      if inc.Some? && ts.Some? {
        r := Some(String([0, TIMESTAMP] + (inc.value + ts.value)));
      }
    } else if bt == DATE {
      var n := t.ReadInt(8);
      if n.Some? {
        r := Some(String([0, DATE] + LowFirst(Seconds(n.value) % WORD, 4)));
      }
    } else if IsMark(bt) {
      r := Some(String([0, bt]));
    }
  }

  /** Milliseconds cut to seconds, towards zero. */
  function Seconds(date: int): int {
    if date < 0 then -(-date / 1000) else date / 1000
  }

  /** A length, that many bytes, and the last of them, the closing zero, left out. */
  method UnpackText(t: Reader) returns (r: Option<Lua>)
    requires t.Valid()
    modifies t
    ensures t.Valid() && t.ptr + t.size == old(t.ptr + t.size) && t.size <= old(t.size)
    ensures old(t.size) >= 4 ==>
              var n := Signed(Natural(old(t.data[t.ptr..t.ptr + 4])), 4);
              0 < n <= old(t.size) - 4 ==>
                t.ptr == old(t.ptr) + 4 + n && r == Some(String(t.data[old(t.ptr) + 4..old(t.ptr) + 4 + n - 1]))
  {
    var sz := t.ReadInt(4);
    if sz.None? || sz.value <= 0 {
      return None;
    }
    ghost var at := t.ptr;
    var b := t.ReadBytes(sz.value);
    if b.None? {
      return None;
    }
    assert b.value[..sz.value - 1] == t.data[at..at + sz.value - 1];
    return Some(String(b.value[..sz.value - 1]));
  }

  /** What the single reads will find for the value w. */
  lemma {:induction false} Readable(t: Reader, w: Value)
    requires t.Valid() && Expects(t, Some(w))
    ensures |Payload(w)| <= t.size
    ensures match w
            case Int(n, wide) =>
              var k := if wide then 8 else 4;
              |Payload(w)| == k && Signed(Natural(t.data[t.ptr..t.ptr + k]), k) == n
            case Real(bits) => |Payload(w)| == 8 && Natural(t.data[t.ptr..t.ptr + 8]) == bits
            case Text(s) =>
              && |Payload(w)| == |s| + 5 && Signed(Natural(t.data[t.ptr..t.ptr + 4]), 4) == |s| + 1
              && t.data[t.ptr + 4..t.ptr + 4 + |s|] == s
            case Bool(b) => |Payload(w)| == 1 && t.data[t.ptr] == if b then 1 else 0
            case Mark(t) => IsMark(t) && |Payload(w)| == 0
            case ObjectId(id) => |id| == 12 && |Payload(w)| == 12 && t.data[t.ptr..t.ptr + 12] == id
            case Date(s) => |Payload(w)| == 8 && s < WORD && Signed(Natural(t.data[t.ptr..t.ptr + 8]), 8) == s * 1000
            case Timestamp(inc, ts) =>
              && |Payload(w)| == 8 && t.data[t.ptr..t.ptr + 4] == LowFirst(inc, 4)
              && t.data[t.ptr + 4..t.ptr + 8] == LowFirst(ts, 4)
            case _ => true
  {
    hide LowFirst, Natural, Elements, Signed;
    match w
    case Int(n, wide) =>
      if wide {
        Int8(n);
      } else {
        Int4(n);
      }
    case Real(bits) =>
      Power8();
      NaturalOfLowFirst(bits, 8);
    case Text(s) =>
      AheadSplit(t, LowFirst(|s| + 1, 4), s + [0]);
      Int4(|s| + 1);
      assert (s + [0])[..|s|] == s;
      assert t.data[t.ptr + 4..t.ptr + 4 + (|s| + 1)][..|s|] == t.data[t.ptr + 4..t.ptr + 4 + |s|];
    case Bool(b) =>
      assert t.data[t.ptr] == t.data[t.ptr..t.ptr + 1][0];
    case Date(s) =>
      Int8(s * 1000);
    case Timestamp(inc, ts) =>
      AheadSplit(t, LowFirst(inc, 4), LowFirst(ts, 4));
    case _ =>
  }

  /** bson.decode: the whole block is one document. */
  method Decode(data: seq<Byte>, ghost v: Value) returns (r: Option<Lua>)
    ensures v.Doc? && Storable(v) && |data| < 0x7fff_0000 && data == Framed(Elements(v, 0)) ==> r == Some(ToLua(v))
  {
    var n := if |data| >= 4 then Signed(Natural(data[..4]), 4) else -1;
    if v.Doc? && Storable(v) && |data| < 0x7fff_0000 && data == Framed(Elements(v, 0)) {
      WholeLength(data, Elements(v, 0));
    }
    if n < 0 || n > |data| {
      return None;
    }
    var br := new Reader(data, 0, n);
    assert data[0..|data|] == data;
    r := UnpackDict(br, false, Some(v));
  }

  /** The prefix of a framed body is the number of all its bytes. */
  lemma {:induction false} WholeLength(data: seq<Byte>, body: seq<Byte>)
    requires data == Framed(body) && |data| < 0x8000_0000
    ensures |data| == |body| + 5 && Natural(data[..4]) == |data| && Signed(Natural(data[..4]), 4) == |data|
  {
    assert data[..4] == LowFirst(|body| + 5, 4);
    Int4(|body| + 5);
    assert Power256(2) == 0x1_0000 && Power256(4) == WORD;
    NaturalOfLowFirst(|body| + 5, 4);
  }
}
