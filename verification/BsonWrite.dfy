/** Writing a document into a growing buffer. */
module BsonWrite {
  import opened Arith
  import opened Bytes
  import opened Bson

  const DEFAULT_CAP: nat := 64

  /** Sizes below this keep the doubling of the capacity inside an int. */
  const LIMIT: int := 0x4000_0000

  class Buffer {
    var size: nat
    var cap: nat
    var ptr: array<Byte>
    const base: nat

    /** An empty buffer of its own. */
    constructor ()
      ensures Valid() && Contents() == [] && base == 0 && cap > 0 && fresh(ptr)
    {
      size, cap, base := 0, DEFAULT_CAP, 0;
      ptr := new Byte[DEFAULT_CAP];
    }

    /** A buffer over sixteen bytes of another block, or as many as there are. */
    constructor Over(block: array<Byte>, offset: nat)
      requires offset <= block.Length
      ensures Valid() && Contents() == [] && base == offset && ptr == block && size == 0
      ensures cap == if offset + 16 <= block.Length then 16 else block.Length - offset
    {
      size, cap, base := 0, if offset + 16 <= block.Length then 16 else block.Length - offset, offset;
      ptr := block;
    }

    ghost predicate Valid()
      reads this
    {
      base + cap <= ptr.Length && size <= cap
    }

    ghost function Contents(): seq<Byte>
      requires Valid()
      reads this, ptr
    {
      ptr[base..base + size]
    }

    /** n more bytes fit, or the buffer may grow to take them. */
    ghost predicate Room(n: nat)
      reads this
    {
      size + n <= cap || (base == 0 && cap > 0 && size + n < LIMIT)
    }

    /** Makes room for sz more bytes; the capacity stays an int. */
    method Reserve(sz: nat)
      requires Valid() && Room(sz)
      modifies this
      ensures Valid() && size == old(size) && Contents() == old(Contents()) && size + sz <= cap
      ensures ptr == old(ptr) || fresh(ptr)
      ensures old(size) + sz <= old(cap) ==> ptr == old(ptr)
      ensures cap == old(cap) || old(cap) < cap < 2 * LIMIT
    {
      if size + sz <= cap {
        return;
      }
      var c := cap;
      while true
        invariant old(cap) <= c && c <= size + sz
        decreases size + sz - c
      {
        c := 2 * c;
        if c > size + sz {
          break;
        }
      }
      var block := new Byte[c];
      var i := 0;
      while i < size
        invariant 0 <= i <= size && size == old(size) && ptr == old(ptr) && base + size <= ptr.Length
        invariant block[..i] == ptr[..i] && ptr[..] == old(ptr[..])
        modifies block
      {
        block[i] := ptr[i];
        i := i + 1;
      }
      cap, ptr := c, block;
    }

    method WriteByte(v: Byte)
      requires Valid() && Room(1)
      modifies this, ptr
      ensures Valid() && Contents() == old(Contents()) + [v] && cap >= old(cap) && size == old(size) + 1
      ensures ptr == old(ptr) || fresh(ptr)
      ensures old(size) + 1 <= old(cap) ==> ptr == old(ptr)
      ensures ptr == old(ptr) ==> OnlyChanged(old(ptr[..]), ptr[..], base + old(size), base + size)
    {
      Reserve(1);
      ghost var s := Contents();
      ptr[base + size] := v;
      size := size + 1;
      assert Contents() == s + [v];
    }

    /** memcpy of the bytes s behind what is there. */
    method WriteBytes(s: seq<Byte>)
      requires Valid() && Room(|s|)
      modifies this, ptr
      ensures Valid() && Contents() == old(Contents()) + s && cap >= old(cap) && size == old(size) + |s|
      ensures ptr == old(ptr) || fresh(ptr)
      ensures old(size) + |s| <= old(cap) ==> ptr == old(ptr)
      ensures ptr == old(ptr) ==> OnlyChanged(old(ptr[..]), ptr[..], base + old(size), base + size)
    {
      hide OnlyChanged;
      Reserve(|s|);
      ghost var before := ptr[..];
      CopyIn(ptr, base + size, s);
      Joined(before, ptr[..], base, size, s);
      size := size + |s|;
    }

    /** write_int32 and write_int64: the n low bytes of v, the lowest first. */
    method WriteInt(v: nat, n: nat)
      requires Valid() && Room(n)
      modifies this, ptr
      ensures Valid() && Contents() == old(Contents()) + LowFirst(v, n) && cap >= old(cap) && size == old(size) + n
      ensures ptr == old(ptr) || fresh(ptr)
      ensures old(size) + n <= old(cap) ==> ptr == old(ptr)
      ensures ptr == old(ptr) ==> OnlyChanged(old(ptr[..]), ptr[..], base + old(size), base + size)
    {
      hide OnlyChanged, LowFirst;
      Reserve(n);
      ghost var before := ptr[..];
      StoreInt(ptr, base + size, v, n);
      Joined(before, ptr[..], base, size, LowFirst(v, n));
      size := size + n;
    }

    method WriteString(s: seq<Byte>)
      requires Valid() && Room(|s| + 1)
      modifies this, ptr
      ensures Valid() && Contents() == old(Contents()) + (s + [0]) && cap >= old(cap) && size == old(size) + |s| + 1
      ensures ptr == old(ptr) || fresh(ptr)
    {
      WriteBytes(s + [0]);
    }

    /** Leaves room for a length of four bytes, to be filled in later. */
    method ReserveLength() returns (off: nat)
      requires Valid() && Room(4)
      modifies this
      ensures Valid() && off == old(size) && size == off + 4 && cap >= old(cap)
      ensures Contents()[..off] == old(Contents())
      ensures ptr == old(ptr) || fresh(ptr)
    {
      off := size;
      Reserve(4);
      ghost var s := Contents();
      size := size + 4;
      assert Contents()[..off] == s;
    }

    /** Fills in the length at off. */
    method WriteLength(v: nat, off: nat)
      requires Valid() && off + 4 <= size
      modifies ptr
      ensures Valid()
      ensures Contents() == old(Contents())[..off] + LowFirst(v, 4) + old(Contents())[off + 4..]
    {
      hide OnlyChanged, LowFirst;
      ghost var before := ptr[..];
      StoreInt(ptr, base + off, v, 4);
      Patched(before, ptr[..], base, off, size, LowFirst(v, 4));
    }
  }

  /** Two states of a block differ at most from lo to hi. */
  ghost predicate OnlyChanged(s: seq<Byte>, t: seq<Byte>, lo: nat, hi: nat) {
    |s| == |t| && forall j | 0 <= j < |s| && !(lo <= j < hi) :: s[j] == t[j]
  }

  method CopyIn(a: array<Byte>, at: nat, s: seq<Byte>)
    requires at + |s| <= a.Length
    modifies a
    ensures a[at..at + |s|] == s && OnlyChanged(old(a[..]), a[..], at, at + |s|)
  {
    var i := 0;
    while i < |s|
      invariant 0 <= i <= |s|
      invariant forall j | 0 <= j < i :: a[at + j] == s[j]
      invariant forall j | 0 <= j < a.Length && !(at <= j < at + i) :: a[j] == old(a[j])
    {
      a[at + i] := s[i];
      i := i + 1;
    }
  }

  /** The n low bytes of v, the lowest first, from at on. */
  method StoreInt(a: array<Byte>, at: nat, v0: nat, n: nat)
    requires at + n <= a.Length
    modifies a
    ensures a[at..at + n] == LowFirst(v0, n) && OnlyChanged(old(a[..]), a[..], at, at + n)
  {
    var v, i := v0, 0;
    while i < n
      invariant 0 <= i <= n && v == Drop(v0, i)
      invariant forall j | 0 <= j < i :: a[at + j] == Drop(v0, j) % 256
      invariant forall j | 0 <= j < a.Length && !(at <= j < at + i) :: a[j] == old(a[j])
    {
      DropNext(v0, i);
      a[at + i] := v % 256;
      v := v / 256;
      i := i + 1;
    }
    forall j | 0 <= j < n
      ensures a[at + j] == LowFirst(v0, n)[j]
    {
      LowFirstAt(v0, n, j);
    }
  }

  lemma {:induction false} Joined(s: seq<Byte>, t: seq<Byte>, base: nat, size: nat, added: seq<Byte>)
    requires base + size + |added| <= |s| && OnlyChanged(s, t, base + size, base + size + |added|)
    requires t[base + size..base + size + |added|] == added
    ensures t[base..base + size + |added|] == s[base..base + size] + added
  {
  }

  lemma {:induction false} Patched(s: seq<Byte>, t: seq<Byte>, base: nat, off: nat, size: nat, w: seq<Byte>)
    requires base + size <= |s| && off + |w| <= size && OnlyChanged(s, t, base + off, base + off + |w|)
    requires t[base + off..base + off + |w|] == w
    ensures var c := s[base..base + size]; t[base..base + size] == c[..off] + w + c[off + |w|..]
  {
    var c, d := s[base..base + size], t[base..base + size];
    forall j | 0 <= j < size
      ensures d[j] == (c[..off] + w + c[off + |w|..])[j]
    {
      if off <= j < off + |w| {
        assert w[j - off] == t[base + off..base + off + |w|][j - off];
      }
    }
  }

  // ---- Documents ----

  /** append_key */
  method AppendKey(b: Buffer, t: Byte, key: seq<Byte>)
    requires b.Valid() && b.Room(|key| + 2)
    modifies b, b.ptr
    ensures b.Valid() && b.Contents() == old(b.Contents()) + Head(t, key) && b.size == old(b.size) + |key| + 2
    ensures (b.ptr == old(b.ptr) || fresh(b.ptr)) && b.cap >= old(b.cap)
  {
    ghost var c := b.Contents();
    b.WriteByte(t);
    b.WriteString(key);
    assert c + [t] + (key + [0]) == c + Head(t, key);
  }

  /** An integer, in 32 bits when its bits from 31 on, cut to 32, are all equal, and in 64 bits otherwise. */
  method AppendNumber(b: Buffer, key: seq<Byte>, n: int)
    requires b.Valid() && b.base == 0 && b.cap > 0 && b.size + |Element(key, Stored(n))| < LIMIT
    modifies b, b.ptr
    ensures b.Valid() && b.Contents() == old(b.Contents()) + Element(key, Stored(n))
    ensures (b.ptr == old(b.ptr) || fresh(b.ptr)) && b.cap >= old(b.cap)
  {
    IntRoom(key, n);
    hide LowFirst, Truncated;
    var si := Truncated(n / 0x8000_0000);
    Two(b.Contents(), Head(Tag(Stored(n)), key), Payload(Stored(n)));
    if si == 0 || si == -1 {
      AppendKey(b, INT32, key);
      b.WriteInt(n % WORD, 4);
    } else {
      AppendKey(b, INT64, key);
      b.WriteInt(n % WIDE, 8);
    }
  }

  /** Type, key and value. */
  method AppendOne(b: Buffer, key: seq<Byte>, v: Value)
    requires b.Valid() && b.base == 0 && b.cap > 0 && Writable(v)
    requires b.size + |Element(key, Picked(v))| < LIMIT
    modifies b, b.ptr
    ensures b.Valid() && b.Contents() == old(b.Contents()) + Element(key, Picked(v))
    ensures (b.ptr == old(b.ptr) || fresh(b.ptr)) && b.cap >= old(b.cap)
    decreases v, 3
  {
    hide Payload, LowFirst, Writable, Stored;
    ghost var c := b.Contents();
    if v.Int? {
      AppendNumber(b, key, v.n);
    } else {
      ghost var head := Head(Tag(Picked(v)), key);
      Two(c, head, Payload(Picked(v)));
      AppendKey(b, Tag(v), key);
      WriteValue(b, v);
    }
  }

  lemma {:induction false} Two(a: seq<Byte>, b: seq<Byte>, c: seq<Byte>)
    ensures a + (b + c) == a + b + c
  {
  }

  /** The value alone. */
  method WriteValue(b: Buffer, v: Value)
    requires b.Valid() && b.base == 0 && b.cap > 0 && Writable(v) && !v.Int?
    requires b.size + |Payload(Picked(v))| < LIMIT
    modifies b, b.ptr
    ensures b.Valid() && b.Contents() == old(b.Contents()) + Payload(Picked(v))
    ensures (b.ptr == old(b.ptr) || fresh(b.ptr)) && b.cap >= old(b.cap)
    decreases v, 2
  {
    hide LowFirst, Elements;
    match v
    case Real(bits) => b.WriteInt(bits, 8);
    case Text(s) => WriteText(b, s);
    case Bool(f) => b.WriteByte(if f then 1 else 0);
    case Mark(_) =>
    case ObjectId(id) => b.WriteBytes(id);
    case Date(t) => b.WriteInt(t * 1000, 8);
    case Timestamp(inc, ts) =>
      Two(b.Contents(), LowFirst(inc, 4), LowFirst(ts, 4));
      b.WriteInt(inc, 4);
      b.WriteInt(ts, 4);
    case Doc(_) => PackDict(b, v);
    case Arr(_) => PackDict(b, v);
  }

  method WriteText(b: Buffer, s: seq<Byte>)
    requires b.Valid() && b.base == 0 && b.cap > 0 && b.size + |s| + 5 < LIMIT
    modifies b, b.ptr
    ensures b.Valid() && b.Contents() == old(b.Contents()) + (LowFirst(|s| + 1, 4) + (s + [0]))
    ensures (b.ptr == old(b.ptr) || fresh(b.ptr)) && b.cap >= old(b.cap)
  {
    hide LowFirst;
    ghost var c := b.Contents();
    var off := b.ReserveLength();
    ghost var gap := b.Contents()[off..];
    b.WriteString(s);
    b.WriteLength(|s| + 1, off);
    Filled(c, gap, s + [0], LowFirst(|s| + 1, 4), b.Contents());
  }

  lemma {:induction false} Filled(c: seq<Byte>, gap: seq<Byte>, body: seq<Byte>, len: seq<Byte>, r: seq<Byte>)
    requires |gap| == 4 && var w := c + gap + body; r == w[..|c|] + len + w[|c| + 4..]
    ensures r == c + (len + body)
  {
    var w := c + gap + body;
    assert w[..|c|] == c && w[|c| + 4..] == body;
  }

  /** The elements one after the other between the length, filled in at the end, and a closing zero. */
  method PackDict(b: Buffer, v: Value)
    requires IsTable(v)
    requires b.Valid() && b.base == 0 && b.cap > 0 && Writable(v)
    requires b.size + |Framed(Elements(Picked(v), 0))| < LIMIT
    modifies b, b.ptr
    ensures b.Valid() && b.Contents() == old(b.Contents()) + Framed(Elements(Picked(v), 0))
    ensures (b.ptr == old(b.ptr) || fresh(b.ptr)) && b.cap >= old(b.cap)
    decreases v, 1
  {
    FramedLength(Elements(Picked(v), 0));
    hide Payload, LowFirst, Writable, Picked, Elements, Element, Framed, KeyAt, ValueAt;
    ghost var c := b.Contents();
    var off := b.ReserveLength();
    ghost var gap := b.Contents()[off..];
    assert b.Contents() == c + gap;
    ghost var body: seq<Byte> := [];
    var i := 0;
    PickedParts(v, 0);
    while i < Count(v)
      invariant 0 <= i <= Count(v) && b.Valid() && b.cap > 0 && off == |c| && |gap| == 4
      invariant b.Contents() == c + gap + body && body + Elements(Picked(v), i) == Elements(Picked(v), 0)
      invariant (b.ptr == old(b.ptr) || fresh(b.ptr)) && b.cap >= old(b.cap)
    {
      ElementFits(v, i);
      PickedParts(v, i);
      ElementsNext(Picked(v), i);
      Two(body, Element(KeyAt(v, i), Picked(ValueAt(v, i))), Elements(Picked(v), i + 1));
      Two(c + gap, body, Element(KeyAt(v, i), Picked(ValueAt(v, i))));
      AppendOne(b, KeyAt(v, i), ValueAt(v, i));
      body := body + Element(KeyAt(v, i), Picked(ValueAt(v, i)));
      i := i + 1;
    }
    ElementsEnd(Picked(v), i, body);
    CloseDict(b, off, c, gap, body);
  }

  /** The closing zero and the length. */
  method CloseDict(b: Buffer, off: nat, ghost c: seq<Byte>, ghost gap: seq<Byte>, ghost body: seq<Byte>)
    requires b.Valid() && b.base == 0 && b.cap > 0 && b.size + 1 < LIMIT
    requires off == |c| && |gap| == 4 && b.Contents() == c + gap + body
    modifies b, b.ptr
    ensures b.Valid() && b.Contents() == c + Framed(body)
    ensures (b.ptr == old(b.ptr) || fresh(b.ptr)) && b.cap >= old(b.cap)
  {
    hide LowFirst;
    Two(c + gap, body, [0]);
    b.WriteByte(0);
    b.WriteLength(b.size - off, off);
    Filled(c, gap, body + [0], LowFirst(|body| + 5, 4), b.Contents());
  }

  lemma {:induction false} FramedLength(body: seq<Byte>)
    ensures |Framed(body)| == |body| + 5
  {
  }

  lemma {:induction false} ElementsNext(v: Value, i: nat)
    requires IsTable(v) && i < Count(v)
    ensures Elements(v, i) == Element(KeyAt(v, i), ValueAt(v, i)) + Elements(v, i + 1)
  {
  }

  lemma {:induction false} ElementsEnd(v: Value, i: nat, body: seq<Byte>)
    requires i >= Count(v)
    ensures body + Elements(v, i) == body
  {
  }

  lemma {:induction false} ElementFits(v: Value, i: nat)
    requires IsTable(v) && i < Count(v) && Writable(v)
    ensures Writable(ValueAt(v, i))
  {
  }

  lemma {:induction false} IntRoom(key: seq<Byte>, n: int)
    ensures |Element(key, Stored(n))| == |key| + 2 + if PicksSmall(n) then 4 else 8
  {
  }

  /** bson.encode: the bytes of a document, with the integers as the writer stores them. */
  method Encode(v: Value) returns (b: Buffer)
    requires IsTable(v) && Writable(v) && |Framed(Elements(Picked(v), 0))| < LIMIT
    ensures fresh(b) && fresh(b.ptr) && b.Valid() && b.Contents() == Framed(Elements(Picked(v), 0))
  {
    hide Elements, Framed, Writable, Picked;
    b := new Buffer();
    PackDict(b, v);
    assert [] + Framed(Elements(Picked(v), 0)) == Framed(Elements(Picked(v), 0));
  }
}
