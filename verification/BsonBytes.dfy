/** The bytes of a document as the BSON specification, version 1.1, lists them, without the names of this project. */
module BsonBytes {
  import opened Arith
  import opened Bytes
  import opened Bson
  import opened BsonRead

  /** The value bytes b that follow the type t and the key. */
  ghost predicate ValueBytes(v: Value, t: Byte, b: seq<Byte>) {
    match v
    case Int(n, wide) =>
      if wide then t == 0x12 && |b| == 8 && Natural(b) == n % 0x1_0000_0000_0000_0000
      else t == 0x10 && |b| == 4 && Natural(b) == n % 0x1_0000_0000
    case Real(bits) => t == 0x01 && |b| == 8 && Natural(b) == bits
    case Text(s) => t == 0x02 && |b| == |s| + 5 && Natural(b[..4]) == |s| + 1 && b[4..|s| + 4] == s && b[|s| + 4] == 0
    case Bool(x) => t == 0x08 && b == [if x then 1 else 0]
    case Mark(m) => t == m && t in {0x0A, 0x7F, 0xFF} && b == []
    case ObjectId(id) => t == 0x07 && b == id && |id| == 12
    case Date(seconds) => t == 0x09 && |b| == 8 && Natural(b) == 1000 * seconds
    case Timestamp(inc, ts) => t == 0x11 && |b| == 8 && Natural(b[..4]) == inc && Natural(b[4..]) == ts
    case Doc(_) => t == 0x03 && DocumentBytes(b)
    case Arr(_) => t == 0x04 && DocumentBytes(b)
  }

  /** A length that counts all bytes, and a zero at the end. */
  ghost predicate DocumentBytes(b: seq<Byte>) {
    |b| >= 5 && b[|b| - 1] == 0 && (|b| < 0x1_0000_0000 ==> Natural(b[..4]) == |b|)
  }

  lemma {:induction false} NumberBytes(v: nat, n: nat)
    requires n == 4 || n == 8
    ensures n == 4 && v < 0x1_0000_0000 ==> Natural(LowFirst(v, n)) == v
    ensures n == 8 && v < 0x1_0000_0000_0000_0000 ==> Natural(LowFirst(v, n)) == v
  {
    Power8();
    assert Power256(2) == 0x1_0000 && Power256(4) == 0x1_0000_0000;
    if v < Power256(n) {
      NaturalOfLowFirst(v, n);
    }
  }

  lemma {:induction false} TextBytes(s: seq<Byte>)
    requires |s| < 0x7fff_ffff
    ensures ValueBytes(Text(s), 0x02, LowFirst(|s| + 1, 4) + (s + [0]))
  {
    var p := LowFirst(|s| + 1, 4);
    NumberBytes(|s| + 1, 4);
    hide LowFirst, Natural;
    assert (p + (s + [0]))[..4] == p && (p + (s + [0]))[4..|s| + 4] == s;
  }

  lemma {:induction false} StampBytes(inc: nat, ts: nat)
    requires inc < 0x1_0000_0000 && ts < 0x1_0000_0000
    ensures ValueBytes(Timestamp(inc, ts), 0x11, LowFirst(inc, 4) + LowFirst(ts, 4))
  {
    var a, b := LowFirst(inc, 4), LowFirst(ts, 4);
    NumberBytes(inc, 4);
    NumberBytes(ts, 4);
    hide LowFirst, Natural;
    assert (a + b)[..4] == a && (a + b)[4..] == b;
  }

  lemma {:induction false} FramedBytes(body: seq<Byte>)
    ensures DocumentBytes(Framed(body))
  {
    var p := LowFirst(|body| + 5, 4);
    if |body| + 5 < 0x1_0000_0000 {
      NumberBytes(|body| + 5, 4);
    }
    hide LowFirst, Natural;
    assert (p + (body + [0]))[..4] == p;
  }

  lemma {:induction false} PayloadBytes(v: Value)
    requires Storable(v)
    ensures ValueBytes(v, Tag(v), Payload(v))
  {
    hide LowFirst, Natural, Framed, Elements;
    match v
    case Int(n, wide) =>
      NumberBytes(n % 0x1_0000_0000_0000_0000, 8);
      NumberBytes(n % 0x1_0000_0000, 4);
    case Real(bits) => NumberBytes(bits, 8);
    case Text(s) => TextBytes(s);
    case Date(t) => NumberBytes(t * 1000, 8);
    case Timestamp(inc, ts) => StampBytes(inc, ts);
    case Doc(_) => FramedBytes(Elements(v, 0));
    case Arr(_) => FramedBytes(Elements(v, 0));
    case _ =>
  }

  /** An element: the type, the key, a zero, and the value. */
  lemma {:induction false} ElementBytes(key: seq<Byte>, v: Value)
    requires Storable(v)
    ensures var s, n := Element(key, v), |key|;
            |s| >= n + 2 && s[1..n + 1] == key && s[n + 1] == 0 && ValueBytes(v, s[0], s[n + 2..])
  {
    PayloadBytes(v);
    hide Payload, Tag, ValueBytes, Storable;
    var s, n := Element(key, v), |key|;
    assert s[1..n + 1] == key && s[n + 2..] == Payload(v);
  }

  /** The last character of a key is the last decimal digit, and the others are the key of the number without it. */
  lemma {:induction false} KeyDigits(i: nat)
    ensures var s := NumStr(i);
            && s[|s| - 1] == "0123456789"[i % 10] as int
            && s[..|s| - 1] == if i < 10 then [] else NumStr(i / 10)
  {
  }

  /** The elements of a document follow each other in order, the keys of an array being its indices in decimal. */
  lemma {:induction false} ElementsInOrder(v: Value, i: nat)
    requires IsTable(v) && i <= Count(v)
    ensures i == Count(v) ==> Elements(v, i) == []
    ensures i < Count(v) && v.Doc? ==>
              Elements(v, i) == Element(v.fields[i].key, v.fields[i].value) + Elements(v, i + 1)
    ensures i < Count(v) && v.Arr? ==>
              exists key :: Elements(v, i) == Element(key, v.items[i]) + Elements(v, i + 1)
                            && StrTol(key) == i && forall k | 0 <= k < |key| :: 48 <= key[k] <= 57
  {
    if i < Count(v) && v.Arr? {
      IndexFromKey(i);
      NumStrDigits(i);
      assert Elements(v, i) == Element(NumStr(i), v.items[i]) + Elements(v, i + 1);
    }
  }

  /** What has no type of its own in Lua is a string: a zero, the type, and the bytes. */
  lemma {:induction false} LuaForms(id: seq<Byte>, t: nat, u: nat)
    ensures ToLua(Mark(0x0A)) == String([0, 0x0A]) && ToLua(ObjectId(id)) == String([0, 0x07] + id)
    ensures t < 0x1_0000_0000 ==>
              var s := ToLua(Date(t)); s.String? && |s.s| == 6 && s.s[..2] == [0, 0x09] && Natural(s.s[2..]) == t
    ensures t < 0x1_0000_0000 && u < 0x1_0000_0000 ==>
              var s := ToLua(Timestamp(t, u));
              s.String? && |s.s| == 10 && s.s[..2] == [0, 0x11] && Natural(s.s[2..6]) == t && Natural(s.s[6..]) == u
  {
    NumberBytes(t, 4);
    NumberBytes(u, 4);
    hide LowFirst, Natural;
    var a, b := LowFirst(t, 4), LowFirst(u, 4);
    assert ([0, 0x09] + a)[..2] == [0, 0x09] && ([0, 0x09] + a)[2..] == a;
    var s := [0, 0x11] + (a + b);
    assert s[..2] == [0, 0x11] && s[2..6] == a && s[6..] == b;
  }
}
