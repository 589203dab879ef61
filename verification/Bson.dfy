/** BSON documents and their bytes. */
module Bson {
  import opened Arith
  import opened Bytes

  const REAL: Byte := 1
  const STRING: Byte := 2
  const DOCUMENT: Byte := 3
  const ARRAY: Byte := 4
  const OBJECTID: Byte := 7
  const BOOLEAN: Byte := 8
  const DATE: Byte := 9
  const NULL: Byte := 10
  const INT32: Byte := 16
  const TIMESTAMP: Byte := 17
  const INT64: Byte := 18
  const MAXKEY: Byte := 127
  const MINKEY: Byte := 255

  /**
   * A value. An integer carries the width it is stored in; a real is the 64-bit image of the double;
   * a mark is null, the least or the greatest key, by its type.
   */
  datatype Value =
    | Int(n: int, wide: bool)
    | Real(bits: nat)
    | Text(s: seq<Byte>)
    | Bool(b: bool)
    | Mark(t: Byte)
    | ObjectId(id: seq<Byte>)
    | Date(seconds: nat)
    | Timestamp(inc: nat, ts: nat)
    | Doc(fields: seq<Field>)
    | Arr(items: seq<Value>)

  datatype Field = Field(key: seq<Byte>, value: Value)

  const WORD: int := 0x1_0000_0000

  predicate IsMark(t: Byte) {
    t == NULL || t == MINKEY || t == MAXKEY
  }

  /** The value can be stored and read back as it is. */
  ghost predicate Storable(v: Value)
    decreases v
  {
    match v
    case Int(n, wide) =>
      if wide then -0x8000_0000_0000_0000 <= n < 0x8000_0000_0000_0000 else -0x8000_0000 <= n < 0x8000_0000
    case Real(bits) => bits < WIDE
    case Text(s) => !(|s| > 1 && s[0] == 0) && |s| < 0x7fff_ffff
    case Bool(_) => true
    case Mark(t) => IsMark(t)
    case ObjectId(id) => |id| == 12
    case Date(t) => t < WORD
    case Timestamp(inc, ts) => inc < WORD && ts < WORD
    case Doc(fields) => forall i | 0 <= i < |fields| :: 0 !in fields[i].key && Storable(fields[i].value)
    case Arr(items) => forall i | 0 <= i < |items| :: Storable(items[i])
  }

  predicate Small(n: int) {
    -0x8000_0000 <= n < 0x8000_0000
  }

  // ---- The width that the writer picks ----

  /** The cast of a 64-bit integer to 32 bits. */
  function Truncated(n: int): (r: int)
    ensures Small(r) && r % WORD == n % WORD && (Small(n) ==> r == n)
  {
    var m := n % WORD;
    if m < 0x8000_0000 then m else m - WORD
  }

  /** The code takes an integer for a small one when its bits from 31 on, cut to 32, are all equal. */
  function PicksSmall(n: int): bool {
    var si := Truncated(n / 0x8000_0000);
    si == 0 || si == -1
  }

  function Stored(n: int): Value {
    if PicksSmall(n) then Int(Truncated(n), false) else Int(n, true)
  }

  /** The two ranges at the ends of 64 bits that look small when their sign is cut off. */
  predicate Extreme(n: int) {
    n < -0x8000_0000_0000_0000 + 0x8000_0000 || n >= 0x8000_0000_0000_0000 - 0x8000_0000
  }

  /** The width is the right one, and the integer is stored as it is, exactly when it is not at the ends of 64 bits. */
  lemma {:induction false} WidthRightIff(n: int)
    requires -0x8000_0000_0000_0000 <= n < 0x8000_0000_0000_0000
    ensures PicksSmall(n) == Small(n) <==> !Extreme(n)
    ensures Stored(n).n == n <==> !Extreme(n)
  {
    var q := n / 0x8000_0000;
    assert -0x1_0000_0000 <= q < 0x1_0000_0000;
    assert q % WORD == if q < 0 then q + WORD else q;
  }

  /** The value can be written; the widths it names do not matter. */
  ghost predicate Writable(v: Value)
    decreases v
  {
    match v
    case Int(n, _) => -0x8000_0000_0000_0000 <= n < 0x8000_0000_0000_0000
    case Doc(fields) => forall i | 0 <= i < |fields| :: 0 !in fields[i].key && Writable(fields[i].value)
    case Arr(items) => forall i | 0 <= i < |items| :: Writable(items[i])
    case _ => Storable(v)
  }

  /** The value with the integers as the writer stores them. */
  function Picked(v: Value): (w: Value)
    decreases v
  {
    match v
    case Int(n, _) => Stored(n)
    case Doc(fields) =>
      Doc(seq(|fields|, i requires 0 <= i < |fields| => Field(fields[i].key, Picked(fields[i].value))))
    case Arr(items) => Arr(seq(|items|, i requires 0 <= i < |items| => Picked(items[i])))
    case _ => v
  }

  /** No integer in the value is at the ends of 64 bits. */
  ghost predicate Moderate(v: Value)
    decreases v
  {
    match v
    case Int(n, _) => !Extreme(n)
    case Doc(fields) => forall i | 0 <= i < |fields| :: Moderate(fields[i].value)
    case Arr(items) => forall i | 0 <= i < |items| :: Moderate(items[i])
    case _ => true
  }

  lemma {:induction false} PickedStorable(v: Value)
    requires Writable(v)
    ensures Storable(Picked(v))
    decreases v
  {
    match v
    case Doc(fields) =>
      forall i | 0 <= i < |fields|
        ensures Storable(Picked(fields[i].value))
      {
        PickedStorable(fields[i].value);
      }
    case Arr(items) =>
      forall i | 0 <= i < |items|
        ensures Storable(Picked(items[i]))
      {
        PickedStorable(items[i]);
      }
    case _ =>
  }

  function Tag(v: Value): Byte {
    match v
    case Int(_, wide) => if wide then INT64 else INT32
    case Real(_) => REAL
    case Text(_) => STRING
    case Bool(_) => BOOLEAN
    case Mark(t) => t
    case ObjectId(_) => OBJECTID
    case Date(_) => DATE
    case Timestamp(_, _) => TIMESTAMP
    case Doc(_) => DOCUMENT
    case Arr(_) => ARRAY
  }

  /** The decimal digits of i as text. */
  function NumStr(i: nat): (s: seq<Byte>)
    ensures s != [] && 0 !in s
  {
    if i < 10 then [48 + i] else NumStr(i / 10) + [48 + i % 10]
  }

  /** strtol on a key: the number that its leading digits stand for. */
  function StrTol(s: seq<Byte>): nat {
    var n := DigitRun(s);
    Decimal(s[..n])
  }

  function DigitRun(s: seq<Byte>): (n: nat)
    ensures n <= |s| && forall i | 0 <= i < n :: 48 <= s[i] <= 57
  {
    if s == [] || !(48 <= s[0] <= 57) then 0 else 1 + DigitRun(s[1..])
  }

  function Decimal(s: seq<Byte>): nat
    requires forall i | 0 <= i < |s| :: 48 <= s[i] <= 57
  {
    if s == [] then 0 else 10 * Decimal(s[..|s| - 1]) + (s[|s| - 1] - 48)
  }

  lemma {:induction false} AllDigits(s: seq<Byte>)
    requires forall i | 0 <= i < |s| :: 48 <= s[i] <= 57
    ensures DigitRun(s) == |s|
  {
    if s == [] {
    } else {
      AllDigits(s[1..]);
    }
  }

  lemma {:induction false} NumStrDigits(i: nat)
    ensures forall j | 0 <= j < |NumStr(i)| :: 48 <= NumStr(i)[j] <= 57
    ensures Decimal(NumStr(i)) == i
  {
    if i < 10 {
    } else {
      NumStrDigits(i / 10);
      var s := NumStr(i / 10);
      assert (s + [48 + i % 10])[..|s|] == s;
    }
  }

  /** The key of an array element gives its index back. */
  lemma {:induction false} IndexFromKey(i: nat)
    ensures StrTol(NumStr(i)) == i
  {
    NumStrDigits(i);
    AllDigits(NumStr(i));
    assert NumStr(i)[..|NumStr(i)|] == NumStr(i);
  }

  // ---- Documents and arrays alike are numbered elements with keys ----

  predicate IsTable(v: Value) {
    v.Doc? || v.Arr?
  }

  function Count(v: Value): nat {
    match v
    case Doc(fields) => |fields|
    case Arr(items) => |items|
    case _ => 0
  }

  function KeyAt(v: Value, i: nat): seq<Byte>
    requires i < Count(v)
  {
    if v.Arr? then NumStr(i) else v.fields[i].key
  }

  function ValueAt(v: Value, i: nat): (w: Value)
    requires i < Count(v)
    ensures w < v
  {
    if v.Arr? then v.items[i] else v.fields[i].value
  }

  lemma {:induction false} PickedParts(v: Value, i: nat)
    requires IsTable(v)
    ensures IsTable(Picked(v)) && Count(Picked(v)) == Count(v)
    ensures i < Count(v) ==> KeyAt(Picked(v), i) == KeyAt(v, i) && ValueAt(Picked(v), i) == Picked(ValueAt(v, i))
  {
  }

  /** The bytes of a value, without type and key. */
  ghost function Payload(v: Value): seq<Byte>
    decreases v, 2, 0
  {
    match v
    case Int(n, wide) => if wide then LowFirst(n % WIDE, 8) else LowFirst(n % WORD, 4)
    case Real(bits) => LowFirst(bits, 8)
    case Text(s) => LowFirst(|s| + 1, 4) + (s + [0])
    case Bool(b) => [if b then 1 else 0]
    case Mark(_) => []
    case ObjectId(id) => id
    case Date(t) => LowFirst(t * 1000, 8)
    case Timestamp(inc, ts) => LowFirst(inc, 4) + LowFirst(ts, 4)
    case Doc(_) => Framed(Elements(v, 0))
    case Arr(_) => Framed(Elements(v, 0))
  }

  /** Length prefix, body and closing zero; the prefix counts all of it. */
  function Framed(body: seq<Byte>): seq<Byte> {
    LowFirst(|body| + 5, 4) + (body + [0])
  }

  function Head(t: Byte, key: seq<Byte>): seq<Byte> {
    [t] + (key + [0])
  }

  ghost function Element(key: seq<Byte>, v: Value): seq<Byte>
    decreases v, 3, 0
  {
    Head(Tag(v), key) + Payload(v)
  }

  /** The elements of a document or array from the i-th on. */
  ghost function Elements(v: Value, i: nat): seq<Byte>
    decreases v, 1, Count(v) - i
  {
    if i >= Count(v) then [] else Element(KeyAt(v, i), ValueAt(v, i)) + Elements(v, i + 1)
  }
}
