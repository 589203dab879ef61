/** What string.unpack reads and string.packsize counts for the items that a format spells, and that every format that
    packs spells some. */
module UnpackMeaning {
  import opened Arith
  import opened Bytes
  import opened CStrings
  import opened Options
  import opened Pack
  import opened PackMeaning

  // ---- What is read ----

  /** The value of an item that begins at at: a number by what it is modulo the size of its bytes. */
  ghost predicate Reads(it: Item, little: bool, native: bool, data: seq<Byte>, at: nat, v: Value)
    requires at + SizeOf(it) <= |data|
  {
    var s := data[at..at + SizeOf(it)];
    match it
    case SignedInt(size) =>
      && v.Int? && 0 <= 2 * v.n + Power256(size) < 2 * Power256(size)
      && v.n % Power256(size) == Natural(FromLowest(s, little))
    case UnsignedInt(size) =>
      && v.Int? && v.n % 0x1_0000_0000_0000_0000 == Natural(FromLowest(s, little)) && (size < 8 ==> v.n >= 0)
    case Number(size) => v.Float? && v.image == FromLowest(s, little == native)
    case Chars(n) => v.Str? && v.s == s
    case Counted(size) =>
      && v.Str? && |v.s| == Natural(FromLowest(s, little)) < 0x1_0000_0000_0000_0000
      && at + size + |v.s| <= |data| && v.s == data[at + size..at + size + |v.s|]
    case Zero =>
      && v.Str? && |v.s| == (ZeroAt(data, at) - at) % 0x1_0000_0000 <= 0x7fff_ffff
      && at + |v.s| <= |data| && v.s == data[at..at + |v.s|]
    case _ => false
  }

  lemma {:induction false} SignedIs(n: int, v: nat, size: nat)
    requires v < Power256(size)
    ensures Signed(v, size) == n <==> n % Power256(size) == v && 0 <= 2 * n + Power256(size) < 2 * Power256(size)
  {
    var p := Power256(size);
    if 2 * v >= p {
      DivModUnique(v - p, p, -1, v);
    } else {
      DivModUnique(v, p, 0, v);
    }
    if 0 <= 2 * n + p < 2 * p {
      if n < 0 {
        DivModUnique(n, p, -1, n + p);
      } else {
        DivModUnique(n, p, 0, n);
      }
    }
  }

  lemma {:induction false} UnsignedIs(n: Integer, v: nat, size: nat)
    requires v < Power256(size)
    ensures size < 8 ==> v < WIDE / 2 && (n == v <==> n % WIDE == v && n >= 0)
    ensures v < WIDE ==> (ToInteger(v) == n <==> n % WIDE == v)
  {
    Power8();
    if size < 8 {
      PowerGrows(size, 7);
      assert Power256(8) == 256 * Power256(7);
    }
    SignedIs(n, n % WIDE, 8);
  }

  /** What the bytes of an integer are read as. */
  lemma {:induction false} IntValueIs(kind: Kind, s: seq<Byte>, n: Integer)
    requires kind == Kint || kind == Kuint
    ensures kind == Kint ==> (IntValue(kind, s) == Some(n) <==>
                                n % Power256(|s|) == Natural(s) && 0 <= 2 * n + Power256(|s|) < 2 * Power256(|s|))
    ensures kind == Kuint ==> (IntValue(kind, s) == Some(n) <==> n % WIDE == Natural(s) && (|s| < 8 ==> n >= 0))
  {
    NaturalBound(s);
    SignedIs(n, Natural(s), |s|);
    UnsignedIs(n, Natural(s), |s|);
    hide Natural, Power256, Signed, ToInteger;
  }

  lemma {:induction false} IntRead(it: Item, h: Header, data: seq<Byte>, at: nat, v: Value, end: nat, next: nat)
    requires (it.SignedInt? || it.UnsignedInt?) && at + SizeOf(it) <= |data|
    ensures Decode(Opt(KindOf(it), SizeOf(it), h, next), h.little, data, at) == Some((v, end)) <==>
              Reads(it, h.little, h.native, data, at, v) && end == at + SizeOf(it)
  {
    hide IntValue, FromLowest, InOrder, Natural, Power256;
    var s := data[at..at + SizeOf(it)];
    FromLowestIs(s, h.little);
    if v.Int? {
      IntValueIs(KindOf(it), InOrder(s, h.little), v.n);
    }
  }

  lemma {:induction false} CountedRead(size: nat, h: Header, data: seq<Byte>, at: nat, v: Value, end: nat, next: nat)
    requires at + size <= |data|
    ensures Decode(Opt(Kstring, size, h, next), h.little, data, at) == Some((v, end)) <==>
              Reads(Counted(size), h.little, h.native, data, at, v) && end == at + Extent(Counted(size), v)
  {
    hide IntValue, FromLowest, InOrder, Natural, Power256;
    var s := data[at..at + size];
    FromLowestIs(s, h.little);
    var t := InOrder(s, h.little);
    NaturalFits(t);
    var n := IntValue(Kuint, t);
    if n.Some? {
      IntValueIs(Kuint, t, n.value);
      Complement64Is(n.value);
    }
  }

  lemma {:induction false} Complement64Is(n: Integer)
    ensures Complement64(n) == n % WIDE
  {
    if n < 0 {
      DivModUnique(n, WIDE, -1, n + WIDE);
    } else {
      DivModUnique(n, WIDE, 0, n);
    }
  }

  /** A number of less than 64 bits has a value. */
  lemma {:induction false} NaturalFits(t: seq<Byte>)
    ensures IntValue(Kuint, t).Some? <==> Natural(t) < WIDE
  {
    NaturalBound(t);
    Power8();
    if |t| < 8 {
      PowerGrows(|t|, 8);
    }
  }

  lemma {:induction false} TextRead(it: Item, h: Header, data: seq<Byte>, at: nat, v: Value, end: nat, next: nat)
    requires (it.Number? || it.Chars? || it.Zero?) && at + SizeOf(it) <= |data|
    ensures Decode(Opt(KindOf(it), SizeOf(it), h, next), h.little, data, at) == Some((v, end)) <==>
              Reads(it, h.little, h.native, data, at, v) && end == at + Extent(it, v)
  {
    hide FromLowest, InOrder, ZeroAt;
    FromLowestIs(data[at..at + SizeOf(it)], h.little == h.native);
  }

  lemma {:induction false} ValueRead(it: Item, h: Header, data: seq<Byte>, at: nat, v: Value, end: nat, next: nat)
    requires Takes(it) && at + SizeOf(it) <= |data|
    ensures Decode(Opt(KindOf(it), SizeOf(it), h, next), h.little, data, at) == Some((v, end)) <==>
              Reads(it, h.little, h.native, data, at, v) && end == at + Extent(it, v)
  {
    hide Decode, Reads;
    match it
    case SignedInt(_) => IntRead(it, h, data, at, v, end, next);
    case UnsignedInt(_) => IntRead(it, h, data, at, v, end, next);
    case Counted(size) => CountedRead(size, h, data, at, v, end, next);
    case _ => TextRead(it, h, data, at, v, end, next);
  }

  // ---- A whole format ----

  /** The values are what the items mean in the data from pos on, and the last one ends at end. */
  ghost predicate UnpackMeans(items: seq<Item>, h: Header, data: seq<Byte>, pos: nat, values: seq<Value>, end: nat)
    decreases |items|
  {
    if items == [] then values == [] && end == pos
    else
      var it := items[0];
      PowerOfTwo(AlignOf(it, h.maxalign))
      && var at := pos + Pad(pos, AlignOf(it, h.maxalign));
      && at + SizeOf(it) <= |data|
      && if Takes(it) then
           && values != [] && Reads(it, h.little, h.native, data, at, values[0])
           && UnpackMeans(items[1..], After(it, h), data, at + Extent(it, values[0]), values[1..], end)
         else UnpackMeans(items[1..], After(it, h), data, at + SizeOf(it), values, end)
  }

  lemma {:induction false} UnpackItem(fmt: seq<char>, p: nat, it: Item, q: nat, h: Header, data: seq<Byte>, pos: nat)
    requires Stands(fmt, p, it, q) && Moderate(it) && h.maxalign >= 1
    ensures AlignOf(it, h.maxalign) >= 1
    ensures var a := AlignOf(it, h.maxalign);
            UnpackFrom(h, fmt, p, data, pos) ==
            if !PowerOfTwo(a) || pos + Pad(pos, a) + SizeOf(it) > |data| then None
            else
              var at := pos + Pad(pos, a);
              if !Takes(it) then UnpackFrom(After(it, h), fmt, q, data, at + SizeOf(it))
              else match Decode(Opt(KindOf(it), SizeOf(it), h, q), h.little, data, at)
                case None => None
                case Some(v) => Push(v.0, UnpackFrom(After(it, h), fmt, q, data, v.1))
  {
    hide Stands, DetailAt, Decode, Pad, AlignOf, PowerOfTwo, After, KindOf, SizeOf, Takes, TakesArgument, Moderate,
      Push;
    AlignPositive(it, h);
    StandsSome(fmt, p, it, q);
    DetailRead(h, fmt, p, it, q);
    HeaderAfter(fmt, p, it, q, h);
  }

  lemma {:induction false} UnpackMeansItem(items: seq<Item>, h: Header, data: seq<Byte>, pos: nat, values: seq<Value>,
                                           end: nat, it: Item)
    requires items != [] && it == items[0] && h.maxalign >= 1
    ensures AlignOf(it, h.maxalign) >= 1
    ensures var at := pos + Pad(pos, AlignOf(it, h.maxalign));
            UnpackMeans(items, h, data, pos, values, end) <==>
              && PowerOfTwo(AlignOf(it, h.maxalign)) && at + SizeOf(it) <= |data|
              && if Takes(it) then
                   && values != [] && Reads(it, h.little, h.native, data, at, values[0])
                   && UnpackMeans(items[1..], After(it, h), data, at + Extent(it, values[0]), values[1..], end)
                 else UnpackMeans(items[1..], After(it, h), data, at + SizeOf(it), values, end)
  {
    hide AlignOf, PowerOfTwo, Pad, Takes, Reads, After, Extent, SizeOf;
    AlignPositive(it, h);
  }

  lemma {:induction false} PushIs(v: Value, r: Option<(seq<Value>, nat)>, values: seq<Value>, end: nat)
    ensures Push(v, r) == Some((values, end)) <==> values != [] && v == values[0] && r == Some((values[1..], end))
  {
    if values != [] {
      assert values == [values[0]] + values[1..];
      PushSame(v, values[0], r, values[1..], end);
    }
  }

  /** What unpack makes of a format and any data is what the items that the format spells mean. */
  lemma {:induction false} UnpackIs(fmt: seq<char>, p: nat, items: seq<Item>, h: Header, data: seq<Byte>, pos: nat,
                                    values: seq<Value>, end: nat)
    requires Spells(fmt, p, items) && AllModerate(items) && h.maxalign >= 1
    ensures UnpackFrom(h, fmt, p, data, pos) == Some((values, end)) <==>
              UnpackMeans(items, h, data, pos, values, end)
    decreases |items|
  {
    hide *;
    if items == [] {
      NothingUnpacked(fmt, p, items, h, data, pos, values, end);
    } else {
      var it, q := FirstSpelled(fmt, p, items);
      UnpackItem(fmt, p, it, q, h, data, pos);
      HeaderAfter(fmt, p, it, q, h);
      UnpackMeansItem(items, h, data, pos, values, end, it);
      var at := pos + Pad(pos, AlignOf(it, h.maxalign));
      if at + SizeOf(it) <= |data| {
        if !Takes(it) {
          UnpackIs(fmt, q, items[1..], After(it, h), data, at + SizeOf(it), values, end);
        } else {
          var r := Decode(Opt(KindOf(it), SizeOf(it), h, q), h.little, data, at);
          if r.Some? {
            var (v, e) := r.value;
            ValueRead(it, h, data, at, v, e, q);
            PushIs(v, UnpackFrom(After(it, h), fmt, q, data, e), values, end);
          }
          if values != [] {
            var e := at + Extent(it, values[0]);
            ValueRead(it, h, data, at, values[0], e, q);
            UnpackIs(fmt, q, items[1..], After(it, h), data, e, values[1..], end);
          }
        }
      }
    }
  }

  lemma {:induction false} NothingUnpacked(fmt: seq<char>, p: nat, items: seq<Item>, h: Header, data: seq<Byte>,
                                           pos: nat, values: seq<Value>, end: nat)
    requires Spells(fmt, p, items) && items == []
    ensures UnpackFrom(h, fmt, p, data, pos) == Some((values, end)) <==>
              UnpackMeans(items, h, data, pos, values, end)
  {
  }

  // ---- packsize ----

  /** The size of all items with their padding, unless one has no fixed size or the total passes an int. */
  function SizeMeans(items: seq<Item>, h: Header, total: nat): Option<nat>
    decreases |items|
  {
    if items == [] then Some(total)
    else
      var it := items[0];
      if !PowerOfTwo(AlignOf(it, h.maxalign)) || it.Counted? || it.Zero? then None
      else
        var n := total + Pad(total, AlignOf(it, h.maxalign)) + SizeOf(it);
        if n > 0x7fff_ffff then None else SizeMeans(items[1..], After(it, h), n)
  }

  lemma {:induction false} SizeItem(fmt: seq<char>, p: nat, it: Item, q: nat, h: Header, total: nat)
    requires Stands(fmt, p, it, q) && Moderate(it) && h.maxalign >= 1
    ensures AlignOf(it, h.maxalign) >= 1
    ensures var a := AlignOf(it, h.maxalign);
            SizeFrom(h, fmt, p, total) ==
            if !PowerOfTwo(a) || it.Counted? || it.Zero? || total + Pad(total, a) + SizeOf(it) > MAXSIZE then None
            else SizeFrom(After(it, h), fmt, q, total + Pad(total, a) + SizeOf(it))
  {
    hide Stands, DetailAt, Pad, AlignOf, PowerOfTwo, After, SizeOf, Moderate;
    AlignPositive(it, h);
    StandsSome(fmt, p, it, q);
    DetailRead(h, fmt, p, it, q);
  }

  /** What packsize makes of a format is what the items that it spells mean. */
  lemma {:induction false} SizeIs(fmt: seq<char>, p: nat, items: seq<Item>, h: Header, total: nat)
    requires Spells(fmt, p, items) && AllModerate(items) && h.maxalign >= 1
    ensures SizeFrom(h, fmt, p, total) == SizeMeans(items, h, total)
    decreases |items|
  {
    hide *;
    SizeMeansItem(fmt, p, items, h, total);
    if items != [] {
      var it, q := FirstSpelled(fmt, p, items);
      SizeItem(fmt, p, it, q, h, total);
      HeaderAfter(fmt, p, it, q, h);
      SizeIs(fmt, q, items[1..], After(it, h), total + Pad(total, AlignOf(it, h.maxalign)) + SizeOf(it));
    }
  }

  lemma {:induction false} SizeMeansItem(fmt: seq<char>, p: nat, items: seq<Item>, h: Header, total: nat)
    requires Spells(fmt, p, items) && h.maxalign >= 1
    ensures items == [] ==> SizeFrom(h, fmt, p, total) == Some(total) == SizeMeans(items, h, total)
    ensures items != [] ==>
              var it := items[0];
              AlignOf(it, h.maxalign) >= 1
              && var n := total + Pad(total, AlignOf(it, h.maxalign)) + SizeOf(it);
                 SizeMeans(items, h, total) ==
                 if !PowerOfTwo(AlignOf(it, h.maxalign)) || it.Counted? || it.Zero? || n > MAXSIZE then None
                 else SizeMeans(items[1..], After(it, h), n)
  {
    hide Pad, AlignOf, PowerOfTwo, After, SizeOf, Stands;
    if items != [] {
      AlignPositive(items[0], h);
    }
  }

  // ---- Every format that packs spells items ----

  lemma {:induction false} NumeralStops(fmt: seq<char>, r: nat, a: nat)
    ensures !(r < |fmt| && IsDigit(fmt[r]) && 10 * a <= LONGEST) ==> Pack.Numeral(fmt, r, a) == (a, r)
  {
  }

  /** The numeral that the code reads is one, and it is read to its end unless the number is very large. */
  lemma {:induction false} NumeralBack(fmt: seq<char>, p: nat, r: nat, n: nat, q: nat)
    requires p < r <= |fmt| && forall i | p <= i < r :: IsDigit(fmt[i])
    requires DecimalValue(fmt[p..r]) <= LONGEST && Pack.Numeral(fmt, r, DecimalValue(fmt[p..r])) == (n, q)
    ensures n <= LONGEST && (!IsDigit(At(fmt, q)) ==> IsNumeral(fmt, p, q, n))
    ensures IsDigit(At(fmt, q)) ==> n > 16
    decreases |fmt| - r
  {
    hide Pack.Numeral, DecimalValue;
    NumeralStops(fmt, r, DecimalValue(fmt[p..r]));
    if r < |fmt| && IsDigit(fmt[r]) && 10 * DecimalValue(fmt[p..r]) <= LONGEST {
      NumeralStep(fmt, p, r + 1, r);
      DigitRead(fmt, r, DecimalValue(fmt[p..r]));
      NumeralBack(fmt, p, r + 1, n, q);
    }
  }

  lemma {:induction false} NumeralFromStart(fmt: seq<char>, p: nat, n: nat, q: nat)
    requires p < |fmt| && IsDigit(fmt[p]) && Pack.Numeral(fmt, p, 0) == (n, q)
    ensures n <= LONGEST && (!IsDigit(At(fmt, q)) ==> IsNumeral(fmt, p, q, n)) && (IsDigit(At(fmt, q)) ==> n > 16)
  {
    assert fmt[p..p] == [];
    NumeralStep(fmt, p, p + 1, p);
    DigitRead(fmt, p, 0);
    NumeralBack(fmt, p, p + 1, n, q);
  }

  lemma {:induction false} SizedBack(fmt: seq<char>, p: nat, default: nat, n: nat, q: nat)
    requires p < |fmt| && 1 <= default <= 16 && Limited(fmt, p + 1, default) == Some((n, q))
    ensures HasSize(fmt, p, q, fmt[p], n, default)
  {
    hide Pack.Numeral, IsNumeral;
    if IsDigit(At(fmt, p + 1)) {
      NumeralFromStart(fmt, p + 1, n, q);
    }
  }

  /** An option that the code reads is an item, unless its numeral is cut short. */
  lemma {:induction false} OptionBack(h: Header, fmt: seq<char>, p: nat, o: Opt) returns (it: Item)
    requires p < |fmt| && OptionAt(h, fmt, p) == Some(o) && o.kind != Kpaddalign && !IsDigit(At(fmt, o.next))
    ensures Stands(fmt, p, it, o.next) && Moderate(it) && SizeOf(it) == o.size && KindOf(it) == o.kind
  {
    hide Limited, Pack.Numeral, IsNumeral, HasSize;
    var q := o.next;
    match fmt[p]
    case 'b' => it := SignedInt(1);
    case 'B' => it := UnsignedInt(1);
    case 'h' => it := SignedInt(2);
    case 'H' => it := UnsignedInt(2);
    case 'l' => it := SignedInt(8);
    case 'L' => it := UnsignedInt(8);
    case 'j' => it := SignedInt(8);
    case 'J' => it := UnsignedInt(8);
    case 'T' => it := UnsignedInt(8);
    case 'f' => it := Number(4);
    case 'd' => it := Number(8);
    case 'n' => it := Number(8);
    case 'i' =>
      SizedBack(fmt, p, 4, o.size, q);
      it := SignedInt(o.size);
    case 'I' =>
      SizedBack(fmt, p, 4, o.size, q);
      it := UnsignedInt(o.size);
    case 's' =>
      SizedBack(fmt, p, 8, o.size, q);
      it := Counted(o.size);
    case 'c' =>
      NumeralFromStart(fmt, p + 1, o.size, q);
      it := Chars(o.size);
    case 'z' => it := Zero;
    case 'x' => it := Padding;
    case '<' => it := Little;
    case '>' => it := Big;
    case '=' => it := Native;
    case ' ' => it := Blank;
    case _ =>
      SizedBack(fmt, p, 8, o.h.maxalign, q);
      it := MaxAlign(o.h.maxalign);
  }

  lemma {:induction false} NoDigitOption(h: Header, fmt: seq<char>, p: nat)
    requires IsDigit(At(fmt, p))
    ensures p < |fmt| && OptionAt(h, fmt, p) == None && DetailAt(h, fmt, p) == None
    ensures forall args, total :: PackFrom(h, fmt, p, args, total) == None
  {
  }

  /** The item that stands where pack goes on. */
  lemma {:induction false} ItemBack(h: Header, fmt: seq<char>, p: nat, d: Detail) returns (it: Item)
    requires p < |fmt| && DetailAt(h, fmt, p) == Some(d) && !IsDigit(At(fmt, d.o.next))
    ensures Stands(fmt, p, it, d.o.next) && Moderate(it)
  {
    hide OptionAt, Stands, Moderate, KindOf, SizeOf;
    var o := OptionAt(h, fmt, p).value;
    if o.kind != Kpaddalign {
      it := OptionBack(h, fmt, p, o);
    } else {
      IsAlignMark(h, fmt, p, o);
      var x := OptionAt(o.h, fmt, o.next).value;
      SizelessAlign(o.h, fmt, o.next);
      var other := OptionBack(o.h, fmt, o.next, x);
      AlignLikeStands(fmt, p, other, x.next);
      it := AlignLike(other);
    }
  }

  lemma {:induction false} IsAlignMark(h: Header, fmt: seq<char>, p: nat, o: Opt)
    requires p < |fmt| && OptionAt(h, fmt, p) == Some(o) && o.kind == Kpaddalign
    ensures fmt[p] == 'X' && o.next == p + 1
  {
  }

  lemma {:induction false} SizelessAlign(h: Header, fmt: seq<char>, p: nat)
    requires p < |fmt| && OptionAt(h, fmt, p).Some?
    ensures OptionAt(h, fmt, p).value.kind == Kpaddalign ==> OptionAt(h, fmt, p).value.size == 0
  {
  }

  lemma {:induction false} AlignLikeStands(fmt: seq<char>, p: nat, other: Item, q: nat)
    requires p < |fmt| && fmt[p] == 'X' && Stands(fmt, p + 1, other, q) && KindOf(other) != Kchar && SizeOf(other) > 0
    ensures Stands(fmt, p, AlignLike(other), q) && Moderate(AlignLike(other))
  {
  }

  /** A format that packs something spells items. */
  lemma {:induction false} Spelled(h: Header, fmt: seq<char>, p: nat, args: seq<Value>, total: nat)
    returns (items: seq<Item>)
    requires PackFrom(h, fmt, p, args, total).Some?
    ensures Spells(fmt, p, items) && AllModerate(items)
    decreases |fmt| - p
  {
    hide Encode, Pad, DetailAt, Stands, Moderate;
    if At(fmt, p) == '\0' {
      items := [];
    } else {
      var d, pad, bs, left, tail := PackStep(h, fmt, p, args, total);
      if IsDigit(At(fmt, d.o.next)) {
        NoDigitOption(d.o.h, fmt, d.o.next);
      }
      var it := ItemBack(h, fmt, p, d);
      var rest := Spelled(d.o.h, fmt, d.o.next, left, total + |pad| + |bs|);
      items := [it] + rest;
      assert items[1..] == rest;
      assert forall i | 0 < i < |items| :: items[i] == rest[i - 1];
    }
  }

  /** pack succeeds with s exactly when the format spells items that mean s. */
  lemma {:induction false} PackIff(fmt: seq<char>, args: seq<Value>, native: bool, s: seq<Byte>)
    ensures PackFrom(Header(native, 1, native), fmt, 0, args, 0) == Some(s) <==>
              exists items :: Spells(fmt, 0, items) && AllModerate(items)
                              && PackMeans(items, Header(native, 1, native), args, 0, s)
  {
    var h := Header(native, 1, native);
    hide PackFrom, PackMeans, Spells, AllModerate;
    if PackFrom(h, fmt, 0, args, 0) == Some(s) {
      var items := Spelled(h, fmt, 0, args, 0);
      PackIs(fmt, 0, items, h, args, 0, s);
    }
    forall items | Spells(fmt, 0, items) && AllModerate(items) && PackMeans(items, h, args, 0, s)
      ensures PackFrom(h, fmt, 0, args, 0) == Some(s)
    {
      PackIs(fmt, 0, items, h, args, 0, s);
    }
  }

  lemma {:induction false} ShortSpelled(little: bool) returns (fmt: string, items: seq<Item>)
    ensures fmt == (if little then "<h" else ">h") && items == [if little then Little else Big, SignedInt(2)]
    ensures Spells(fmt, 0, items) && AllModerate(items)
  {
    fmt := if little then "<h" else ">h";
    items := [if little then Little else Big, SignedInt(2)];
    assert Stands(fmt, 0, items[0], 1) && Stands(fmt, 1, items[1], 2);
    assert items[1..][1..] == [] && Spells(fmt, 2, []);
    assert items[1..][0] == items[1] && Spells(fmt, 1, items[1..]);
  }

  lemma {:induction false} TwoBytes(lo: Byte, hi: Byte)
    ensures Natural([lo, hi]) == lo + 256 * hi
  {
    var t, u := [lo, hi], [hi];
    assert t[1..] == u && u[1..] == [];
    assert Natural(u) == u[0] + 256 * Natural(u[1..]);
    assert Natural(t) == t[0] + 256 * Natural(t[1..]);
  }

  lemma {:induction false} ShortMeans(little: bool, native: bool, n: Integer, lo: Byte, hi: Byte)
    requires -0x8000 <= n < 0x8000 && lo + 256 * hi == n % 0x1_0000
    ensures PackMeans([SignedInt(2)], Header(little, 1, native), [Int(n)], 0, if little then [lo, hi] else [hi, lo])
  {
    var s := if little then [lo, hi] else [hi, lo];
    var t := FromLowest(s, little);
    assert t == [lo, hi];
    TwoBytes(lo, hi);
    assert Power256(1) == 256 && Power256(2) == 0x1_0000;
    assert Image(SignedInt(2), little, native, Int(n), s);
    assert s[..0] == [] && s[0..] == s && s[..2] == s && s[2..] == [];
    assert Packed(SignedInt(2), Header(little, 1, native), [Int(n)], 0, s);
  }

  /** A short integer in both byte orders, lowest byte first and last. */
  lemma {:induction false} Shorts(n: Integer, lo: Byte, hi: Byte, native: bool)
    requires -0x8000 <= n < 0x8000 && lo + 256 * hi == n % 0x1_0000
    ensures PackFrom(Header(native, 1, native), "<h", 0, [Int(n)], 0) == Some([lo, hi])
    ensures PackFrom(Header(native, 1, native), ">h", 0, [Int(n)], 0) == Some([hi, lo])
  {
    hide PackFrom, Spells, PackMeans;
    var fmt, items := ShortSpelled(true);
    ShortMeans(true, native, n, lo, hi);
    OrderFirst(true, native, [Int(n)], [lo, hi]);
    PackIs(fmt, 0, items, Header(native, 1, native), [Int(n)], 0, [lo, hi]);
    fmt, items := ShortSpelled(false);
    ShortMeans(false, native, n, lo, hi);
    OrderFirst(false, native, [Int(n)], [hi, lo]);
    PackIs(fmt, 0, items, Header(native, 1, native), [Int(n)], 0, [hi, lo]);
  }

  lemma {:induction false} OrderFirst(little: bool, native: bool, args: seq<Value>, s: seq<Byte>)
    requires PackMeans([SignedInt(2)], Header(little, 1, native), args, 0, s)
    ensures PackMeans([if little then Little else Big, SignedInt(2)], Header(native, 1, native), args, 0, s)
  {
    var items := [if little then Little else Big, SignedInt(2)];
    assert items[1..] == [SignedInt(2)];
    assert s[0..] == s && s[..0] == [];
    MeansItem(items, Header(native, 1, native), args, 0, s, items[0]);
  }
}
