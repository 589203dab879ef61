/** What a format of string.pack means, read off its text, and that pack, unpack and packsize do exactly that. */
module PackMeaning {
  import opened Arith
  import opened Bytes
  import opened CStrings
  import opened Options
  import opened Pack

  datatype Item =
    | Little | Big | Native | Blank | MaxAlign(n: nat)
    | SignedInt(size: nat) | UnsignedInt(size: nat) | Number(size: nat)
    | Chars(n: nat) | Counted(size: nat) | Zero
    | Padding | AlignLike(other: Item)

  // ---- The text of an item ----

  function DigitValue(c: char): (d: nat)
    requires IsDigit(c)
    ensures d < 10 && c == "0123456789"[d]
  {
    (c - '0') as nat
  }

  /** The number that decimal digits stand for. */
  function DecimalValue(s: seq<char>): nat
    requires forall i | 0 <= i < |s| :: IsDigit(s[i])
  {
    if s == [] then 0 else 10 * DecimalValue(s[..|s| - 1]) + DigitValue(s[|s| - 1])
  }

  /** The digits from p to q, and no further, are a numeral for n. */
  predicate IsNumeral(fmt: seq<char>, p: nat, q: nat, n: nat) {
    && p < q <= |fmt| && (forall i | p <= i < q :: IsDigit(fmt[i])) && !IsDigit(At(fmt, q))
    && DecimalValue(fmt[p..q]) == n
  }

  /** The letter at p, and behind it a size from 1 to 16 or none, which means the default. */
  predicate HasSize(fmt: seq<char>, p: nat, q: nat, letter: char, n: nat, default: nat) {
    && At(fmt, p) == letter && 1 <= n <= 16
    && (IsNumeral(fmt, p + 1, q, n) || (q == p + 1 && !IsDigit(At(fmt, q)) && n == default))
  }

  predicate Letter(fmt: seq<char>, p: nat, q: nat, letter: char) {
    At(fmt, p) == letter && q == p + 1
  }

  /** The item stands in the format from p to q. The sizes are those of the usual 64-bit machines. */
  predicate Stands(fmt: seq<char>, p: nat, it: Item, q: nat)
    decreases it
  {
    match it
    case Little => Letter(fmt, p, q, '<')
    case Big => Letter(fmt, p, q, '>')
    case Native => Letter(fmt, p, q, '=')
    case Blank => Letter(fmt, p, q, ' ')
    case MaxAlign(n) => HasSize(fmt, p, q, '!', n, 8)
    case SignedInt(n) =>
      || (Letter(fmt, p, q, 'b') && n == 1) || (Letter(fmt, p, q, 'h') && n == 2)
      || (Letter(fmt, p, q, 'l') && n == 8) || (Letter(fmt, p, q, 'j') && n == 8) || HasSize(fmt, p, q, 'i', n, 4)
    case UnsignedInt(n) =>
      || (Letter(fmt, p, q, 'B') && n == 1) || (Letter(fmt, p, q, 'H') && n == 2) || (Letter(fmt, p, q, 'L') && n == 8)
      || (Letter(fmt, p, q, 'J') && n == 8) || (Letter(fmt, p, q, 'T') && n == 8) || HasSize(fmt, p, q, 'I', n, 4)
    case Number(n) =>
      (Letter(fmt, p, q, 'f') && n == 4) || (Letter(fmt, p, q, 'd') && n == 8) || (Letter(fmt, p, q, 'n') && n == 8)
    case Chars(n) => At(fmt, p) == 'c' && IsNumeral(fmt, p + 1, q, n)
    case Counted(n) => HasSize(fmt, p, q, 's', n, 8)
    case Zero => Letter(fmt, p, q, 'z')
    case Padding => Letter(fmt, p, q, 'x')
    case AlignLike(other) => At(fmt, p) == 'X' && Alignable(other) && Stands(fmt, p + 1, other, q)
  }

  /** Items with a size to align to. */
  predicate Alignable(it: Item) {
    it.SignedInt? || it.UnsignedInt? || it.Number? || it.Counted? || it.Padding?
  }

  /** The items that the format spells from p on, up to its end. */
  ghost predicate Spells(fmt: seq<char>, p: nat, items: seq<Item>)
    decreases |items|
  {
    if items == [] then At(fmt, p) == '\0'
    else exists q: nat :: Stands(fmt, p, items[0], q) && Spells(fmt, q, items[1..])
  }

  // ---- What the code makes of it ----

  function KindOf(it: Item): Kind {
    match it
    case SignedInt(_) => Kint
    case UnsignedInt(_) => Kuint
    case Number(_) => Kfloat
    case Chars(_) => Kchar
    case Counted(_) => Kstring
    case Zero => Kzstr
    case Padding => Kpadding
    case AlignLike(_) => Kpaddalign
    case _ => Knop
  }

  /** The bytes of fixed number. */
  function SizeOf(it: Item): nat {
    match it
    case SignedInt(n) => n
    case UnsignedInt(n) => n
    case Number(n) => n
    case Chars(n) => n
    case Counted(n) => n
    case Padding => 1
    case _ => 0
  }

  function After(it: Item, h: Header): Header {
    match it
    case Little => h.(little := true)
    case Big => h.(little := false)
    case Native => h.(little := h.native)
    case MaxAlign(n) => h.(maxalign := n)
    case _ => h
  }

  /** The largest numeral that is read to its end. */
  const LONGEST: nat := 2147483639

  lemma {:induction false} NumeralStep(fmt: seq<char>, p: nat, q: nat, r: nat)
    requires p <= r < q <= |fmt| && forall i | p <= i < q :: IsDigit(fmt[i])
    ensures DecimalValue(fmt[p..r + 1]) == 10 * DecimalValue(fmt[p..r]) + DigitValue(fmt[r])
  {
    assert fmt[p..r + 1][..r - p] == fmt[p..r];
  }

  lemma {:induction false} NumeralGrows(fmt: seq<char>, p: nat, q: nat, r: nat)
    requires p <= r <= q <= |fmt| && forall i | p <= i < q :: IsDigit(fmt[i])
    ensures DecimalValue(fmt[p..r]) <= DecimalValue(fmt[p..q])
    ensures r < q ==> 10 * DecimalValue(fmt[p..r]) <= DecimalValue(fmt[p..q])
    decreases q - r
  {
    if r == q {
    } else {
      NumeralStep(fmt, p, q, r);
      NumeralGrows(fmt, p, q, r + 1);
    }
  }

  lemma {:induction false} DigitRead(fmt: seq<char>, r: nat, a: nat)
    requires r < |fmt| && IsDigit(fmt[r]) && 10 * a <= LONGEST
    ensures Pack.Numeral(fmt, r, a) == Pack.Numeral(fmt, r + 1, 10 * a + DigitValue(fmt[r]))
  {
  }

  /** The code's reading of a numeral, from any digit on. */
  lemma {:induction false} NumeralRead(fmt: seq<char>, p: nat, q: nat, r: nat, n: nat)
    requires IsNumeral(fmt, p, q, n) && p <= r <= q && n <= LONGEST
    ensures Pack.Numeral(fmt, r, DecimalValue(fmt[p..r])) == (n, q)
    decreases q - r
  {
    if r == q {
    } else {
      NumeralGrows(fmt, p, q, r);
      NumeralStep(fmt, p, q, r);
      NumeralRead(fmt, p, q, r + 1, n);
      hide DecimalValue, IsNumeral;
      DigitRead(fmt, r, DecimalValue(fmt[p..r]));
    }
  }

  lemma {:induction false} NumeralWhole(fmt: seq<char>, p: nat, q: nat, n: nat)
    requires IsNumeral(fmt, p, q, n) && n <= LONGEST
    ensures IsDigit(At(fmt, p)) && Pack.Numeral(fmt, p, 0) == (n, q)
  {
    assert fmt[p..p] == [];
    NumeralRead(fmt, p, q, p, n);
  }

  lemma {:induction false} SizedRead(fmt: seq<char>, p: nat, q: nat, letter: char, n: nat, default: nat)
    requires HasSize(fmt, p, q, letter, n, default) && 1 <= default <= 16
    ensures Limited(fmt, p + 1, default) == Some((n, q))
  {
    hide Pack.Numeral, IsNumeral, DecimalValue;
    if IsNumeral(fmt, p + 1, q, n) {
      NumeralWhole(fmt, p + 1, q, n);
    }
  }

  predicate Moderate(it: Item) {
    it.Chars? ==> it.n <= LONGEST
  }

  /** The code reads the item that stands there. */
  lemma {:induction false} ItemRead(h: Header, fmt: seq<char>, p: nat, it: Item, q: nat)
    requires Stands(fmt, p, it, q) && !it.AlignLike? && Moderate(it)
    ensures p < |fmt| && OptionAt(h, fmt, p) == Some(Opt(KindOf(it), SizeOf(it), After(it, h), q))
  {
    hide Limited, Pack.Numeral, IsNumeral, HasSize;
    SizedChar(fmt, p, q);
    match it
    case MaxAlign(n) => SizedRead(fmt, p, q, '!', n, 8);
    case SignedInt(n) => if HasSize(fmt, p, q, 'i', n, 4) { SizedRead(fmt, p, q, 'i', n, 4); }
    case UnsignedInt(n) => if HasSize(fmt, p, q, 'I', n, 4) { SizedRead(fmt, p, q, 'I', n, 4); }
    case Counted(n) => SizedRead(fmt, p, q, 's', n, 8);
    case Chars(n) => NumeralWhole(fmt, p + 1, q, n);
    case _ =>
  }

  lemma {:induction false} SizedChar(fmt: seq<char>, p: nat, q: nat)
    ensures forall letter, n, default :: HasSize(fmt, p, q, letter, n, default) ==> At(fmt, p) == letter
  {
  }

  predicate PowerOfTwo(a: nat) {
    a in {1, 2, 4, 8, 16}
  }

  /** The alignment of an item: its size, but at most the maximum in force; characters have none. */
  function AlignOf(it: Item, maxalign: nat): nat {
    var size := if it.AlignLike? then SizeOf(it.other) else if it.Chars? then 1 else SizeOf(it);
    if size <= 1 then 1 else Min(size, maxalign)
  }

  /** The whole option with its alignment, or the error of one that is no power of two. */
  lemma {:induction false} DetailRead(h: Header, fmt: seq<char>, p: nat, it: Item, q: nat)
    requires Stands(fmt, p, it, q) && Moderate(it) && h.maxalign >= 1
    ensures p < q <= |fmt|
    ensures var a := AlignOf(it, h.maxalign);
            DetailAt(h, fmt, p) == if PowerOfTwo(a) then Some(Detail(Opt(KindOf(it), SizeOf(it), After(it, h), q), a))
                                   else None
  {
    if it.AlignLike? {
      ItemRead(h, fmt, p + 1, it.other, q);
      assert OptionAt(h, fmt, p) == Some(Opt(Kpaddalign, 0, h, p + 1));
      hide OptionAt, Stands;
    } else {
      ItemRead(h, fmt, p, it, q);
      hide OptionAt, Stands;
    }
  }

  // ---- What it means ----

  /** From the lowest byte up: as it stands in little-endian order, the other way round in big-endian order. */
  function FromLowest(s: seq<Byte>, little: bool): (t: seq<Byte>)
    ensures |t| == |s|
  {
    if little then s else seq(|s|, k requires 0 <= k < |s| => s[|s| - 1 - k])
  }

  /** The bytes of one value: a number by what it is modulo its size, text as it is. */
  ghost predicate Image(it: Item, little: bool, native: bool, v: Value, s: seq<Byte>) {
    match it
    case SignedInt(size) =>
      && v.Int? && |s| == size && Natural(FromLowest(s, little)) == v.n % Power256(size)
      && (size < 8 ==> 0 <= 2 * v.n + Power256(size) < 2 * Power256(size))
    case UnsignedInt(size) =>
      && v.Int? && |s| == size && Natural(FromLowest(s, little)) == v.n % 0x1_0000_0000_0000_0000
      && (size < 8 ==> 0 <= v.n < Power256(size))
    case Number(size) => v.Float? && |s| == size == |v.image| && v.image == FromLowest(s, little == native)
    case Chars(n) => v.Str? && |v.s| == n && s == v.s
    case Counted(size) =>
      && v.Str? && |s| == size + |v.s| && s[size..] == v.s && Natural(FromLowest(s[..size], little)) == |v.s|
      && |v.s| < 0x8000_0000_0000_0000
    case Zero => v.Str? && 0 !in v.s && s == v.s + [0]
    case _ => false
  }

  predicate Takes(it: Item) {
    it.SignedInt? || it.UnsignedInt? || it.Number? || it.Chars? || it.Counted? || it.Zero?
  }

  lemma {:induction false} FromLowestIs(s: seq<Byte>, little: bool)
    ensures FromLowest(s, little) == InOrder(s, little)
  {
    if !little {
      assert FromLowest(s, little) == Reverse(s);
    }
  }

  /** Bytes are determined by their number, and by their order. */
  lemma {:induction false} BytesUnique(s: seq<Byte>, t: seq<Byte>, little: bool)
    requires |s| == |t| && Natural(InOrder(s, little)) == Natural(t)
    ensures s == InOrder(t, little)
  {
    LowFirstOfNatural(InOrder(s, little));
    LowFirstOfNatural(t);
    OrderTwice(s, little);
  }

  /** The number of an integer's bytes. */
  lemma {:induction false} IntBytesNumber(kind: Kind, size: nat, n: Integer)
    requires Fits(kind, size, n) && (kind == Kint || kind == Kuint)
    ensures Natural(IntBytes(kind, size, n)) == if kind == Kint then n % Power256(size) else n % WIDE
  {
    Power8();
    if size >= SZINT {
      PowerGrows(SZINT, size);
    } else {
      PowerGrows(size, 7);
      assert Power256(8) == 256 * Power256(7);
    }
    NaturalOfLowFirst(if size >= SZINT && kind == Kuint then Complement(n, 8) else Complement(n, size), size);
    ComplementIs(n, size);
    ComplementIs(n, 8);
  }

  lemma {:induction false} ComplementIs(n: int, size: nat)
    ensures -(Power256(size) as int) <= n < Power256(size) ==> Complement(n, size) == n % Power256(size)
  {
    var p := Power256(size);
    if 0 <= n < p {
      DivModUnique(n, p, 0, n);
    } else if -p <= n < 0 {
      DivModUnique(n, p, -1, n + p);
    }
  }

  /** The code writes exactly the image of a value. */
  lemma {:induction false} IntImage(it: Item, h: Header, v: Value, s: seq<Byte>, next: nat)
    requires it.SignedInt? || it.UnsignedInt?
    ensures Encode(Opt(KindOf(it), SizeOf(it), h, next), h.little, v) == Some(s) <==>
              Image(it, h.little, h.native, v, s)
  {
    hide IntBytes, FromLowest, InOrder, Natural, Power256;
    FromLowestIs(s, h.little);
    if v.Int? && Fits(KindOf(it), SizeOf(it), v.n) {
      IntBytesNumber(KindOf(it), SizeOf(it), v.n);
      var t := IntBytes(KindOf(it), SizeOf(it), v.n);
      if |s| == |t| && Natural(InOrder(s, h.little)) == Natural(t) {
        BytesUnique(s, t, h.little);
      }
      OrderTwice(t, h.little);
    }
  }

  lemma {:induction false} TextImage(it: Item, h: Header, v: Value, s: seq<Byte>, next: nat)
    requires it.Number? || it.Chars? || it.Zero?
    ensures Encode(Opt(KindOf(it), SizeOf(it), h, next), h.little, v) == Some(s) <==>
              Image(it, h.little, h.native, v, s)
  {
    hide FromLowest, InOrder;
    if it.Number? && v.Float? {
      FromLowestIs(s, h.little == h.native);
      OrderTwice(s, h.little == h.native);
      OrderTwice(v.image, h.little == h.native);
    }
  }

  lemma {:induction false} CountedImage(size: nat, h: Header, v: Value, s: seq<Byte>, next: nat)
    ensures Encode(Opt(Kstring, size, h, next), h.little, v) == Some(s) <==>
              Image(Counted(size), h.little, h.native, v, s)
  {
    if v.Str? && |v.s| < WIDE / 2 {
      var n := |v.s|;
      if |s| == size + n {
        PrefixImage(size, h, n, s[..size], next);
        assert s == s[..size] + s[size..];
      }
      if Fits(Kuint, size, n) {
        var prefix := InOrder(IntBytes(Kuint, size, n), h.little);
        assert (prefix + v.s)[..size] == prefix && (prefix + v.s)[size..] == v.s;
      }
      hide IntBytes, FromLowest, InOrder, Fits;
    }
  }

  lemma {:induction false} PrefixImage(size: nat, h: Header, n: nat, s: seq<Byte>, next: nat)
    requires n < WIDE / 2 && |s| == size
    ensures Natural(FromLowest(s, h.little)) == n <==>
              Fits(Kuint, size, n) && s == InOrder(IntBytes(Kuint, size, n), h.little)
  {
    IntImage(UnsignedInt(size), h, Int(n), s, next);
    NaturalBound(FromLowest(s, h.little));
    DivModUnique(n, WIDE, 0, n);
    hide IntBytes, FromLowest, InOrder;
  }

  /** The code writes exactly the image of a value, or refuses one that has none. */
  lemma {:induction false} ImageWritten(it: Item, h: Header, v: Value, s: seq<Byte>, next: nat)
    requires Takes(it)
    ensures Encode(Opt(KindOf(it), SizeOf(it), h, next), h.little, v) == Some(s) <==>
              Image(it, h.little, h.native, v, s)
  {
    hide Encode, Image;
    match it
    case SignedInt(_) => IntImage(it, h, v, s, next);
    case UnsignedInt(_) => IntImage(it, h, v, s, next);
    case Counted(size) => CountedImage(size, h, v, s, next);
    case _ => TextImage(it, h, v, s, next);
  }

  /** How many bytes the image of a value has. */
  function Extent(it: Item, v: Value): nat {
    match it
    case Counted(size) => if v.Str? then size + |v.s| else 0
    case Zero => if v.Str? then |v.s| + 1 else 0
    case _ => SizeOf(it)
  }

  lemma {:induction false} ImageExtent(it: Item, little: bool, native: bool, v: Value, s: seq<Byte>)
    requires Image(it, little, native, v, s)
    ensures |s| == Extent(it, v)
  {
  }

  predicate AllZero(s: seq<Byte>) {
    forall i | 0 <= i < |s| :: s[i] == 0
  }

  /** The item can be packed here: its alignment is a power of two, and there is an argument if it takes one. */
  predicate Ready(it: Item, h: Header, args: seq<Value>) {
    PowerOfTwo(AlignOf(it, h.maxalign)) && (Takes(it) ==> args != [])
  }

  /** The bytes that the item adds after total bytes: the fewest that align it, and its own. */
  function Room(it: Item, h: Header, args: seq<Value>, total: nat): nat
    requires Ready(it, h, args)
  {
    Pad(total, AlignOf(it, h.maxalign)) + if Takes(it) then Extent(it, args[0]) else SizeOf(it)
  }

  /** The bytes of one item: zeros, and the image of its argument. */
  ghost predicate Packed(it: Item, h: Header, args: seq<Value>, total: nat, s: seq<Byte>)
    requires Ready(it, h, args)
  {
    var pad := Pad(total, AlignOf(it, h.maxalign));
    && |s| == Room(it, h, args, total) && AllZero(s[..pad])
    && if Takes(it) then Image(it, h.little, h.native, args[0], s[pad..]) else AllZero(s[pad..])
  }

  function Left(it: Item, args: seq<Value>): seq<Value> {
    if Takes(it) && args != [] then args[1..] else args
  }

  /** The bytes s are what the items make of the arguments after total bytes; a surplus of arguments does not matter. */
  ghost predicate PackMeans(items: seq<Item>, h: Header, args: seq<Value>, total: nat, s: seq<Byte>)
    decreases |items|
  {
    if items == [] then s == []
    else
      var it := items[0];
      Ready(it, h, args)
      && var n := Room(it, h, args, total);
      && n <= |s| && Packed(it, h, args, total, s[..n])
      && PackMeans(items[1..], After(it, h), Left(it, args), total + n, s[n..])
  }

  ghost predicate AllModerate(items: seq<Item>) {
    forall i | 0 <= i < |items| :: Moderate(items[i])
  }

  lemma {:induction false} ZeroBytes(s: seq<Byte>)
    requires AllZero(s)
    ensures s == Zeros(|s|)
  {
  }

  lemma {:induction false} TwoParts(s: seq<Byte>, a: seq<Byte>, b: seq<Byte>)
    ensures s == a + b <==> |a| <= |s| && s[..|a|] == a && s[|a|..] == b
  {
    if |a| <= |s| {
      assert s == s[..|a|] + s[|a|..];
    }
    if s == a + b {
      assert s[..|a|] == a && s[|a|..] == b;
    }
  }

  /** What the code puts in front of the rest for one item. */
  function Front(it: Item, h: Header, args: seq<Value>, total: nat, next: nat): Option<seq<Byte>>
    requires Ready(it, h, args)
  {
    var pad := Zeros(Pad(total, AlignOf(it, h.maxalign)));
    if Takes(it) then Append(pad, Encode(Opt(KindOf(it), SizeOf(it), h, next), h.little, args[0]))
    else Some(pad + Filler(KindOf(it)))
  }

  lemma {:induction false} AlignPositive(it: Item, h: Header)
    requires h.maxalign >= 1
    ensures AlignOf(it, h.maxalign) >= 1
  {
  }

  /** It is the bytes of that item. */
  lemma {:induction false} FrontIs(fmt: seq<char>, p: nat, it: Item, h: Header, args: seq<Value>, total: nat, next: nat,
                                   s: seq<Byte>)
    requires Ready(it, h, args) && Stands(fmt, p, it, next) && h.maxalign >= 1
    ensures Front(it, h, args, total, next) == Some(s) <==> Packed(it, h, args, total, s)
  {
    hide Encode, Image, AlignOf, PowerOfTwo, Extent, AllZero, Stands, Pad, KindOf, SizeOf, Takes, TakesArgument, Filler,
      Append;
    AlignPositive(it, h);
    var pad := Pad(total, AlignOf(it, h.maxalign));
    HeaderAfter(fmt, p, it, next, h);
    if Takes(it) {
      PaddedImage(it, h, args[0], next, pad, s);
    } else {
      PaddedFiller(KindOf(it), pad, s);
    }
  }

  lemma {:induction false} PaddedImage(it: Item, h: Header, v: Value, next: nat, pad: nat, s: seq<Byte>)
    requires Takes(it)
    ensures Append(Zeros(pad), Encode(Opt(KindOf(it), SizeOf(it), h, next), h.little, v)) == Some(s) <==>
              |s| == pad + Extent(it, v) && AllZero(s[..pad]) && Image(it, h.little, h.native, v, s[pad..])
  {
    hide Encode, Image, Extent, AllZero, KindOf, SizeOf, Takes;
    var e := Encode(Opt(KindOf(it), SizeOf(it), h, next), h.little, v);
    AppendIs(Zeros(pad), e, s);
    NoBytes(pad);
    if |s| >= pad {
      ImageWritten(it, h, v, s[pad..], next);
      if AllZero(s[..pad]) {
        ZeroBytes(s[..pad]);
      }
      if Image(it, h.little, h.native, v, s[pad..]) {
        ImageExtent(it, h.little, h.native, v, s[pad..]);
      }
    }
  }

  lemma {:induction false} PaddedFiller(kind: Kind, pad: nat, s: seq<Byte>)
    ensures Zeros(pad) + Filler(kind) == s <==>
              |s| == pad + |Filler(kind)| && AllZero(s[..pad]) && AllZero(s[pad..])
  {
    hide AllZero, Filler;
    TwoParts(s, Zeros(pad), Filler(kind));
    FillerIs(kind);
    NoBytes(pad);
    if |s| == pad + |Filler(kind)| {
      if AllZero(s[..pad]) {
        ZeroBytes(s[..pad]);
      }
      if AllZero(s[pad..]) {
        ZeroBytes(s[pad..]);
      }
    }
  }

  lemma {:induction false} NoBytes(n: nat)
    ensures AllZero(Zeros(n))
  {
  }

  lemma {:induction false} FillerIs(kind: Kind)
    ensures Filler(kind) == Zeros(|Filler(kind)|) && AllZero(Filler(kind))
  {
  }

  lemma {:induction false} HeaderAfter(fmt: seq<char>, p: nat, it: Item, q: nat, h: Header)
    requires Stands(fmt, p, it, q) && h.maxalign >= 1
    ensures After(it, h).maxalign >= 1 && (Takes(it) ==> After(it, h) == h)
    ensures KindOf(it) == Kpadding || Takes(it) || SizeOf(it) == 0
    ensures TakesArgument(KindOf(it)) == Takes(it) && (!Takes(it) ==> |Filler(KindOf(it))| == SizeOf(it))
  {
  }

  lemma {:induction false} AppendTwice(a: seq<Byte>, b: seq<Byte>, r: Option<seq<Byte>>)
    ensures Append(a, Append(b, r)) == Append(a + b, r)
  {
    if r.Some? {
      assert a + (b + r.value) == a + b + r.value;
    }
  }

  /** One step of the code at an item. */
  lemma {:induction false} PackItem(fmt: seq<char>, p: nat, it: Item, q: nat, h: Header, args: seq<Value>, total: nat)
    requires Stands(fmt, p, it, q) && Moderate(it) && h.maxalign >= 1
    ensures PackFrom(h, fmt, p, args, total) ==
            if !Ready(it, h, args) then None
            else
              Joined(Front(it, h, args, total, q),
                     PackFrom(After(it, h), fmt, q, Left(it, args), total + Room(it, h, args, total)))
  {
    hide Stands, DetailAt, Encode, Pad, AlignOf, PowerOfTwo, After, Filler, KindOf, SizeOf, Takes, TakesArgument,
      Moderate;
    StandsSome(fmt, p, it, q);
    DetailRead(h, fmt, p, it, q);
    HeaderAfter(fmt, p, it, q, h);
    if Ready(it, h, args) {
      FrontRoom(fmt, p, it, h, args, total, q);
    }
  }

  lemma {:induction false} FrontRoom(fmt: seq<char>, p: nat, it: Item, h: Header, args: seq<Value>, total: nat,
                                     next: nat)
    requires Ready(it, h, args) && Stands(fmt, p, it, next) && h.maxalign >= 1
    ensures var f := Front(it, h, args, total, next); f.Some? ==> |f.value| == Room(it, h, args, total)
  {
    hide Stands, Front, Ready, Room;
    var f := Front(it, h, args, total, next);
    if f.Some? {
      FrontIs(fmt, p, it, h, args, total, next, f.value);
      PackedRoom(it, h, args, total, f.value);
    }
  }

  function Joined(f: Option<seq<Byte>>, r: Option<seq<Byte>>): Option<seq<Byte>> {
    if f.None? then None else Append(f.value, r)
  }

  lemma {:induction false} JoinedIs(f: Option<seq<Byte>>, r: Option<seq<Byte>>, s: seq<Byte>, n: nat)
    requires f.Some? ==> |f.value| == n
    ensures Joined(f, r) == Some(s) <==> n <= |s| && f == Some(s[..n]) && r == Some(s[n..])
  {
    if f.Some? {
      AppendIs(f.value, r, s);
    }
  }

  lemma {:induction false} AppendIs(bs: seq<Byte>, r: Option<seq<Byte>>, s: seq<Byte>)
    ensures Append(bs, r) == Some(s) <==> |bs| <= |s| && s[..|bs|] == bs && r == Some(s[|bs|..])
  {
    if r.Some? {
      TwoParts(s, bs, r.value);
    }
    if |bs| <= |s| {
      TwoParts(s, s[..|bs|], s[|bs|..]);
    }
  }

  lemma {:induction false} NothingSpelled(fmt: seq<char>, p: nat, items: seq<Item>, h: Header, args: seq<Value>,
                                          total: nat, s: seq<Byte>)
    requires Spells(fmt, p, items) && items == []
    ensures PackFrom(h, fmt, p, args, total) == Some(s) <==> PackMeans(items, h, args, total, s)
  {
  }

  lemma {:induction false} MeansItem(items: seq<Item>, h: Header, args: seq<Value>, total: nat, s: seq<Byte>, it: Item)
    requires items != [] && it == items[0]
    ensures !Ready(it, h, args) ==> !PackMeans(items, h, args, total, s)
    ensures Ready(it, h, args) && Room(it, h, args, total) > |s| ==> !PackMeans(items, h, args, total, s)
    ensures Ready(it, h, args) && Room(it, h, args, total) <= |s| ==>
              var n := Room(it, h, args, total);
              PackMeans(items, h, args, total, s) <==>
                && Packed(it, h, args, total, s[..n])
                && PackMeans(items[1..], After(it, h), Left(it, args), total + n, s[n..])
  {
    hide Packed, Ready, Room, After, Left;
  }

  /** What pack makes of a format is what the items that it spells mean. */
  lemma {:induction false} PackIs(fmt: seq<char>, p: nat, items: seq<Item>, h: Header, args: seq<Value>, total: nat,
                                  s: seq<Byte>)
    requires Spells(fmt, p, items) && AllModerate(items) && h.maxalign >= 1
    ensures PackFrom(h, fmt, p, args, total) == Some(s) <==> PackMeans(items, h, args, total, s)
    decreases |items|
  {
    hide *;
    if items == [] {
      NothingSpelled(fmt, p, items, h, args, total, s);
    } else {
      var it, q := FirstSpelled(fmt, p, items);
      PackItem(fmt, p, it, q, h, args, total);
      HeaderAfter(fmt, p, it, q, h);
      MeansItem(items, h, args, total, s, it);
      if Ready(it, h, args) {
        var n := Room(it, h, args, total);
        FrontRoom(fmt, p, it, h, args, total, q);
        JoinedIs(Front(it, h, args, total, q), PackFrom(After(it, h), fmt, q, Left(it, args), total + n), s, n);
        if n <= |s| {
          FrontIs(fmt, p, it, h, args, total, q, s[..n]);
          PackIs(fmt, q, items[1..], After(it, h), Left(it, args), total + n, s[n..]);
        }
      }
    }
  }

  lemma {:induction false} PackedRoom(it: Item, h: Header, args: seq<Value>, total: nat, s: seq<Byte>)
    requires Ready(it, h, args) && Packed(it, h, args, total, s)
    ensures |s| == Room(it, h, args, total)
  {
  }

  lemma {:induction false} FirstSpelled(fmt: seq<char>, p: nat, items: seq<Item>) returns (it: Item, q: nat)
    requires Spells(fmt, p, items) && AllModerate(items) && items != []
    ensures it == items[0] && Stands(fmt, p, it, q) && Spells(fmt, q, items[1..]) && Moderate(it)
    ensures AllModerate(items[1..])
  {
    it := items[0];
    q :| Stands(fmt, p, it, q) && Spells(fmt, q, items[1..]);
    assert forall i | 0 <= i < |items[1..]| :: items[1..][i] == items[i + 1];
  }

  lemma {:induction false} StandsSome(fmt: seq<char>, p: nat, it: Item, q: nat)
    requires Stands(fmt, p, it, q)
    ensures At(fmt, p) != '\0'
  {
  }
}
