/** string.pack and string.unpack: the format, the byte images, and the round trip. */
module Pack {
  import opened Arith
  import opened Bytes
  import opened CStrings
  import opened Options

  /** LUA integers are 64 bits wide, in two's complement. */
  type Integer = n: int | -0x8000_0000_0000_0000 <= n < 0x8000_0000_0000_0000

  const SZINT: nat := 8
  const MAXINTSIZE: nat := 16
  const MAXALIGN: nat := 8
  const MAXSIZE: nat := 0x7fff_ffff

  datatype Kind = Kint | Kuint | Kfloat | Kchar | Kstring | Kzstr | Kpadding | Kpaddalign | Knop

  /** The byte order and maximum alignment in force, and the order of the machine. */
  datatype Header = Header(little: bool, maxalign: nat, native: bool)

  /** An argument; a float is the image of the C number, in the order of the machine. */
  datatype Value = Int(n: Integer) | Float(image: seq<Byte>) | Str(s: seq<Byte>)

  // ---- Reading the format ----

  /** The numeral that continues at p after the value a; reading stops before it could overflow. */
  function Numeral(fmt: seq<char>, p: nat, a: nat): (r: (nat, nat))
    ensures p <= r.1 <= Max(p, |fmt|)
    decreases |fmt| - p
  {
    if p < |fmt| && IsDigit(fmt[p]) && a <= (MAXSIZE - 9) / 10 then
      Numeral(fmt, p + 1, a * 10 + (fmt[p] - '0') as nat)
    else (a, p)
  }

  /** A size between 1 and 16 at p, or the default. */
  function Limited(fmt: seq<char>, p: nat, default: nat): (r: Option<(nat, nat)>)
    requires 1 <= default <= MAXINTSIZE
    ensures r.Some? ==> 1 <= r.value.0 <= MAXINTSIZE && p <= r.value.1 <= Max(p, |fmt|)
  {
    var (a, q) := Numeral(fmt, p, 0);
    if !IsDigit(At(fmt, p)) then Some((default, p))
    else if 1 <= a <= MAXINTSIZE then Some((a, q))
    else None
  }

  /** One option with its size, the header after it and where it ends. */
  datatype Opt = Opt(kind: Kind, size: nat, h: Header, next: nat)

  function Sized(kind: Kind, h: Header, r: Option<(nat, nat)>): Option<Opt> {
    if r.None? then None else Some(Opt(kind, r.value.0, h, r.value.1))
  }

  function OptionAt(h: Header, fmt: seq<char>, p: nat): (r: Option<Opt>)
    requires p < |fmt|
    ensures r.Some? ==> p < r.value.next <= |fmt|
    ensures r.Some? && r.value.kind != Kchar ==> r.value.size <= MAXINTSIZE
    ensures r.Some? && r.value.kind in {Kint, Kuint, Kstring} ==> 1 <= r.value.size
    ensures r.Some? && r.value.kind in {Kzstr, Kpaddalign, Knop} ==> r.value.size == 0
    ensures r.Some? && r.value.kind == Kpadding ==> r.value.size == 1
    ensures r.Some? && r.value.kind != Knop ==> r.value.h == h
    ensures r.Some? && 1 <= h.maxalign <= MAXINTSIZE ==> 1 <= r.value.h.maxalign <= MAXINTSIZE
    ensures r.Some? ==> r.value.h.native == h.native
  {
    var q := p + 1;
    match fmt[p]
    case 'b' => Some(Opt(Kint, 1, h, q))
    case 'B' => Some(Opt(Kuint, 1, h, q))
    case 'h' => Some(Opt(Kint, 2, h, q))
    case 'H' => Some(Opt(Kuint, 2, h, q))
    case 'l' => Some(Opt(Kint, 8, h, q))
    case 'L' => Some(Opt(Kuint, 8, h, q))
    case 'j' => Some(Opt(Kint, 8, h, q))
    case 'J' => Some(Opt(Kuint, 8, h, q))
    case 'T' => Some(Opt(Kuint, 8, h, q))
    case 'f' => Some(Opt(Kfloat, 4, h, q))
    case 'd' => Some(Opt(Kfloat, 8, h, q))
    case 'n' => Some(Opt(Kfloat, 8, h, q))
    case 'i' => Sized(Kint, h, Limited(fmt, q, 4))
    case 'I' => Sized(Kuint, h, Limited(fmt, q, 4))
    case 's' => Sized(Kstring, h, Limited(fmt, q, 8))
    case 'c' =>
      var (a, e) := Numeral(fmt, q, 0);
      if IsDigit(At(fmt, q)) then Some(Opt(Kchar, a, h, e)) else None
    case 'z' => Some(Opt(Kzstr, 0, h, q))
    case 'x' => Some(Opt(Kpadding, 1, h, q))
    case 'X' => Some(Opt(Kpaddalign, 0, h, q))
    case ' ' => Some(Opt(Knop, 0, h, q))
    case '<' => Some(Opt(Knop, 0, h.(little := true), q))
    case '>' => Some(Opt(Knop, 0, h.(little := false), q))
    case '=' => Some(Opt(Knop, 0, h.(little := h.native), q))
    case '!' =>
      var r := Limited(fmt, q, MAXALIGN);
      if r.None? then None else Some(Opt(Knop, 0, h.(maxalign := r.value.0), r.value.1))
    case _ => None
  }

  predicate PowerOf2(n: nat) {
    n == 1 || n == 2 || n == 4 || n == 8 || n == 16
  }

  /** An option and the alignment it asks for; 1 is none. */
  datatype Detail = Detail(o: Opt, align: nat)

  function DetailAt(h: Header, fmt: seq<char>, p: nat): (r: Option<Detail>)
    requires p < |fmt|
    ensures r.Some? ==> p < r.value.o.next <= |fmt| && PowerOf2(r.value.align)
    ensures r.Some? && r.value.o.kind in {Kint, Kuint, Kstring} ==> 1 <= r.value.o.size <= MAXINTSIZE
    ensures r.Some? && r.value.o.kind in {Kzstr, Kpaddalign, Knop} ==> r.value.o.size == 0
    ensures r.Some? && r.value.o.kind == Kpadding ==> r.value.o.size == 1
  {
    match OptionAt(h, fmt, p)
    case None => None
    case Some(o) =>
      if o.kind != Kpaddalign then Aligned(o, o.size)
      else if o.next >= |fmt| then None
      else match OptionAt(o.h, fmt, o.next)
        case None => None
        case Some(x) =>
          if x.kind == Kchar || x.size == 0 then None
          else Aligned(Opt(Kpaddalign, 0, x.h, x.next), x.size)
  }

  function Aligned(o: Opt, align: nat): (r: Option<Detail>)
    ensures r.Some? ==> r.value.o == o && PowerOf2(r.value.align)
  {
    if align <= 1 || o.kind == Kchar then Some(Detail(o, 1))
    else
      var a := if align > o.h.maxalign then o.h.maxalign else align;
      if PowerOf2(a) then Some(Detail(o, a)) else None
  }

  /** How many bytes bring total to a multiple of align. */
  function Pad(total: nat, align: nat): (n: nat)
    requires align > 0
    ensures n < align && (total + n) % align == 0
  {
    var r := total % align;
    if r == 0 then 0 else PadFits(total, align); align - r
  }

  lemma {:induction false} PadFits(total: nat, align: nat)
    requires align > 0 && total % align != 0
    ensures (total + (align - total % align)) % align == 0
  {
    var q, r := total / align, total % align;
    assert total + (align - r) == (q + 1) * align;
    DivModUnique(total + (align - r), align, q + 1, 0);
  }

  // ---- Byte images ----

  function Reverse(s: seq<Byte>): (r: seq<Byte>)
    ensures |r| == |s| && forall i | 0 <= i < |s| :: r[i] == s[|s| - 1 - i]
  {
    if s == [] then [] else Reverse(s[1..]) + [s[0]]
  }

  function InOrder(s: seq<Byte>, little: bool): (r: seq<Byte>)
    ensures |r| == |s|
  {
    if little then s else Reverse(s)
  }

  lemma {:induction false} ReverseTwice(s: seq<Byte>)
    ensures Reverse(Reverse(s)) == s
  {
  }

  /** n in two's complement of size bytes. */
  function Complement(n: int, size: nat): (v: nat)
    requires -(Power256(size) as int) <= n < Power256(size)
    ensures v < Power256(size)
  {
    if n < 0 then n + Power256(size) else n
  }

  function ToInteger(v: nat): Integer
    requires v < WIDE
  {
    if 2 * v >= WIDE then v - WIDE else v
  }

  /** The integers that an option takes: at fewer than 8 bytes they must fit, otherwise all do. */
  predicate Fits(kind: Kind, size: nat, n: Integer) {
    size >= SZINT
    || (if kind == Kint then -(Power256(size) as int) <= 2 * n < Power256(size) else 0 <= n < Power256(size))
  }

  /** The bytes of an integer: an unsigned option stores the 64 bits as they are. */
  function IntBytes(kind: Kind, size: nat, n: Integer): (s: seq<Byte>)
    requires Fits(kind, size, n) && (kind == Kint || kind == Kuint)
    ensures |s| == size
  {
    Power8();
    if size >= SZINT then
      PowerGrows(SZINT, size);
      LowFirst(if kind == Kint then Complement(n, size) else Complement(n, 8), size)
    else LowFirst(Complement(n, size), size)
  }

  /** What the bytes of an integer option mean as a Lua integer. */
  function IntValue(kind: Kind, s: seq<Byte>): (r: Option<Integer>) {
    var v, size := Natural(s), |s|;
    NaturalBound(s);
    Power8();
    if size < SZINT then
      PowerGrows(size, 7);
      assert Power256(8) == 256 * Power256(7);
      if kind == Kint then Some(Signed(v, size)) else Some(v)
    else if kind == Kint then
      var n := Signed(v, size);
      if -0x8000_0000_0000_0000 <= n < 0x8000_0000_0000_0000 then Some(n) else None
    else if v < WIDE then Some(ToInteger(v))
    else None
  }

  lemma {:induction false} IntRoundTrip(kind: Kind, size: nat, n: Integer)
    requires Fits(kind, size, n) && (kind == Kint || kind == Kuint)
    ensures IntValue(kind, IntBytes(kind, size, n)) == Some(n)
  {
    Power8();
    if size >= SZINT {
      PowerGrows(SZINT, size);
    }
    NaturalOfLowFirst(if size >= SZINT && kind == Kuint then Complement(n, 8) else Complement(n, size), size);
  }

  // ---- One option ----

  predicate TakesArgument(kind: Kind) {
    kind !in {Kpadding, Kpaddalign, Knop}
  }

  /** The bytes for an argument, or none when the option does not accept it. */
  function Encode(o: Opt, little: bool, v: Value): (r: Option<seq<Byte>>) {
    match o.kind
    case Kint =>
      if v.Int? && Fits(Kint, o.size, v.n) then Some(InOrder(IntBytes(Kint, o.size, v.n), little)) else None
    case Kuint =>
      if v.Int? && Fits(Kuint, o.size, v.n) then Some(InOrder(IntBytes(Kuint, o.size, v.n), little)) else None
    case Kfloat =>
      if v.Float? && |v.image| == o.size then Some(InOrder(v.image, little == o.h.native)) else None
    case Kchar =>
      if v.Str? && |v.s| == o.size then Some(v.s) else None
    case Kstring =>
      if v.Str? && |v.s| < WIDE / 2 && Fits(Kuint, o.size, |v.s|)
      then Some(InOrder(IntBytes(Kuint, o.size, |v.s|), little) + v.s) else None
    case Kzstr =>
      if v.Str? && 0 !in v.s then Some(v.s + [0]) else None
    case _ => None
  }

  /** The first zero at or after pos, or the end of the data. */
  function ZeroAt(data: seq<Byte>, pos: nat): (e: nat)
    requires pos <= |data|
    ensures pos <= e <= |data| && (e < |data| ==> data[e] == 0) && forall i | pos <= i < e :: data[i] != 0
    decreases |data| - pos
  {
    if pos == |data| || data[pos] == 0 then pos else ZeroAt(data, pos + 1)
  }

  /**
   * The value at pos and the position behind it; the fixed part of the option must be there.
   * A string length whose sum with the position would wrap around is too large to allocate: an error like any
   * other length beyond the data.
   */
  function Decode(o: Opt, little: bool, data: seq<Byte>, pos: nat): (r: Option<(Value, nat)>)
    requires pos + o.size <= |data|
    ensures r.Some? ==> pos <= r.value.1 <= |data| + 1
  {
    var fixed := data[pos..pos + o.size];
    match o.kind
    case Kint =>
      var n := IntValue(Kint, InOrder(fixed, little));
      if n.Some? then Some((Int(n.value), pos + o.size)) else None
    case Kuint =>
      var n := IntValue(Kuint, InOrder(fixed, little));
      if n.Some? then Some((Int(n.value), pos + o.size)) else None
    case Kfloat => Some((Float(InOrder(fixed, little == o.h.native)), pos + o.size))
    case Kchar => Some((Str(fixed), pos + o.size))
    case Kstring =>
      var n := IntValue(Kuint, InOrder(fixed, little));
      if n.Some? then
        var len := Complement64(n.value);
        var at := pos + o.size;
        if at + len <= |data| then Some((Str(data[at..at + len]), at + len)) else None
      else None
    case Kzstr =>
      var len := CastInt(ZeroAt(data, pos) - pos);
      if len < 0 then None else Some((Str(data[pos..pos + len]), pos + len + 1))
    case _ => None
  }

  /** The cast of a Lua integer to size_t. */
  function Complement64(n: Integer): nat {
    if n < 0 then n + WIDE else n
  }

  /** The cast of a length to int; what comes out negative is a length no string can have. */
  function CastInt(n: nat): (i: int)
    ensures i <= n && (n <= MAXSIZE ==> i == n) && (n > MAXSIZE ==> i != n)
  {
    var m := n % 0x1_0000_0000;
    if m <= MAXSIZE then m else m - 0x1_0000_0000
  }

  /** The length of a string fits in the int that strlen is cast to. */
  predicate ShortIfZ(o: Opt, v: Value) {
    o.kind == Kzstr && v.Str? ==> |v.s| <= MAXSIZE
  }

  lemma {:induction false} ZeroFound(data: seq<Byte>, pos: nat, e: nat)
    requires pos <= e < |data| && data[e] == 0 && forall i | pos <= i < e :: data[i] != 0
    ensures ZeroAt(data, pos) == e
    decreases e - pos
  {
    if pos >= e {
    } else {
      ZeroFound(data, pos + 1, e);
    }
  }

  lemma {:induction false} OrderTwice(s: seq<Byte>, little: bool)
    ensures InOrder(InOrder(s, little), little) == s
  {
    ReverseTwice(s);
  }

  lemma {:induction false} DecodeInt(o: Opt, little: bool, v: Value, pre: seq<Byte>, post: seq<Byte>)
    requires o.kind == Kint || o.kind == Kuint
    requires Encode(o, little, v).Some?
    ensures var bs := Encode(o, little, v).value;
            o.size == |bs| && Decode(o, little, pre + bs + post, |pre|) == Some((v, |pre| + |bs|))
  {
    hide IntBytes, IntValue, InOrder, Fits;
    var bs := Encode(o, little, v).value;
    assert (pre + bs + post)[|pre|..|pre| + |bs|] == bs;
    OrderTwice(IntBytes(o.kind, o.size, v.n), little);
    IntRoundTrip(o.kind, o.size, v.n);
  }

  lemma {:induction false} DecodePlain(o: Opt, little: bool, v: Value, pre: seq<Byte>, post: seq<Byte>)
    requires (o.kind == Kfloat || o.kind == Kchar) && Encode(o, little, v).Some?
    ensures var bs := Encode(o, little, v).value;
            o.size == |bs| && Decode(o, little, pre + bs + post, |pre|) == Some((v, |pre| + |bs|))
  {
    hide IntBytes, IntValue, InOrder, Fits;
    var bs := Encode(o, little, v).value;
    assert (pre + bs + post)[|pre|..|pre| + |bs|] == bs;
    if o.kind == Kfloat {
      OrderTwice(v.image, little == o.h.native);
    }
  }

  lemma {:induction false} DecodeString(o: Opt, little: bool, v: Value, pre: seq<Byte>, post: seq<Byte>)
    requires o.kind == Kstring && Encode(o, little, v).Some?
    ensures var bs := Encode(o, little, v).value;
            o.size <= |bs| && Decode(o, little, pre + bs + post, |pre|) == Some((v, |pre| + |bs|))
  {
    hide IntBytes, IntValue, InOrder, Fits;
    var prefix := InOrder(IntBytes(Kuint, o.size, |v.s|), little);
    var data, pos := pre + (prefix + v.s) + post, |pre|;
    assert data[pos..pos + o.size] == prefix;
    assert data[pos + o.size..pos + o.size + |v.s|] == v.s;
    OrderTwice(IntBytes(Kuint, o.size, |v.s|), little);
    IntRoundTrip(Kuint, o.size, |v.s|);
  }

  /** When it is short, the value comes back with the position; otherwise another value or none does. */
  predicate Back(r: Option<(Value, nat)>, short: bool, v: Value, pos: nat) {
    if short then r == Some((v, pos)) else r.None? || r.value.0 != v
  }

  lemma {:induction false} DecodeZstr(o: Opt, little: bool, v: Value, pre: seq<Byte>, post: seq<Byte>)
    requires o.kind == Kzstr && o.size == 0 && Encode(o, little, v).Some?
    ensures var bs := Encode(o, little, v).value;
            Back(Decode(o, little, pre + bs + post, |pre|), ShortIfZ(o, v), v, |pre| + |bs|)
  {
    var data, pos := pre + (v.s + [0]) + post, |pre|;
    var e := pos + |v.s|;
    assert data[pos..e] == v.s;
    forall i | pos <= i < e
      ensures data[i] != 0
    {
      assert data[i] == v.s[i - pos];
    }
    ZeroFound(data, pos, e);
  }

  /** Decoding what Encode stored gives the argument back and ends behind it, unless it is too long a string. */
  lemma {:induction false} DecodeEncoded(o: Opt, little: bool, v: Value, pre: seq<Byte>, post: seq<Byte>)
    requires Encode(o, little, v).Some? && (o.kind == Kzstr ==> o.size == 0)
    ensures var bs := Encode(o, little, v).value;
            && o.size <= |bs|
            && Back(Decode(o, little, pre + bs + post, |pre|), ShortIfZ(o, v), v, |pre| + |bs|)
  {
    hide Decode, IntBytes, IntValue, InOrder, Fits;
    match o.kind
    case Kint => DecodeInt(o, little, v, pre, post);
    case Kuint => DecodeInt(o, little, v, pre, post);
    case Kfloat => DecodePlain(o, little, v, pre, post);
    case Kchar => DecodePlain(o, little, v, pre, post);
    case Kstring => DecodeString(o, little, v, pre, post);
    case Kzstr => DecodeZstr(o, little, v, pre, post);
  }

  // ---- The whole format ----

  /** The bytes that an option itself adds for no argument. */
  function Filler(kind: Kind): seq<Byte> {
    if kind == Kpadding then [0] else []
  }

  /** What pack appends from p on, after total bytes, for the arguments left. */
  function PackFrom(h: Header, fmt: seq<char>, p: nat, args: seq<Value>, total: nat): (r: Option<seq<Byte>>)
    decreases |fmt| - p
  {
    if At(fmt, p) == '\0' then Some([])
    else match DetailAt(h, fmt, p)
      case None => None
      case Some(d) =>
        var pad := Zeros(Pad(total, d.align));
        if !TakesArgument(d.o.kind) then
          var bs := Filler(d.o.kind);
          Append(pad + bs, PackFrom(d.o.h, fmt, d.o.next, args, total + |pad| + |bs|))
        else if args == [] then None
        else match Encode(d.o, d.o.h.little, args[0])
          case None => None
          case Some(bs) => Append(pad + bs, PackFrom(d.o.h, fmt, d.o.next, args[1..], total + |pad| + |bs|))
  }

  function Append(s: seq<Byte>, r: Option<seq<Byte>>): Option<seq<Byte>> {
    if r.None? then None else Some(s + r.value)
  }

  /** What unpack returns from p on, reading the data from pos: the values and the position behind them. */
  function UnpackFrom(h: Header, fmt: seq<char>, p: nat, data: seq<Byte>, pos: nat): (r: Option<(seq<Value>, nat)>)
    decreases |fmt| - p
  {
    if At(fmt, p) == '\0' then Some(([], pos))
    else match DetailAt(h, fmt, p)
      case None => None
      case Some(d) =>
        var at := pos + Pad(pos, d.align);
        if at + d.o.size > |data| then None
        else if !TakesArgument(d.o.kind) then UnpackFrom(d.o.h, fmt, d.o.next, data, at + d.o.size)
        else match Decode(d.o, d.o.h.little, data, at)
          case None => None
          case Some(v) => Push(v.0, UnpackFrom(d.o.h, fmt, d.o.next, data, v.1))
  }

  function Push(v: Value, r: Option<(seq<Value>, nat)>): Option<(seq<Value>, nat)> {
    if r.None? then None else Some(([v] + r.value.0, r.value.1))
  }

  /** The size that packsize reports, or none for a format of variable length or too large. */
  function SizeFrom(h: Header, fmt: seq<char>, p: nat, total: nat): (r: Option<nat>)
    decreases |fmt| - p
  {
    if At(fmt, p) == '\0' then Some(total)
    else match DetailAt(h, fmt, p)
      case None => None
      case Some(d) =>
        var size := d.o.size + Pad(total, d.align);
        if total > MAXSIZE - size || d.o.kind == Kstring || d.o.kind == Kzstr then None
        else SizeFrom(d.o.h, fmt, d.o.next, total + size)
  }

  /** How many arguments the format takes. */
  function Arity(h: Header, fmt: seq<char>, p: nat): nat
    decreases |fmt| - p
  {
    if At(fmt, p) == '\0' then 0
    else match DetailAt(h, fmt, p)
      case None => 0
      case Some(d) => Arity(d.o.h, fmt, d.o.next) + if TakesArgument(d.o.kind) then 1 else 0
  }

  /** No zero-terminated string among the arguments is too long for an int. */
  predicate AllShort(h: Header, fmt: seq<char>, p: nat, args: seq<Value>)
    decreases |fmt| - p
  {
    At(fmt, p) == '\0'
    || match DetailAt(h, fmt, p)
       case None => true
       case Some(d) =>
         if !TakesArgument(d.o.kind) then AllShort(d.o.h, fmt, d.o.next, args)
         else args == [] || (ShortIfZ(d.o, args[0]) && AllShort(d.o.h, fmt, d.o.next, args[1..]))
  }

  /**
   * unpack after pack: exactly when no zero-terminated string is too long it gives the arguments
   * that the format takes and the position behind the data.
   */
  lemma {:induction false} UnpackPacked(h: Header, fmt: seq<char>, p: nat, args: seq<Value>, pre: seq<Byte>)
    requires PackFrom(h, fmt, p, args, |pre|).Some?
    ensures Arity(h, fmt, p) <= |args|
    ensures var data := pre + PackFrom(h, fmt, p, args, |pre|).value;
            UnpackFrom(h, fmt, p, data, |pre|) == Some((args[..Arity(h, fmt, p)], |data|))
            <==> AllShort(h, fmt, p, args)
    decreases |fmt| - p
  {
    hide PackFrom, DetailAt, Encode, Decode, Pad, ShortIfZ;
    if At(fmt, p) == '\0' {
      PackNothing(h, fmt, p, args, |pre|);
      assert pre + [] == pre;
      return;
    }
    var all := PackFrom(h, fmt, p, args, |pre|).value;
    var d, pad, bs, rest, tail := PackStep(h, fmt, p, args, |pre|);
    var pre' := pre + pad + bs;
    UnpackPacked(d.o.h, fmt, d.o.next, rest, pre');
    Regroup(pre, pad, bs, tail);
    if TakesArgument(d.o.kind) {
      DecodeEncoded(d.o, d.o.h.little, args[0], pre + pad, tail);
      var n := Arity(d.o.h, fmt, d.o.next);
      assert args[..1 + n] == [args[0]] + rest[..n];
      var r := Decode(d.o, d.o.h.little, pre' + tail, |pre + pad|);
      if r.Some? {
        var more := UnpackFrom(d.o.h, fmt, d.o.next, pre' + tail, r.value.1);
        PushSame(r.value.0, args[0], more, rest[..n], |pre' + tail|);
      }
    }
  }

  lemma {:induction false} PushSame(v: Value, w: Value, r: Option<(seq<Value>, nat)>, ws: seq<Value>, pos: nat)
    ensures Push(v, r) == Some(([w] + ws, pos)) <==> v == w && r == Some((ws, pos))
  {
    if r.Some? {
      assert ([v] + r.value.0)[0] == v && ([v] + r.value.0)[1..] == r.value.0;
      assert ([w] + ws)[0] == w && ([w] + ws)[1..] == ws;
    }
  }

  lemma {:induction false} Regroup(a: seq<Byte>, b: seq<Byte>, c: seq<Byte>, d: seq<Byte>)
    ensures a + (b + c + d) == a + b + c + d
  {
  }

  lemma {:induction false} PackNothing(h: Header, fmt: seq<char>, p: nat, args: seq<Value>, total: nat)
    requires At(fmt, p) == '\0'
    ensures PackFrom(h, fmt, p, args, total) == Some([])
  {
  }

  /** What one option adds: padding, its bytes, and what the rest of the format adds behind them. */
  lemma {:induction false} PackStep(h: Header, fmt: seq<char>, p: nat, args: seq<Value>, total: nat)
    returns (d: Detail, pad: seq<Byte>, bs: seq<Byte>, rest: seq<Value>, tail: seq<Byte>)
    requires At(fmt, p) != '\0' && PackFrom(h, fmt, p, args, total).Some?
    ensures DetailAt(h, fmt, p) == Some(d) && |pad| == Pad(total, d.align)
    ensures if TakesArgument(d.o.kind) then args != [] && rest == args[1..]
      && Encode(d.o, d.o.h.little, args[0]) == Some(bs)
            else rest == args && bs == Filler(d.o.kind)
    ensures PackFrom(d.o.h, fmt, d.o.next, rest, total + |pad| + |bs|) == Some(tail)
    ensures PackFrom(h, fmt, p, args, total) == Some(pad + bs + tail)
  {
    hide DetailAt, Encode, Pad;
    d := DetailAt(h, fmt, p).value;
    pad := Zeros(Pad(total, d.align));
    if TakesArgument(d.o.kind) {
      bs, rest := Encode(d.o, d.o.h.little, args[0]).value, args[1..];
    } else {
      bs, rest := Filler(d.o.kind), args;
    }
    tail := PackFrom(d.o.h, fmt, d.o.next, rest, total + |pad| + |bs|).value;
  }

  lemma {:induction false} EncodedSize(o: Opt, little: bool, v: Value)
    requires Encode(o, little, v).Some? && o.kind != Kstring && o.kind != Kzstr
    ensures |Encode(o, little, v).value| == o.size
  {
  }

  /** packsize, when it answers, is the length that pack makes. */
  lemma {:induction false} SizeIsLength(h: Header, fmt: seq<char>, p: nat, args: seq<Value>, total: nat)
    requires PackFrom(h, fmt, p, args, total).Some? && SizeFrom(h, fmt, p, total).Some?
    ensures SizeFrom(h, fmt, p, total).value == total + |PackFrom(h, fmt, p, args, total).value|
    decreases |fmt| - p
  {
    hide PackFrom, DetailAt, Encode, Pad;
    if At(fmt, p) == '\0' {
      PackNothing(h, fmt, p, args, total);
    } else {
      var d, pad, bs, rest, tail := PackStep(h, fmt, p, args, total);
      if TakesArgument(d.o.kind) {
        EncodedSize(d.o, d.o.h.little, args[0]);
      }
      SizeIsLength(d.o.h, fmt, d.o.next, rest, total + |pad| + |bs|);
    }
  }
}
