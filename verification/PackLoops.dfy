/** The loops of string.pack, string.packsize and string.unpack. */
module PackLoops {
  import opened Arith
  import opened Bytes
  import opened CStrings
  import opened Options
  import opened Pack

  // ---- Reading the format ----

  method GetNum(fmt: seq<char>, p0: nat, default: int) returns (a: int, p: nat)
    requires default < 0 || 1 <= default <= MAXINTSIZE
    ensures if IsDigit(At(fmt, p0)) then (a, p) == Numeral(fmt, p0, 0) else a == default && p == p0
  {
    p := p0;
    if !IsDigit(At(fmt, p)) {
      return default, p;
    }
    a := 0;
    a, p := a * 10 + (fmt[p] - '0') as int, p + 1;
    while IsDigit(At(fmt, p)) && a <= (MAXSIZE - 9) / 10
      invariant a >= 0 && Numeral(fmt, p0, 0) == Numeral(fmt, p, a) && p0 < p <= |fmt|
      decreases |fmt| - p
    {
      a, p := a * 10 + (fmt[p] - '0') as int, p + 1;
    }
  }

  method GetNumLimit(fmt: seq<char>, p0: nat, default: nat) returns (r: Option<(nat, nat)>)
    requires 1 <= default <= MAXINTSIZE
    ensures r == Limited(fmt, p0, default)
  {
    var a, p := GetNum(fmt, p0, default);
    r := if a > MAXINTSIZE || a <= 0 then None else Some((a, p));
  }

  method GetOption(h: Header, fmt: seq<char>, p: nat) returns (r: Option<Opt>)
    requires p < |fmt|
    ensures r == OptionAt(h, fmt, p)
  {
    hide Limited, Numeral;
    var q := p + 1;
    var n: Option<(nat, nat)>;
    match fmt[p]
    case 'b' => r := Some(Opt(Kint, 1, h, q));
    case 'B' => r := Some(Opt(Kuint, 1, h, q));
    case 'h' => r := Some(Opt(Kint, 2, h, q));
    case 'H' => r := Some(Opt(Kuint, 2, h, q));
    case 'l' => r := Some(Opt(Kint, 8, h, q));
    case 'L' => r := Some(Opt(Kuint, 8, h, q));
    case 'j' => r := Some(Opt(Kint, 8, h, q));
    case 'J' => r := Some(Opt(Kuint, 8, h, q));
    case 'T' => r := Some(Opt(Kuint, 8, h, q));
    case 'f' => r := Some(Opt(Kfloat, 4, h, q));
    case 'd' => r := Some(Opt(Kfloat, 8, h, q));
    case 'n' => r := Some(Opt(Kfloat, 8, h, q));
    case 'i' => n := GetNumLimit(fmt, q, 4); r := Sized(Kint, h, n);
    case 'I' => n := GetNumLimit(fmt, q, 4); r := Sized(Kuint, h, n);
    case 's' => n := GetNumLimit(fmt, q, 8); r := Sized(Kstring, h, n);
    case 'c' =>
      var a, e := GetNum(fmt, q, -1);
      r := if a == -1 then None else Some(Opt(Kchar, a, h, e));
    case 'z' => r := Some(Opt(Kzstr, 0, h, q));
    case 'x' => r := Some(Opt(Kpadding, 1, h, q));
    case 'X' => r := Some(Opt(Kpaddalign, 0, h, q));
    case ' ' => r := Some(Opt(Knop, 0, h, q));
    case '<' => r := Some(Opt(Knop, 0, h.(little := true), q));
    case '>' => r := Some(Opt(Knop, 0, h.(little := false), q));
    case '=' => r := Some(Opt(Knop, 0, h.(little := h.native), q));
    case '!' =>
      n := GetNumLimit(fmt, q, MAXALIGN);
      r := if n.None? then None else Some(Opt(Knop, 0, h.(maxalign := n.value.0), n.value.1));
    case _ => r := None;
  }

  method GetDetails(h: Header, fmt: seq<char>, p: nat, total: nat) returns (r: Option<Detail>, ntoalign: nat)
    requires p < |fmt|
    ensures r == DetailAt(h, fmt, p)
    ensures r.Some? ==> ntoalign == Pad(total, r.value.align)
  {
    hide OptionAt, Pad;
    ntoalign := 0;
    var o := GetOption(h, fmt, p);
    if o.None? {
      return None, 0;
    }
    var opt, align := o.value, o.value.size;
    if opt.kind == Kpaddalign {
      if opt.next >= |fmt| {
        return None, 0;
      }
      var x := GetOption(opt.h, fmt, opt.next);
      if x.None? || x.value.kind == Kchar || x.value.size == 0 {
        return None, 0;
      }
      opt, align := Opt(Kpaddalign, 0, x.value.h, x.value.next), x.value.size;
    }
    r := Aligned(opt, align);
    if r.Some? {
      ntoalign := Pad(total, r.value.align);
    }
  }

  // ---- Integers ----

  /** Where the byte of weight k goes. */
  function Place(size: nat, little: bool, k: nat): (i: nat)
    requires k < size
    ensures i < size
  {
    if little then k else size - 1 - k
  }

  lemma {:induction false} Placed(b: seq<Byte>, s: seq<Byte>, little: bool)
    requires |b| == |s| && forall k | 0 <= k < |s| :: b[Place(|s|, little, k)] == s[k]
    ensures b == InOrder(s, little)
  {
    if !little {
      forall i | 0 <= i < |s|
        ensures b[i] == Reverse(s)[i]
      {
        assert b[Place(|s|, little, |s| - 1 - i)] == s[|s| - 1 - i];
      }
    }
  }

  /** The low bytes of the 64-bit n, with ones above them when it was negative. */
  function Extended(n: nat, size: nat, neg: bool): (s: seq<Byte>)
    ensures |s| == size
  {
    if neg && size > SZINT then LowFirst(n, SZINT) + Ones(size - SZINT) else LowFirst(n, size)
  }

  function Ones(n: nat): (s: seq<Byte>)
    ensures |s| == n && forall i | 0 <= i < n :: s[i] == 255
  {
    if n == 0 then [] else [255] + Ones(n - 1)
  }

  method PackInt(n0: nat, little: bool, size: nat, neg: bool) returns (s: seq<Byte>)
    requires size > 0
    ensures s == InOrder(Extended(n0, size, neg), little)
  {
    var buff := new Byte[size];
    var n := n0;
    buff[Place(size, little, 0)] := n % 256;
    var i := 1;
    while i < size
      invariant 1 <= i <= size && n == Drop(n0, i - 1)
      invariant forall k | 0 <= k < i :: buff[Place(size, little, k)] == Drop(n0, k) % 256
    {
      DropNext(n0, i - 1);
      n := n / 256;
      buff[Place(size, little, i)] := n % 256;
      i := i + 1;
    }
    if neg && size > SZINT {
      i := SZINT;
      while i < size
        invariant SZINT <= i <= size
        invariant forall k | 0 <= k < size ::
                    buff[Place(size, little, k)] == if SZINT <= k < i then 255 else Drop(n0, k) % 256
      {
        buff[Place(size, little, i)] := 255;
        i := i + 1;
      }
    }
    s := buff[..];
    ghost var e := Extended(n0, size, neg);
    forall k | 0 <= k < size
      ensures s[Place(size, little, k)] == e[k]
    {
      if neg && size > SZINT {
        if k < SZINT {
          LowFirstAt(n0, SZINT, k);
        }
      } else {
        LowFirstAt(n0, size, k);
      }
    }
    Placed(s, e, little);
  }

  lemma {:induction false} NaturalOfOnes(n: nat)
    ensures Natural(Ones(n)) == Power256(n) - 1
  {
    if n == 0 {
    } else {
      NaturalOfOnes(n - 1);
    }
  }

  /** Ones above a negative number are its two's complement in more bytes. */
  lemma {:induction false} ExtendedIsComplement(n: nat, size: nat)
    requires n < WIDE && size > SZINT
    ensures Power256(size) >= WIDE
    ensures Extended(n, size, true) == LowFirst(n + (Power256(size) - WIDE), size)
  {
    Power8();
    PowerGrows(SZINT, size);
    var s := Extended(n, size, true);
    NaturalOfLowFirst(n, SZINT);
    NaturalOfOnes(size - SZINT);
    NaturalAppend(LowFirst(n, SZINT), Ones(size - SZINT));
    PowerSum(SZINT, size - SZINT);
    assert Power256(SZINT) * (Power256(size - SZINT) - 1) == Power256(size) - Power256(SZINT);
    LowFirstOfNatural(s);
  }

  /** The bytes of a fitting integer come from its 64 bits. */
  lemma {:induction false} IntBytesFrom64(kind: Kind, size: nat, n: Integer)
    requires Fits(kind, size, n) && (kind == Kint || kind == Kuint)
    ensures Extended(Complement64(n), size, kind == Kint && n < 0) == IntBytes(kind, size, n)
  {
    Power8();
    if size > SZINT {
      if kind == Kint && n < 0 {
        ExtendedIsComplement(Complement64(n), size);
      }
    } else if size < SZINT && n < 0 {
      PowerSum(SZINT - size, size);
      PowerPositive(SZINT - size);
      var m := Power256(SZINT - size) - 1;
      assert Complement64(n) == Complement(n, size) + m * Power256(size);
      HighLost(Complement(n, size), m, size);
    }
  }

  lemma {:induction false} PowerPositive(n: nat)
    ensures Power256(n) >= 1
  {
  }

  /** Copies an image, the other way round for the other byte order. */
  method CopyWithEndian(src: seq<Byte>, same: bool) returns (dest: seq<Byte>)
    ensures dest == InOrder(src, same)
  {
    var a := new Byte[|src|];
    var i := 0;
    while i < |src|
      invariant 0 <= i <= |src|
      invariant forall k | 0 <= k < i :: a[if same then k else |src| - 1 - k] == src[k]
    {
      a[if same then i else |src| - 1 - i] := src[i];
      i := i + 1;
    }
    dest := a[..];
    Placed(dest, src, same);
  }

  /** res ^ mask, for a mask of one bit that is the highest res may have. */
  function FlipTop(res: nat, mask: nat): (r: nat)
    requires res < 2 * mask
    ensures r < 2 * mask
  {
    if res >= mask then res - mask else res + mask
  }

  /** Reads the low bytes, at most eight. */
  method LowBytes(str: seq<Byte>, little: bool, limit: nat) returns (res: nat)
    requires limit <= |str| && limit <= SZINT
    ensures res == Natural(InOrder(str, little)[..limit]) && res < Power256(limit)
  {
    hide InOrder, Place;
    ghost var s := InOrder(str, little);
    Flipped(str, little);
    res := 0;
    var i := limit - 1;
    assert s[limit..limit] == [];
    while i >= 0
      invariant -1 <= i < limit && res == Natural(s[i + 1..limit])
    {
      assert s[i..limit][1..] == s[i + 1..limit];
      res := res * 256 + str[Place(|str|, little, i)];
      i := i - 1;
    }
    NaturalBound(s[..limit]);
    assert s[0..limit] == s[..limit];
  }

  /** Whether all bytes above the eighth are the mask. */
  method UnreadAre(str: seq<Byte>, little: bool, mask: Byte) returns (ok: bool)
    requires |str| > SZINT
    ensures ok <==> forall k | SZINT <= k < |str| :: InOrder(str, little)[k] == mask
  {
    hide InOrder, Place;
    Flipped(str, little);
    var i := SZINT;
    while i < |str|
      invariant SZINT <= i <= |str|
      invariant forall k | SZINT <= k < i :: InOrder(str, little)[k] == mask
    {
      if str[Place(|str|, little, i)] != mask {
        return false;
      }
      i := i + 1;
    }
    return true;
  }

  method UnpackInt(str: seq<Byte>, little: bool, signed: bool) returns (r: Option<Integer>)
    requires 1 <= |str| <= MAXINTSIZE
    ensures r == IntValue(if signed then Kint else Kuint, InOrder(str, little))
  {
    hide InOrder, Natural;
    var size := |str|;
    ghost var s := InOrder(str, little);
    var limit := if size <= SZINT then size else SZINT;
    var res := LowBytes(str, little, limit);
    Power8();
    if size <= SZINT {
      assert s[..limit] == s;
    }
    if size < SZINT {
      PowerGrows(size, 7);
      assert Power256(8) == 256 * Power256(7);
      if signed {
        HalfPower(size);
        var mask := HalfOf(size);
        var x := FlipTop(res, mask) - mask;
        return Some(x);
      }
      return Some(res);
    }
    if size == SZINT {
      return Some(ToInteger(res));
    }
    var mask := if !signed || 2 * res < WIDE then 0 else 255;
    var ok := UnreadAre(str, little, mask);
    Unread(s, mask, signed);
    return if ok then Some(ToInteger(res)) else None;
  }

  /** 1 << (size * 8 - 1) */
  function HalfOf(size: nat): nat
    requires size > 0
  {
    128 * Power256(size - 1)
  }

  lemma {:induction false} HalfPower(size: nat)
    requires size > 0
    ensures 2 * HalfOf(size) == Power256(size)
  {
  }

  lemma {:induction false} Flipped(str: seq<Byte>, little: bool)
    ensures forall k | 0 <= k < |str| :: InOrder(str, little)[k] == str[Place(|str|, little, k)]
  {
  }

  /** The bytes above the eighth decide whether the number fits. */
  lemma {:induction false} Unread(s: seq<Byte>, mask: Byte, signed: bool)
    requires |s| > SZINT
    requires mask == if !signed || 2 * Natural(s[..SZINT]) < WIDE then 0 else 255
    ensures Natural(s[..SZINT]) < WIDE
    ensures IntValue(if signed then Kint else Kuint, s)
         == if forall k | SZINT <= k < |s| :: s[k] == mask then Some(ToInteger(Natural(s[..SZINT]))) else None
  {
    hide Natural, Power256;
    var lo, hi, m := Natural(s[..SZINT]), Natural(s[SZINT..]), |s| - SZINT;
    assert s == s[..SZINT] + s[SZINT..];
    NaturalAppend(s[..SZINT], s[SZINT..]);
    NaturalBound(s[..SZINT]);
    NaturalBound(s[SZINT..]);
    Power8();
    PowerSum(SZINT, m);
    AllZero(s[SZINT..]);
    AllOnes(s[SZINT..]);
    Extremes(lo, hi, Power256(m), signed, mask);
    assert (forall k | SZINT <= k < |s| :: s[k] == mask) <==> (forall k | 0 <= k < m :: s[SZINT..][k] == mask) by {
      if forall k | 0 <= k < m :: s[SZINT..][k] == mask {
        forall k | SZINT <= k < |s|
          ensures s[k] == mask
        {
          assert s[SZINT..][k - SZINT] == mask;
        }
      }
    }
  }

  lemma {:induction false} AllZero(t: seq<Byte>)
    ensures Natural(t) == 0 <==> forall k | 0 <= k < |t| :: t[k] == 0
  {
    if t == [] {
    } else {
      AllZero(t[1..]);
      assert Natural(t) == 0 <==> t[0] == 0 && Natural(t[1..]) == 0;
      assert (forall k | 0 <= k < |t| :: t[k] == 0) <==>
        t[0] == 0 && forall k | 0 <= k < |t[1..]| :: t[1..][k] == 0 by {
        Later(t, 0);
      }
    }
  }

  lemma {:induction false} Later(t: seq<Byte>, v: Byte)
    requires t != []
    ensures (forall k | 0 <= k < |t| :: t[k] == v) <==> t[0] == v && forall k | 0 <= k < |t[1..]| :: t[1..][k] == v
  {
    if t[0] == v && forall k | 0 <= k < |t[1..]| :: t[1..][k] == v {
      forall k | 0 <= k < |t|
        ensures t[k] == v
      {
        if k > 0 {
          assert t[1..][k - 1] == v;
        }
      }
    }
  }

  lemma {:induction false} AllOnes(t: seq<Byte>)
    ensures Natural(t) == Power256(|t|) - 1 <==> forall k | 0 <= k < |t| :: t[k] == 255
  {
    if t == [] {
    } else {
      AllOnes(t[1..]);
      NaturalBound(t[1..]);
      Later(t, 255);
    }
  }

  lemma {:induction false} Extremes(lo: nat, hi: nat, p: nat, signed: bool, mask: nat)
    requires lo < WIDE && hi < p && p >= 1
    requires mask == if !signed || 2 * lo < WIDE then 0 else 255
    ensures !signed ==> (lo + WIDE * hi < WIDE <==> hi == 0)
    ensures signed ==>
              var v := lo + WIDE * hi;
              var n := if 2 * v >= WIDE * p then v - WIDE * p else v;
              (-0x8000_0000_0000_0000 <= n < 0x8000_0000_0000_0000 <==> if mask == 0 then hi == 0 else hi == p - 1)
  {
  }

  // ---- pack, packsize, unpack ----

  /** The bytes that one argument adds. */
  method EncodeValue(o: Opt, v: Value) returns (r: Option<seq<Byte>>)
    requires o.kind in {Kint, Kuint, Kstring} ==> o.size > 0
    ensures r == Encode(o, o.h.little, v)
  {
    hide IntBytes, InOrder;
    var s: seq<Byte>;
    match o.kind
    case Kint =>
      if !v.Int? || !Fits(Kint, o.size, v.n) {
        return None;
      }
      IntBytesFrom64(Kint, o.size, v.n);
      s := PackInt(Complement64(v.n), o.h.little, o.size, v.n < 0);
      return Some(s);
    case Kuint =>
      if !v.Int? || !Fits(Kuint, o.size, v.n) {
        return None;
      }
      IntBytesFrom64(Kuint, o.size, v.n);
      s := PackInt(Complement64(v.n), o.h.little, o.size, false);
      return Some(s);
    case Kfloat =>
      if !v.Float? || |v.image| != o.size {
        return None;
      }
      s := CopyWithEndian(v.image, o.h.little == o.h.native);
      return Some(s);
    case Kchar =>
      return if v.Str? && |v.s| == o.size then Some(v.s) else None;
    case Kstring =>
      if !v.Str? || |v.s| >= WIDE / 2 || !Fits(Kuint, o.size, |v.s|) {
        return None;
      }
      IntBytesFrom64(Kuint, o.size, |v.s|);
      s := PackInt(|v.s|, o.h.little, o.size, false);
      return Some(s + v.s);
    case Kzstr =>
      if !v.Str? || 0 in v.s {
        return None;
      }
      return Some(v.s + [0]);
    case _ =>
      return None;
  }

  lemma {:induction false} AppendTwice(a: seq<Byte>, b: seq<Byte>, r: Option<seq<Byte>>)
    ensures Append(a, Append(b, r)) == Append(a + b, r) && Append([], r) == r
  {
    if r.Some? {
      assert a + (b + r.value) == a + b + r.value;
      assert [] + r.value == r.value;
    }
  }

  method StrPack(fmt: seq<char>, args: seq<Value>, native: bool) returns (r: Option<seq<Byte>>)
    ensures r == PackFrom(Header(native, 1, native), fmt, 0, args, 0)
  {
    hide DetailAt, Encode, Pad, Append;
    ghost var all := PackFrom(Header(native, 1, native), fmt, 0, args, 0);
    var h, p, arg := Header(native, 1, native), 0, 0;
    var totalsize := 0;
    var b: seq<Byte> := [];
    AppendTwice([], [], all);
    while At(fmt, p) != '\0'
      invariant 0 <= p <= |fmt| && 0 <= arg <= |args| && totalsize == |b|
      invariant all == Append(b, PackFrom(h, fmt, p, args[arg..], totalsize))
      decreases |fmt| - p
    {
      var d, ntoalign := GetDetails(h, fmt, p, totalsize);
      if d.None? {
        NoneStays(b);
        return None;
      }
      var o := d.value.o;
      var bs := Filler(o.kind);
      if TakesArgument(o.kind) {
        if arg == |args| {
          NoneStays(b);
          return None;
        }
        var e := EncodeValue(o, args[arg]);
        if e.None? {
          NoneStays(b);
          return None;
        }
        assert args[arg..][1..] == args[arg + 1..];
        bs, arg := e.value, arg + 1;
      }
      var pad := Zeros(ntoalign);
      AppendTwice(b, pad + bs, PackFrom(o.h, fmt, o.next, args[arg..], totalsize + |pad| + |bs|));
      b := b + (pad + bs);
      totalsize := totalsize + ntoalign + |bs|;
      h, p := o.h, o.next;
    }
    AppendNone(b);
    return Some(b);
  }

  lemma {:induction false} NoneStays(b: seq<Byte>)
    ensures Append(b, None) == None
  {
  }

  lemma {:induction false} AppendNone(b: seq<Byte>)
    ensures Append(b, Some([])) == Some(b)
  {
    assert b + [] == b;
  }

  method StrPackSize(fmt: seq<char>, native: bool) returns (r: Option<nat>)
    ensures r == SizeFrom(Header(native, 1, native), fmt, 0, 0)
  {
    hide DetailAt, Pad;
    var h, p := Header(native, 1, native), 0;
    var totalsize := 0;
    while At(fmt, p) != '\0'
      invariant 0 <= p <= |fmt| && 0 <= totalsize
      invariant SizeFrom(Header(native, 1, native), fmt, 0, 0) == SizeFrom(h, fmt, p, totalsize)
      decreases |fmt| - p
    {
      var d, ntoalign := GetDetails(h, fmt, p, totalsize);
      if d.None? {
        return None;
      }
      var o := d.value.o;
      var size := o.size + ntoalign;
      if totalsize > MAXSIZE - size {
        return None;
      }
      totalsize := totalsize + size;
      if o.kind == Kstring || o.kind == Kzstr {
        return None;
      }
      h, p := o.h, o.next;
    }
    return Some(totalsize);
  }

  method StrLen(data: seq<Byte>, pos: nat) returns (e: nat)
    requires pos <= |data|
    ensures e == ZeroAt(data, pos)
  {
    e := pos;
    while e < |data| && data[e] != 0
      invariant pos <= e <= |data| && ZeroAt(data, pos) == ZeroAt(data, e)
    {
      e := e + 1;
    }
  }

  /** The value at pos, and where it ends. */
  method DecodeValue(o: Opt, data: seq<Byte>, pos: nat) returns (r: Option<(Value, nat)>)
    requires pos + o.size <= |data| && (o.kind in {Kint, Kuint, Kstring} ==> 1 <= o.size <= MAXINTSIZE)
    ensures r == Decode(o, o.h.little, data, pos)
  {
    hide IntValue, InOrder;
    var fixed := data[pos..pos + o.size];
    match o.kind
    case Kint =>
      var n := UnpackInt(fixed, o.h.little, true);
      return if n.Some? then Some((Int(n.value), pos + o.size)) else None;
    case Kuint =>
      var n := UnpackInt(fixed, o.h.little, false);
      return if n.Some? then Some((Int(n.value), pos + o.size)) else None;
    case Kfloat =>
      var s := CopyWithEndian(fixed, o.h.little == o.h.native);
      return Some((Float(s), pos + o.size));
    case Kchar =>
      return Some((Str(fixed), pos + o.size));
    case Kstring =>
      var n := UnpackInt(fixed, o.h.little, false);
      if n.None? {
        return None;
      }
      var len, at := Complement64(n.value), pos + o.size;
      if at + len > |data| {
        return None;
      }
      return Some((Str(data[at..at + len]), at + len));
    case Kzstr =>
      var e := StrLen(data, pos);
      var len := CastInt(e - pos);
      if len < 0 {
        return None;
      }
      return Some((Str(data[pos..pos + len]), pos + len + 1));
    case _ =>
      return None;
  }

  function PushAll(vs: seq<Value>, r: Option<(seq<Value>, nat)>): Option<(seq<Value>, nat)> {
    if r.None? then None else Some((vs + r.value.0, r.value.1))
  }

  lemma {:induction false} PushLast(vs: seq<Value>, v: Value, r: Option<(seq<Value>, nat)>)
    ensures PushAll(vs, Push(v, r)) == PushAll(vs + [v], r) && PushAll([], r) == r
  {
    if r.Some? {
      assert vs + ([v] + r.value.0) == vs + [v] + r.value.0;
      assert [] + r.value.0 == r.value.0;
    }
  }

  /** Where unpack starts: positions count from 1, or from -1 at the end; 0 and less are outside. */
  function StartOf(init: int, len: nat): (r: Option<nat>)
    ensures r == if 1 <= init <= len + 1 then Some(init - 1)
                 else if init < 0 <= len + init then Some(len + init)
                 else None
  {
    var rel := if init >= 0 then init else if -init > len then 0 else len + init + 1;
    if 1 <= rel <= len + 1 then Some(rel - 1) else None
  }

  /** The values, and the position behind them, counted from 1. */
  method StrUnpack(fmt: seq<char>, data: seq<Byte>, init: int, native: bool) returns (r: Option<(seq<Value>, nat)>)
    ensures match StartOf(init, |data|)
            case None => r == None
            case Some(start) =>
              match UnpackFrom(Header(native, 1, native), fmt, 0, data, start)
              case None => r == None
              case Some(v) => r == Some((v.0, v.1 + 1))
  {
    hide DetailAt, Decode, Pad, PushAll, Push;
    var start := StartOf(init, |data|);
    if start.None? {
      return None;
    }
    var h, p, pos := Header(native, 1, native), 0, start.value;
    ghost var all := UnpackFrom(h, fmt, 0, data, pos);
    var values: seq<Value> := [];
    PushLast([], Int(0), all);
    while At(fmt, p) != '\0'
      invariant 0 <= p <= |fmt| && 0 <= pos && all == PushAll(values, UnpackFrom(h, fmt, p, data, pos))
      decreases |fmt| - p
    {
      var d, ntoalign := GetDetails(h, fmt, p, pos);
      PushedNone(values);
      if d.None? {
        return None;
      }
      var o := d.value.o;
      if pos + ntoalign + o.size > |data| {
        return None;
      }
      pos := pos + ntoalign;
      if TakesArgument(o.kind) {
        var v := DecodeValue(o, data, pos);
        if v.None? {
          PushFails();
          return None;
        }
        PushLast(values, v.value.0, UnpackFrom(o.h, fmt, o.next, data, v.value.1));
        values, pos := values + [v.value.0], v.value.1;
      } else {
        pos := pos + o.size;
      }
      h, p := o.h, o.next;
    }
    PushedEnd(values, pos);
    return Some((values, pos + 1));
  }

  lemma {:induction false} PushedNone(vs: seq<Value>)
    ensures PushAll(vs, None) == None
  {
  }

  lemma {:induction false} PushFails()
    ensures forall v :: Push(v, None) == None
  {
  }

  lemma {:induction false} PushedEnd(vs: seq<Value>, pos: nat)
    ensures PushAll(vs, Some(([], pos))) == Some((vs, pos))
  {
    assert vs + [] == vs;
  }

  /** string.unpack of what string.pack made: the arguments and the length plus one. */
  method PackThenUnpack(fmt: seq<char>, args: seq<Value>, native: bool)
    returns (packed: Option<seq<Byte>>, r: Option<(seq<Value>, nat)>, size: Option<nat>)
    ensures packed.Some? ==>
              var n := Arity(Header(native, 1, native), fmt, 0);
              && n <= |args|
              && (r == Some((args[..n], |packed.value| + 1)) <==> AllShort(Header(native, 1, native), fmt, 0, args))
    ensures packed.Some? && size.Some? ==> size.value == |packed.value|
  {
    hide PackFrom, UnpackFrom, SizeFrom, Arity, AllShort;
    r := None;
    packed := StrPack(fmt, args, native);
    size := StrPackSize(fmt, native);
    if packed.Some? {
      UnpackPacked(Header(native, 1, native), fmt, 0, args, []);
      assert [] + packed.value == packed.value;
      r := StrUnpack(fmt, packed.value, 1, native);
      if size.Some? {
        SizeIsLength(Header(native, 1, native), fmt, 0, args, 0);
      }
    }
  }
}
