/** The decoder: tokens read from the text, strings built in a scratch buffer whose size is set once. */
module JsonDecode {
  import opened Arith
  import opened CStrings
  import opened Options
  import opened Json
  import StrBuf

  class Parser {
    const data: string
    const cfg: Config
    const tmp: StrBuf.Buffer
    var ptr: nat
    var depth: nat

    /** The scratch buffer holds a string as long as the whole text. */
    constructor (cfg: Config, data: string)
      ensures this.data == data && this.cfg == cfg && ptr == 0 && depth == 0 && Valid()
      ensures fresh(tmp) && fresh(tmp.buf)
    {
      this.cfg, this.data, ptr, depth := cfg, data, 0, 0;
      tmp := new StrBuf.Buffer(|data|);
    }

    ghost predicate Valid()
      reads this, tmp
    {
      tmp.Valid() && ptr <= |data| && tmp.buf.Length > |data|
    }

    /** hexdigit2int, four times; false for anything that is no digit, the end of the text included. */
    static method DecodeHex4(data: string, i: nat) returns (r: Option<nat>)
      ensures r == Hex4(data, i)
    {
      var digit := new nat[4];
      var k := 0;
      while k < 4
        invariant 0 <= k <= 4
        invariant forall j | 0 <= j < k :: HexValue(At(data, i + j)) == Some(digit[j])
      {
        var d := HexValue(At(data, i + k));
        if d.None? {
          assert k == 0 || k == 1 || k == 2 || k == 3;
          return None;
        }
        digit[k] := d.value;
        k := k + 1;
      }
      assert HexValue(At(data, i + 0)) == Some(digit[0]);
      return Some(digit[0] * 4096 + digit[1] * 256 + digit[2] * 16 + digit[3]);
    }

    /** json_append_unicode_escape: appends without a check, since an escape is longer than what it stands for. */
    method AppendUnicodeEscape() returns (ok: bool)
      requires Valid() && tmp.Empty() >= |data| - ptr
      modifies this`ptr, tmp`length, tmp.buf
      ensures Valid() && ok == UnicodeAt(data, old(ptr)).Some?
      ensures ok ==> var u := UnicodeAt(data, old(ptr)).value;
                     && ptr == u.1 && tmp.Text() == old(tmp.Text()) + Utf8(u.0) && tmp.Empty() >= |data| - ptr
    {
      hide Hex4, Utf8;
      var escapeLen := 6;
      var codepoint := DecodeHex4(data, ptr + 2);
      if codepoint.None? {
        return false;
      }
      var cp := codepoint.value;
      if 0xD800 <= cp < 0xE000 {
        if cp >= 0xDC00 {
          return false;
        }
        if At(data, ptr + escapeLen) != '\\' || At(data, ptr + escapeLen + 1) != 'u' {
          return false;
        }
        var low := DecodeHex4(data, ptr + 2 + escapeLen);
        if low.None? || !(0xDC00 <= low.value < 0xE000) {
          return false;
        }
        cp := (cp - 0xD800) * 1024 + (low.value - 0xDC00) + 0x10000;
        escapeLen := 12;
      }
      var utf8 := Utf8(cp);
      tmp.AppendMemUnsafe(utf8);
      ptr := ptr + escapeLen;
      ok := true;
    }

    /** One character or escape of a string, appended without a check. */
    method AppendNext() returns (ok: bool)
      requires Valid() && tmp.Empty() >= |data| - ptr && At(data, ptr) != '\"'
      modifies this`ptr, tmp`length, tmp.buf
      ensures Valid()
      ensures !ok ==> StringFrom(data, old(ptr)) == None
      ensures ok ==> ptr > old(ptr) && tmp.Empty() >= |data| - ptr
      ensures ok ==> Prepend(old(tmp.Text()), StringFrom(data, old(ptr))) == Prepend(tmp.Text(), StringFrom(data, ptr))
    {
      hide UnicodeAt, Utf8, Unescape, Prepend, StringFrom;
      var ch := At(data, ptr);
      StringStep(data, ptr);
      if ch == '\0' {
        return false;
      }
      if ch == '\\' {
        if At(data, ptr + 1) == 'u' {
          ghost var t, u := tmp.Text(), UnicodeAt(data, ptr);
          ok := AppendUnicodeEscape();
          if ok {
            PrependTwice(t, Utf8(u.value.0), StringFrom(data, ptr));
          }
          return;
        }
        var e := Unescape(At(data, ptr + 1));
        if e.None? {
          return false;
        }
        InText(data, ptr + 1);
        ch := e.value;
        ptr := ptr + 1;
      }
      PrependTwice(tmp.Text(), [ch], StringFrom(data, ptr + 1));
      tmp.AppendCharUnsafe(ch);
      ptr := ptr + 1;
      return true;
    }

    /** json_next_string_token: from the opening quote; every append is unchecked. */
    method NextStringToken() returns (token: Token)
      requires Valid() && ptr < |data| && data[ptr] == '\"'
      modifies this`ptr, tmp`length, tmp.buf
      ensures Valid()
      ensures match StringFrom(data, old(ptr) + 1)
              case None => token == Error
              case Some(s) => token == Text(s.0) && ptr == s.1
    {
      hide Prepend, StringFrom;
      ptr := ptr + 1;
      ghost var start := ptr;
      tmp.Reset();
      PrependNothing(StringFrom(data, start));
      while At(data, ptr) != '\"'
        invariant Valid() && tmp.Empty() >= |data| - ptr
        invariant StringFrom(data, start) == Prepend(tmp.Text(), StringFrom(data, ptr))
        decreases |data| - ptr
      {
        PrependFails(tmp.Text());
        var ok := AppendNext();
        if !ok {
          return Error;
        }
      }
      StringStep(data, ptr);
      PrependEnd(tmp.Text(), ptr + 1);
      ptr := ptr + 1;
      tmp.EnsureNull();
      token := Text(tmp.buf[..tmp.length]);
    }

    method NextNumberToken() returns (token: Token)
      requires Valid()
      modifies this`ptr
      ensures Valid() && (token, ptr) == NumberToken(data, old(ptr), cfg.strtod)
    {
      var n := NumberAt(data, ptr, cfg.strtod);
      if n.1 == ptr {
        token := Error;
      } else {
        token, ptr := Scalar(n.0), n.1;
      }
    }

    /** json_next_token: the position moves behind the token, except for an error. */
    method NextToken() returns (token: Token)
      requires Valid()
      modifies this`ptr, tmp`length, tmp.buf
      ensures Valid() && token == TokenAt(cfg, data, old(ptr)).0
      ensures token != Error ==> ptr == TokenAt(cfg, data, old(ptr)).1
    {
      hide StringFrom, NumberToken, IsInvalidNumber, StartsAnyCase;
      while IsSpace(At(data, ptr))
        invariant Valid() && SkipSpace(data, old(ptr)) == SkipSpace(data, ptr)
        decreases |data| - ptr
      {
        ptr := ptr + 1;
      }
      var ch := At(data, ptr);
      match ch
      case '{' => token, ptr := ObjBegin, ptr + 1;
      case '}' => token, ptr := ObjEnd, ptr + 1;
      case '[' => token, ptr := ArrBegin, ptr + 1;
      case ']' => token, ptr := ArrEnd, ptr + 1;
      case ',' => token, ptr := Comma, ptr + 1;
      case ':' => token, ptr := Colon, ptr + 1;
      case '\0' => token := End;
      case '\"' => token := NextStringToken();
      case _ =>
        if ch == '-' || IsDigit(ch) {
          if !cfg.lenient && IsInvalidNumber(data, ptr) {
            return Error;
          }
          token := NextNumberToken();
        } else if Starts(data, ptr, "true") {
          token, ptr := Scalar(Bool(true)), ptr + 4;
        } else if Starts(data, ptr, "false") {
          token, ptr := Scalar(Bool(false)), ptr + 5;
        } else if Starts(data, ptr, "null") {
          token, ptr := Scalar(Null), ptr + 4;
        } else if ch in {'i', 'I', 'n', 'N', '+'} && cfg.lenient && IsInvalidNumber(data, ptr) {
          token := NextNumberToken();
        } else {
          token := Error;
        }
    }

    /** What a parsing step at the given place of the text must leave. */
    ghost predicate Agrees<T>(r: Option<T>, spec: Option<(T, nat)>)
      reads this, tmp
    {
      match spec
      case None => r == None
      case Some(v) => r == Some(v.0) && ptr == v.1
    }

    /** json_process_value: the value whose first token is at hand. */
    method ProcessValue(token: Token) returns (r: Option<Value>)
      requires Valid()
      modifies this, tmp`length, tmp.buf
      ensures Valid() && Agrees(r, ValueFrom(cfg, data, token, old(ptr), old(depth)))
      ensures r.Some? ==> depth == old(depth)
      decreases |data| - ptr, 2
    {
      hide TokenAt, MembersFrom, ElementsFrom;
      match token
      case Text(s) => return Some(Str(s));
      case Scalar(v) => return Some(v);
      case ObjBegin =>
        r := ParseObject();
      case ArrBegin =>
        r := ParseArray();
      case _ => return None;
    }

    /** json_parse_object_context */
    method ParseObject() returns (r: Option<Value>)
      requires Valid()
      modifies this, tmp`length, tmp.buf
      ensures Valid() && Agrees(r, ValueFrom(cfg, data, ObjBegin, old(ptr), old(depth)))
      ensures r.Some? ==> depth == old(depth)
      decreases |data| - ptr, 1
    {
      hide TokenAt, MembersFrom, ElementsFrom;
      depth := depth + 1;
      if depth > cfg.maxDepth {
        return None;
      }
      var token := NextToken();
      if token == ObjEnd {
        depth := depth - 1;
        return Some(Obj([]));
      }
      NoMembers(cfg, data, TokenAt(cfg, data, old(ptr)).1, depth);
      if token == Error || token == End {
        return None;
      }
      var members := ParseMembers(token);
      if members.None? {
        return None;
      }
      depth := depth - 1;
      return Some(Obj(members.value));
    }

    /** The loop over the members, from the first key on. */
    method ParseMembers(first: Token) returns (r: Option<seq<Field>>)
      requires Valid()
      modifies this, tmp`length, tmp.buf
      ensures Valid() && Agrees(r, MembersFrom(cfg, data, first, old(ptr), old(depth)))
      ensures r.Some? ==> depth == old(depth)
      decreases |data| - ptr, 0
    {
      hide TokenAt, ValueFrom;
      var token := first;
      var fields: seq<Field> := [];
      ghost var all := MembersFrom(cfg, data, first, ptr, depth);
      MoreNothing(all);
      while true
        invariant Valid() && depth == old(depth) && old(ptr) <= ptr
        invariant all == More(fields, MembersFrom(cfg, data, token, ptr, depth))
        decreases |data| - ptr
      {
        ghost var start := ptr;
        MoreFails(fields);
        if !token.Text? {
          return None;
        }
        var key := token.s;
        ghost var t0 := token;
        token := NextToken();
        if token != Colon {
          return None;
        }
        token := NextToken();
        ghost var at := TokenAt(cfg, data, TokenAt(cfg, data, start).1);
        if token == Error || token == End {
          NoValue(cfg, data, at.1, depth);
          return None;
        }
        var v := ProcessValue(token);
        if v.None? {
          return None;
        }
        ghost var e := ptr;
        token := NextToken();
        if token == ObjEnd {
          MoreEnd(fields, Field(key, v.value), ptr);
          return Some(fields + [Field(key, v.value)]);
        }
        if token != Comma {
          return None;
        }
        token := NextToken();
        ghost var next := TokenAt(cfg, data, TokenAt(cfg, data, e).1);
        if token == Error {
          NoMembers(cfg, data, next.1, depth);
          return None;
        }
        MoreTwice(fields, Field(key, v.value), MembersFrom(cfg, data, token, ptr, depth));
        fields := fields + [Field(key, v.value)];
      }
    }

    /** json_parse_array_context */
    method ParseArray() returns (r: Option<Value>)
      requires Valid()
      modifies this, tmp`length, tmp.buf
      ensures Valid() && Agrees(r, ValueFrom(cfg, data, ArrBegin, old(ptr), old(depth)))
      ensures r.Some? ==> depth == old(depth)
      decreases |data| - ptr, 1
    {
      hide TokenAt, MembersFrom, ElementsFrom;
      depth := depth + 1;
      if depth > cfg.maxDepth {
        return None;
      }
      var token := NextToken();
      if token == ArrEnd {
        depth := depth - 1;
        return Some(Arr([]));
      }
      if token == Error || token == End {
        return None;
      }
      var items := ParseElements(token);
      if items.None? {
        return None;
      }
      depth := depth - 1;
      return Some(Arr(items.value));
    }

    /** The loop over the elements, from the token of the first one on. */
    method ParseElements(first: Token) returns (r: Option<seq<Value>>)
      requires Valid()
      modifies this, tmp`length, tmp.buf
      ensures Valid() && Agrees(r, ElementsFrom(cfg, data, first, old(ptr), old(depth)))
      ensures r.Some? ==> depth == old(depth)
      decreases |data| - ptr, 3
    {
      hide TokenAt, ValueFrom;
      var token := first;
      var items: seq<Value> := [];
      ghost var all := ElementsFrom(cfg, data, first, ptr, depth);
      MoreNothing(all);
      while true
        invariant Valid() && depth == old(depth) && old(ptr) <= ptr
        invariant all == More(items, ElementsFrom(cfg, data, token, ptr, depth))
        decreases |data| - ptr
      {
        MoreFails(items);
        var v := ProcessValue(token);
        if v.None? {
          return None;
        }
        ghost var e := ptr;
        token := NextToken();
        if token == ArrEnd {
          MoreEnd(items, v.value, ptr);
          return Some(items + [v.value]);
        }
        if token != Comma {
          return None;
        }
        token := NextToken();
        ghost var next := TokenAt(cfg, data, TokenAt(cfg, data, e).1);
        if token == Error {
          NoElements(cfg, data, next.1, depth);
          return None;
        }
        MoreTwice(items, v.value, ElementsFrom(cfg, data, token, ptr, depth));
        items := items + [v.value];
      }
    }
  }

  ghost function More<T>(s: seq<T>, r: Option<(seq<T>, nat)>): Option<(seq<T>, nat)> {
    if r.None? then None else Some((s + r.value.0, r.value.1))
  }

  lemma {:induction false} MoreNothing<T>(r: Option<(seq<T>, nat)>)
    ensures r == More([], r)
  {
    if r.Some? {
      assert [] + r.value.0 == r.value.0;
    }
  }

  lemma {:induction false} MoreFails<T>(s: seq<T>)
    ensures More(s, None) == None
  {
  }

  lemma {:induction false} MoreEnd<T>(s: seq<T>, x: T, n: nat)
    ensures More(s, Some(([x], n))) == Some((s + [x], n))
  {
  }

  lemma {:induction false} MoreTwice<T>(s: seq<T>, x: T, r: Option<(seq<T>, nat)>)
    ensures More(s, More([x], r)) == More(s + [x], r)
  {
    if r.Some? {
      assert s + ([x] + r.value.0) == s + [x] + r.value.0;
    }
  }

  lemma {:induction false} NoMembers(c: Config, data: string, i: nat, depth: nat)
    requires i <= |data|
    ensures MembersFrom(c, data, Error, i, depth) == None && MembersFrom(c, data, End, i, depth) == None
  {
  }

  lemma {:induction false} NoValue(c: Config, data: string, i: nat, depth: nat)
    requires i <= |data|
    ensures ValueFrom(c, data, Error, i, depth) == None && ValueFrom(c, data, End, i, depth) == None
  {
  }

  lemma {:induction false} NoElements(c: Config, data: string, i: nat, depth: nat)
    requires i <= |data|
    ensures ElementsFrom(c, data, Error, i, depth) == None && ElementsFrom(c, data, End, i, depth) == None
  {
  }

  /** json_decode: the value of the text; the scratch buffer is big enough for every text below 2^31 bytes. */
  method Decode(cfg: Config, data: string) returns (r: Option<Value>)
    requires |data| < 0x7fff_ffff
    ensures r == Parse(cfg, data)
  {
    hide TokenAt, ValueFrom;
    if |data| >= 2 && (data[0] == '\0' || data[1] == '\0') {
      return None;
    }
    var json := new Parser(cfg, data);
    var token := json.NextToken();
    if token == Error || token == End {
      NoValue(cfg, data, TokenAt(cfg, data, 0).1, 0);
      return None;
    }
    r := json.ProcessValue(token);
    if r.None? {
      return;
    }
    token := json.NextToken();
    if token != End {
      return None;
    }
  }

  /** What comes next in a string. */
  lemma {:induction false} StringStep(data: string, i: nat)
    ensures var c, d := At(data, i), At(data, i + 1);
            StringFrom(data, i) ==
            if c == '\"' then Some(("", i + 1))
            else if c == '\0' then None
            else if c != '\\' then Prepend([c], StringFrom(data, i + 1))
            else if d == 'u' then
              var u := UnicodeAt(data, i);
              if u.None? then None else Prepend(Utf8(u.value.0), StringFrom(data, u.value.1))
            else if Unescape(d).None? then None
            else Prepend([Unescape(d).value], StringFrom(data, i + 2))
    ensures At(data, i) != '\0' ==> i < |data|
  {
  }

  lemma {:induction false} PrependNothing(r: Option<(string, nat)>)
    ensures r == Prepend("", r)
  {
    if r.Some? {
      assert "" + r.value.0 == r.value.0;
    }
  }

  lemma {:induction false} PrependTwice(s: string, t: string, r: Option<(string, nat)>)
    ensures Prepend(s, Prepend(t, r)) == Prepend(s + t, r)
  {
    if r.Some? {
      assert s + (t + r.value.0) == s + t + r.value.0;
    }
  }

  lemma {:induction false} PrependFails(s: string)
    ensures Prepend(s, None) == None
  {
  }

  lemma {:induction false} PrependEnd(s: string, n: nat)
    ensures Prepend(s, Some(("", n))) == Some((s, n))
  {
    assert s + "" == s;
  }

  lemma {:induction false} InText(data: string, i: nat)
    requires Unescape(At(data, i)).Some?
    ensures i < |data|
  {
  }
}
