/** The encoder: values printed into the string buffer. */
module JsonEncode {
  import opened Arith
  import opened Json
  import opened JsonText
  import Options
  import StrBuf

  /** json_append_string: room is made once for the longest text, and most characters go in unchecked. */
  method AppendString(json: StrBuf.Buffer, s: string)
    requires json.Valid()
    modifies json, json.buf
    ensures json.Valid() && json.Text() == old(json.Text()) + Quoted(s)
    ensures json.buf == old(json.buf) || fresh(json.buf)
  {
    hide Escape, Escaped;
    ghost var t := json.Text();
    json.EnsureEmptyLength(|s| * 6 + 2);
    json.AppendCharUnsafe('\"');
    var i := 0;
    ghost var done := "";
    EscapedNone(s);
    while i < |s|
      invariant 0 <= i <= |s| && json.Valid() && json.Empty() >= (|s| - i) * 6 + 1
      invariant json.Text() == t + "\"" + done && done + Escaped(s[i..]) == Escaped(s)
      invariant json.buf == old(json.buf) || fresh(json.buf)
    {
      var e := Escape(s[i]);
      EscapedNext(s, i);
      Join(t + "\"", done, e, Escaped(s[i + 1..]));
      AppendEscape(json, s[i]);
      done := done + e;
      i := i + 1;
    }
    EscapedEnd(s, done);
    json.AppendCharUnsafe('\"');
    assert t + "\"" + Escaped(s) + ['\"'] == t + Quoted(s);
  }

  /** The escape of c, or c itself; either fits in the room made. */
  method AppendEscape(json: StrBuf.Buffer, c: char)
    requires json.Valid() && json.Empty() >= 6
    modifies json, json.buf
    ensures json.Valid() && (json.buf == old(json.buf) || fresh(json.buf))
    ensures json.Text() == old(json.Text()) + Escape(c) && json.Empty() >= old(json.Empty()) - 6
  {
    hide Escape;
    var e := Escape(c);
    if e != [c] {
      json.AppendString(e);
    } else {
      json.AppendCharUnsafe(c);
    }
  }

  lemma {:induction false} Join(a: string, b: string, c: string, d: string)
    ensures a + b + c == a + (b + c) && b + (c + d) == b + c + d
  {
  }

  lemma {:induction false} EscapedNone(s: string)
    ensures "" + Escaped(s[0..]) == Escaped(s)
  {
    assert s[0..] == s;
  }

  lemma {:induction false} EscapedNext(s: string, i: nat)
    requires i < |s|
    ensures Escaped(s[i..]) == Escape(s[i]) + Escaped(s[i + 1..]) && 1 <= |Escape(s[i])| <= 6
  {
    assert s[i..][1..] == s[i + 1..];
  }

  lemma {:induction false} EscapedEnd(s: string, done: string)
    requires done + Escaped(s[|s|..]) == Escaped(s)
    ensures done == Escaped(s)
  {
    assert done + "" == done;
  }

  /** json_append_data: false is the error "excessive nesting". */
  method AppendData(json: StrBuf.Buffer, v: Value, depth0: nat, maxDepth: int) returns (ok: bool)
    requires json.Valid() && Printable(v)
    modifies json, json.buf
    ensures json.Valid() && (json.buf == old(json.buf) || fresh(json.buf))
    ensures ok <==> Height(v) == 0 || depth0 + Height(v) <= maxDepth
    ensures ok ==> json.Text() == old(json.Text()) + TextOf(v)
    decreases v, 2
  {
    hide Quoted, IntText, ItemsText, FieldsText, ItemsHeight, FieldsHeight;
    ok := true;
    match v
    case Null => json.AppendMem("null");
    case Bool(b) =>
      if b {
        json.AppendMem("true");
      } else {
        json.AppendMem("false");
      }
    case Int(n) => json.AppendMem(IntText(n));
    case Str(s) => AppendString(json, s);
    case Arr(items) =>
      var depth := depth0 + 1;
      if depth > maxDepth {
        return false;
      }
      ok := AppendArray(json, items, depth, maxDepth);
    case Obj(fields) =>
      var depth := depth0 + 1;
      if depth > maxDepth {
        return false;
      }
      ok := AppendObject(json, fields, depth, maxDepth);
  }

  /** What is still to come before the i-th item: a comma, unless it is the first, and the rest. */
  ghost function ItemsTail(items: seq<Value>, i: nat): string {
    if i == 0 then ItemsText(items, 0) else CommaIf(i < |items|) + ItemsText(items, i)
  }

  lemma {:induction false} ItemsTailNext(items: seq<Value>, i: nat)
    requires i < |items|
    ensures ItemsTail(items, i) == CommaIf(i > 0) + (TextOf(items[i]) + ItemsTail(items, i + 1))
    ensures ItemsTail(items, |items|) == ""
  {
    hide TextOf;
  }

  lemma {:induction false} Shift3(done: string, a: string, b: string, c: string)
    ensures done + (a + (b + c)) == done + a + b + c
  {
  }

  lemma {:induction false} Close(t: string, open: string, body: string, close: string)
    ensures t + open + body + close == t + (open + (body + close)) && body + "" == body
  {
  }

  method AppendComma(json: StrBuf.Buffer, more: bool)
    requires json.Valid()
    modifies json, json.buf
    ensures json.Valid() && (json.buf == old(json.buf) || fresh(json.buf))
    ensures json.Text() == old(json.Text()) + CommaIf(more)
  {
    if more {
      json.AppendChar(',');
    }
  }

  method AppendArray(json: StrBuf.Buffer, items: seq<Value>, depth: nat, maxDepth: int) returns (ok: bool)
    requires json.Valid() && depth <= maxDepth && items != [] && forall i | 0 <= i < |items| :: Printable(items[i])
    modifies json, json.buf
    ensures json.Valid() && (json.buf == old(json.buf) || fresh(json.buf))
    ensures ok <==> depth + ItemsHeight(items, 0) <= maxDepth
    ensures ok ==> json.Text() == old(json.Text()) + ("[" + (ItemsText(items, 0) + "]"))
    decreases items, 1
  {
    hide TextOf, Printable, Height, ItemsTail, ItemsText, CommaIf;
    ghost var t := json.Text();
    json.AppendChar('[');
    ghost var done := "";
    var i := 0;
    TailStart(items);
    while i < |items|
      invariant 0 <= i <= |items| && json.Valid() && (json.buf == old(json.buf) || fresh(json.buf))
      invariant json.Text() == t + "[" + done && done + ItemsTail(items, i) == ItemsText(items, 0)
      invariant depth + ItemsHeight(items, i) <= maxDepth <==> depth + ItemsHeight(items, 0) <= maxDepth
    {
      ItemsTailNext(items, i);
      Shift3(done, CommaIf(i > 0), TextOf(items[i]), ItemsTail(items, i + 1));
      AppendComma(json, i > 0);
      ok := AppendData(json, items[i], depth, maxDepth);
      if !ok {
        return;
      }
      Shift3(t + "[", done, CommaIf(i > 0), TextOf(items[i]));
      done := done + CommaIf(i > 0) + TextOf(items[i]);
      i := i + 1;
    }
    TailEnd(items, done);
    json.AppendChar(']');
    ok := true;
    Close(t, "[", done, "]");
  }

  lemma {:induction false} TailStart(items: seq<Value>)
    ensures "" + ItemsTail(items, 0) == ItemsText(items, 0)
  {
  }

  lemma {:induction false} TailEnd(items: seq<Value>, done: string)
    requires items != [] && done + ItemsTail(items, |items|) == ItemsText(items, 0)
    ensures done == ItemsText(items, 0)
  {
    assert done + "" == done;
  }

  ghost function FieldsTail(fields: seq<Field>, i: nat): string {
    if i == 0 then FieldsText(fields, 0) else CommaIf(i < |fields|) + FieldsText(fields, i)
  }

  lemma {:induction false} FieldsTailNext(fields: seq<Field>, i: nat)
    requires i < |fields|
    ensures FieldsTail(fields, i)
         == CommaIf(i > 0) + ((Quoted(fields[i].key) + ":" + TextOf(fields[i].value)) + FieldsTail(fields, i + 1))
  {
    hide TextOf, Quoted;
    var q, a, rest := Quoted(fields[i].key), TextOf(fields[i].value), FieldsTail(fields, i + 1);
    assert q + (":" + (a + rest)) == (q + ":" + a) + rest;
  }

  lemma {:induction false} FieldsTailEnds(fields: seq<Field>, done: string)
    ensures "" + FieldsTail(fields, 0) == FieldsText(fields, 0)
    ensures done + FieldsTail(fields, |fields|) == FieldsText(fields, 0) ==> done == FieldsText(fields, 0)
  {
    assert done + "" == done;
  }

  method AppendObject(json: StrBuf.Buffer, fields: seq<Field>, depth: nat, maxDepth: int) returns (ok: bool)
    requires json.Valid() && depth <= maxDepth && AllPrintable(fields)
    modifies json, json.buf
    ensures json.Valid() && (json.buf == old(json.buf) || fresh(json.buf))
    ensures ok <==> depth + FieldsHeight(fields, 0) <= maxDepth
    ensures ok ==> json.Text() == old(json.Text()) + ("{" + (FieldsText(fields, 0) + "}"))
    decreases fields, 1
  {
    hide TextOf, Printable, Height, FieldsTail, FieldsText, Quoted, CommaIf;
    ghost var t := json.Text();
    json.AppendChar('{');
    ghost var done := "";
    var i := 0;
    FieldsTailEnds(fields, "");
    while i < |fields|
      invariant 0 <= i <= |fields| && json.Valid() && (json.buf == old(json.buf) || fresh(json.buf))
      invariant json.Text() == t + "{" + done && done + FieldsTail(fields, i) == FieldsText(fields, 0)
      invariant depth + FieldsHeight(fields, i) <= maxDepth <==> depth + FieldsHeight(fields, 0) <= maxDepth
    {
      FieldsTailNext(fields, i);
      ghost var member := Quoted(fields[i].key) + ":" + TextOf(fields[i].value);
      Shift3(done, CommaIf(i > 0), member, FieldsTail(fields, i + 1));
      AppendComma(json, i > 0);
      ok := AppendMember(json, fields[i], depth, maxDepth);
      if !ok {
        return;
      }
      Shift3(t + "{", done, CommaIf(i > 0), member);
      done := done + CommaIf(i > 0) + member;
      i := i + 1;
    }
    FieldsTailEnds(fields, done);
    json.AppendChar('}');
    ok := true;
    Close(t, "{", done, "}");
  }

  /** A key, a colon and the value. */
  method AppendMember(json: StrBuf.Buffer, field: Field, depth: nat, maxDepth: int) returns (ok: bool)
    requires json.Valid() && Printable(field.value) && depth <= maxDepth
    modifies json, json.buf
    ensures json.Valid() && (json.buf == old(json.buf) || fresh(json.buf))
    ensures ok <==> Height(field.value) == 0 || depth + Height(field.value) <= maxDepth
    ensures ok ==> json.Text() == old(json.Text()) + (Quoted(field.key) + ":" + TextOf(field.value))
    decreases field, 3
  {
    hide TextOf, Printable, Height, Quoted;
    ghost var t := json.Text();
    AppendString(json, field.key);
    json.AppendChar(':');
    ok := AppendData(json, field.value, depth, maxDepth);
    Shift3(t, Quoted(field.key), ":", TextOf(field.value));
    assert Quoted(field.key) + ":" + TextOf(field.value) == Quoted(field.key) + (":" + TextOf(field.value));
  }

  /** json_encode: the text, or none when the value nests too deep. */
  method Encode(v: Value, maxDepth: nat) returns (r: Options.Option<string>)
    requires Printable(v)
    ensures r == if Height(v) <= maxDepth then Options.Some(TextOf(v)) else Options.None
  {
    hide TextOf, Printable, Height;
    var json := new StrBuf.Buffer(0);
    var ok := AppendData(json, v, 0, maxDepth);
    if !ok {
      return Options.None;
    }
    assert "" + TextOf(v) == TextOf(v);
    return Options.Some(json.buf[..json.length]);
  }
}
