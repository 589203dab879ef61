/** The text of a value, and that parsing it gives the value back. */
module JsonText {
  import opened Arith
  import opened CStrings
  import opened Options
  import opened Json

  /** Values that print to text with the same meaning: exact integers, no empty array, no other number. */
  ghost predicate Printable(v: Value)
    decreases v
  {
    match v
    case Real(_) => false
    case Int(n) => -MAXINT < n < MAXINT
    case Arr(items) => items != [] && forall i | 0 <= i < |items| :: Printable(items[i])
    case Obj(fields) => forall i | 0 <= i < |fields| :: Printable(fields[i].value)
    case _ => true
  }

  ghost function TextOf(v: Value): string
    decreases v, 1, 0
  {
    match v
    case Null => "null"
    case Bool(b) => if b then "true" else "false"
    case Int(n) => IntText(n)
    case Real(_) => ""
    case Str(s) => Quoted(s)
    case Arr(items) => "[" + (ItemsText(items, 0) + "]")
    case Obj(fields) => "{" + (FieldsText(fields, 0) + "}")
  }

  function CommaIf(more: bool): string {
    if more then "," else ""
  }

  /** The items from the i-th on, with commas between them. */
  ghost function ItemsText(items: seq<Value>, i: nat): string
    decreases items, 0, |items| - i
  {
    if i >= |items| then "" else TextOf(items[i]) + (CommaIf(i + 1 < |items|) + ItemsText(items, i + 1))
  }

  ghost function FieldsText(fields: seq<Field>, i: nat): string
    decreases fields, 0, |fields| - i
  {
    if i >= |fields| then
      ""
    else
      var rest := CommaIf(i + 1 < |fields|) + FieldsText(fields, i + 1);
      Quoted(fields[i].key) + (":" + (TextOf(fields[i].value) + rest))
  }

  /** How deep arrays and objects nest in v. */
  ghost function Height(v: Value): nat
    decreases v, 1, 0
  {
    match v
    case Arr(items) => 1 + ItemsHeight(items, 0)
    case Obj(fields) => 1 + FieldsHeight(fields, 0)
    case _ => 0
  }

  ghost function ItemsHeight(items: seq<Value>, i: nat): nat
    decreases items, 0, |items| - i
  {
    if i >= |items| then 0 else Max(Height(items[i]), ItemsHeight(items, i + 1))
  }

  ghost function FieldsHeight(fields: seq<Field>, i: nat): nat
    decreases fields, 0, |fields| - i
  {
    if i >= |fields| then 0 else Max(Height(fields[i].value), FieldsHeight(fields, i + 1))
  }

  // ---- Pieces of a text ----

  lemma {:induction false} StartsSplit(data: string, i: nat, a: string, b: string)
    requires Starts(data, i, a + b)
    ensures Starts(data, i, a) && Starts(data, i + |a|, b)
    ensures i + |a| + |b| <= |data|
  {
    var s := data[i..i + |a + b|];
    assert s[..|a|] == a && s[|a|..] == b;
    assert data[i..i + |a|] == s[..|a|];
    assert data[i + |a|..i + |a| + |b|] == s[|a|..];
  }

  lemma {:induction false} StartsAt(data: string, i: nat, a: string)
    requires Starts(data, i, a)
    ensures forall k | 0 <= k < |a| :: At(data, i + k) == a[k]
  {
    forall k | 0 <= k < |a|
      ensures At(data, i + k) == a[k]
    {
      assert data[i..i + |a|][k] == a[k];
    }
  }

  lemma {:induction false} StartsChar(data: string, i: nat, c: char)
    requires Starts(data, i, [c])
    ensures At(data, i) == c
  {
    assert data[i] == data[i..i + 1][0];
  }

  // ---- Strings ----

  lemma {:induction false} HexBack(d: nat)
    requires d < 16
    ensures HexValue(HexDigit(d)) == Some(d)
  {
  }

  lemma {:induction false} ControlBack(data: string, i: nat, c: char)
    requires c < 128 as char
    requires Starts(data, i, "\\u00" + [HexDigit(c as int / 16), HexDigit(c as int % 16)])
    ensures UnicodeAt(data, i) == Some((c as nat, i + 6))
  {
    var e := "\\u00" + [HexDigit(c as int / 16), HexDigit(c as int % 16)];
    StartsAt(data, i, e);
    assert At(data, i + 2) == e[2] == '0' && At(data, i + 3) == e[3] == '0';
    assert At(data, i + 4) == e[4] && At(data, i + 5) == e[5];
    HexBack(c as int / 16);
    HexBack(c as int % 16);
  }

  /** One escaped character reads back as itself. */
  lemma {:induction false} EscapeBack(data: string, i: nat, c: char)
    requires Starts(data, i, Escape(c))
    ensures StringFrom(data, i) == Prepend([c], StringFrom(data, i + |Escape(c)|))
  {
    hide Starts, HexValue, Hex4;
    var e := Escape(c);
    StartsAt(data, i, e);
    assert At(data, i + 0) == e[0];
    if |e| == 2 {
      assert At(data, i + 1) == e[1];
    } else if |e| == 6 {
      assert At(data, i + 1) == e[1];
      ControlBack(data, i, c);
      hide UnicodeAt;
    }
  }

  lemma {:induction false} EndOfString(data: string, i: nat)
    requires Starts(data, i, Escaped("") + "\"")
    ensures StringFrom(data, i) == Some(("", i + 1)) && Escaped("") == ""
  {
    StartsChar(data, i, '\"');
  }

  lemma {:induction false} StringBack(data: string, i: nat, s: string)
    requires Starts(data, i, Escaped(s) + "\"")
    ensures StringFrom(data, i) == Some((s, i + |Escaped(s)| + 1))
    decreases |s|
  {
    hide Escape, Escaped, Starts, StringFrom, Prepend;
    if s == [] {
      EndOfString(data, i);
    } else {
      EscapedIs(s);
      var e, t := Escape(s[0]), Escaped(s[1..]);
      StartsSplit(data, i, e, t + "\"");
      EscapeBack(data, i, s[0]);
      StringBack(data, i + |e|, s[1..]);
      PrependIs(s, i + |e| + |t| + 1);
    }
  }

  lemma {:induction false} EscapedIs(s: string)
    requires s != []
    ensures Escaped(s) + "\"" == Escape(s[0]) + (Escaped(s[1..]) + "\"")
    ensures |Escaped(s)| == |Escape(s[0])| + |Escaped(s[1..])|
  {
  }

  lemma {:induction false} PrependIs(s: string, n: nat)
    requires s != []
    ensures Prepend([s[0]], Some((s[1..], n))) == Some((s, n))
  {
    assert [s[0]] + s[1..] == s;
  }

  lemma {:induction false} QuotedBack(c: Config, data: string, i: nat, s: string)
    requires Starts(data, i, Quoted(s))
    ensures TokenAt(c, data, i) == (Text(s), i + |Quoted(s)|)
  {
    hide Starts, Escaped, StringFrom;
    assert Quoted(s) == "\"" + (Escaped(s) + "\"");
    StartsSplit(data, i, "\"", Escaped(s) + "\"");
    StartsChar(data, i, '\"');
    StringBack(data, i + 1, s);
  }

  // ---- Numbers ----

  lemma {:induction false} DigitsAre(n: nat)
    ensures forall k | 0 <= k < |Digits(n)| :: IsDigit(Digits(n)[k])
    ensures DigitsValue(Digits(n)) == n
    ensures n > 0 ==> Digits(n)[0] != '0'
    ensures n == 0 ==> Digits(n) == "0"
  {
    if n < 10 {
    } else {
      DigitsAre(n / 10);
      var s := Digits(n / 10);
      assert (s + ['0' + (n % 10) as char])[..|s|] == s;
    }
  }

  lemma {:induction false} DigitsEndIs(data: string, i: nat, s: string)
    requires Starts(data, i, s) && (forall k | 0 <= k < |s| :: IsDigit(s[k])) && !IsDigit(At(data, i + |s|))
    ensures DigitsEnd(data, i) == i + |s|
    decreases |s|
  {
    if s == [] {
    } else {
      assert s == [s[0]] + s[1..];
      StartsSplit(data, i, [s[0]], s[1..]);
      assert data[i..i + 1] == [s[0]];
      assert data[i] == s[0];
      DigitsEndIs(data, i + 1, s[1..]);
    }
  }

  /** What may follow a value in printed text. */
  predicate Delimited(data: string, i: nat) {
    At(data, i) in {',', ']', '}', '\0'}
  }

  /** What is known of the text of an integer where it stands. */
  lemma {:induction false} IntegerHere(data: string, i: nat, n: int) returns (j: nat, s: string)
    requires Starts(data, i, IntText(n)) && Delimited(data, i + |IntText(n)|)
    ensures j == (if n < 0 then i + 1 else i) && s == Digits(if n < 0 then -n else n)
    ensures j + |s| == i + |IntText(n)| <= |data| && data[j..j + |s|] == s && DigitsEnd(data, j) == j + |s|
    ensures At(data, j) == s[0] && At(data, i) == if n < 0 then '-' else s[0]
    ensures forall k | 0 <= k < |s| :: IsDigit(s[k])
  {
    hide Digits, DigitsEnd, DigitsValue;
    var m := if n < 0 then -n else n;
    j, s := if n < 0 then i + 1 else i, Digits(m);
    DigitsAre(m);
    if n < 0 {
      StartsSplit(data, i, "-", s);
      StartsChar(data, i, '-');
    }
    StartsAt(data, j, s);
    assert At(data, j + 0) == s[0];
    DigitsEndIs(data, j, s);
  }

  lemma {:induction false} NumberAtBack(data: string, i: nat, n: int, strtod: Strtod)
    requires Starts(data, i, IntText(n)) && Delimited(data, i + |IntText(n)|) && -MAXINT < n < MAXINT
    ensures i + |IntText(n)| <= |data| && NumberAt(data, i, strtod) == (Int(n), i + |IntText(n)|)
  {
    hide Digits, DigitsEnd, DigitsValue, IntText, Starts;
    var j, s := IntegerHere(data, i, n);
    DigitsAre(if n < 0 then -n else n);
  }

  /** Strict mode takes every printed integer. */
  lemma {:induction false} NotInvalid(data: string, i: nat, n: int)
    requires Starts(data, i, IntText(n)) && Delimited(data, i + |IntText(n)|)
    ensures !IsInvalidNumber(data, i)
    ensures At(data, i) == '-' || IsDigit(At(data, i))
  {
    hide Digits, DigitsEnd, DigitsValue, IntText, Starts, StartsAnyCase;
    var j, s := IntegerHere(data, i, n);
    DigitsAre(if n < 0 then -n else n);
    if n == 0 {
      assert |s| == 1;
    }
  }

  lemma {:induction false} NumberBack(c: Config, data: string, i: nat, n: int)
    requires Starts(data, i, IntText(n)) && Delimited(data, i + |IntText(n)|) && -MAXINT < n < MAXINT
    ensures TokenAt(c, data, i) == (Scalar(Int(n)), i + |IntText(n)|)
  {
    hide IntText, NumberAt, IsInvalidNumber, StringFrom, Starts;
    NotInvalid(data, i, n);
    NumberAtBack(data, i, n, c.strtod);
    SomeText(n);
  }

  lemma {:induction false} SomeText(n: int)
    ensures IntText(n) != ""
  {
  }

  lemma {:induction false} WordBack(c: Config, data: string, i: nat)
    ensures Starts(data, i, "true") ==> TokenAt(c, data, i) == (Scalar(Bool(true)), i + 4)
    ensures Starts(data, i, "false") ==> TokenAt(c, data, i) == (Scalar(Bool(false)), i + 5)
    ensures Starts(data, i, "null") ==> TokenAt(c, data, i) == (Scalar(Null), i + 4)
  {
    if Starts(data, i, "true") {
      StartsAt(data, i, "true");
      assert At(data, i + 0) == 't';
    }
    if Starts(data, i, "false") {
      StartsAt(data, i, "false");
      assert At(data, i + 0) == 'f';
    }
    if Starts(data, i, "null") {
      StartsAt(data, i, "null");
      assert At(data, i + 0) == 'n';
    }
  }

  lemma {:induction false} MarkBack(c: Config, data: string, i: nat, ch: char)
    requires Starts(data, i, [ch]) && ch in {'{', '}', '[', ']', ',', ':'}
    ensures TokenAt(c, data, i).1 == i + 1
    ensures TokenAt(c, data, i).0 == match ch
                                     case '{' => ObjBegin
                                     case '}' => ObjEnd
                                     case '[' => ArrBegin
                                     case ']' => ArrEnd
                                     case ',' => Token.Comma
                                     case _ => Colon
  {
    StartsAt(data, i, [ch]);
    assert At(data, i + 0) == ch;
  }

  // ---- Values ----

  lemma {:induction false} ValueBack(c: Config, data: string, i: nat, v: Value, depth: nat)
    requires Starts(data, i, TextOf(v)) && Delimited(data, i + |TextOf(v)|) && Printable(v)
    requires depth + Height(v) <= c.maxDepth
    ensures var (t, j) := TokenAt(c, data, i);
            && ValueFrom(c, data, t, j, depth) == Some((v, i + |TextOf(v)|))
            && t !in {ArrEnd, ObjEnd, End, Error, Token.Comma, Colon}
    decreases v, 1, 0
  {
    hide Starts, TokenAt, Escaped, IntText, ValueFrom;
    match v
    case Int(n) => NumberBack(c, data, i, n); ScalarBack(c, data, Scalar(v), i + |IntText(n)|, depth);
    case Str(s) => QuotedBack(c, data, i, s); ScalarBack(c, data, Text(s), i + |Quoted(s)|, depth);
    case Arr(items) => ArrBack(c, data, i, items, depth);
    case Obj(fields) => ObjBack(c, data, i, fields, depth);
    case Null => WordBack(c, data, i); ScalarBack(c, data, Scalar(v), i + 4, depth);
    case Bool(b) => WordBack(c, data, i); ScalarBack(c, data, Scalar(v), i + if b then 4 else 5, depth);
    case Real(_) =>
  }

  lemma {:induction false} ScalarBack(c: Config, data: string, t: Token, i: nat, depth: nat)
    requires i <= |data|
    ensures t.Text? ==> ValueFrom(c, data, t, i, depth) == Some((Str(t.s), i))
    ensures t.Scalar? ==> ValueFrom(c, data, t, i, depth) == Some((t.v, i))
  {
  }

  lemma {:induction false} ArrBack(c: Config, data: string, i: nat, items: seq<Value>, depth: nat)
    requires Starts(data, i, "[" + (ItemsText(items, 0) + "]")) && items != []
    requires (forall n | 0 <= n < |items| :: Printable(items[n])) && depth + 1 + ItemsHeight(items, 0) <= c.maxDepth
    ensures var (t, j) := TokenAt(c, data, i);
            t == ArrBegin && ValueFrom(c, data, t, j, depth) == Some((Arr(items), i + |ItemsText(items, 0)| + 2))
    decreases items, 1, 0
  {
    hide Starts, TokenAt, ItemsText, Printable, ItemsHeight, ElementsFrom;
    StartsSplit(data, i, "[", ItemsText(items, 0) + "]");
    MarkBack(c, data, i, '[');
    ItemsBack(c, data, i + 1, items, 0, depth + 1);
    assert items[0..] == items;
  }

  lemma {:induction false} ObjBack(c: Config, data: string, i: nat, fields: seq<Field>, depth: nat)
    requires Starts(data, i, "{" + (FieldsText(fields, 0) + "}"))
    requires AllPrintable(fields) && depth + 1 + FieldsHeight(fields, 0) <= c.maxDepth
    ensures var (t, j) := TokenAt(c, data, i);
            t == ObjBegin && ValueFrom(c, data, t, j, depth) == Some((Obj(fields), i + |FieldsText(fields, 0)| + 2))
    decreases fields, 1, 0
  {
    hide Starts, TokenAt, Printable, FieldsHeight, MembersFrom, Quoted, FieldsText;
    StartsSplit(data, i, "{", FieldsText(fields, 0) + "}");
    MarkBack(c, data, i, '{');
    if fields == [] {
      NoFields(data, i + 1);
      MarkBack(c, data, i + 1, '}');
    } else {
      FieldsBack(c, data, i + 1, fields, 0, depth + 1);
      assert fields[0..] == fields;
    }
  }

  lemma {:induction false} NoFields(data: string, i: nat)
    ensures FieldsText([], 0) == ""
    ensures Starts(data, i, FieldsText([], 0) + "}") ==> Starts(data, i, "}")
  {
    assert "" + "}" == "}";
  }

  /** After an item: the text goes on with a comma and the next one, or ends. */
  lemma {:induction false} Behind(data: string, i: nat, a: string, more: bool, rest: string, close: string)
    requires Starts(data, i, (a + (CommaIf(more) + rest)) + close) && (!more ==> rest == "")
    ensures Starts(data, i, a)
    ensures more ==> Starts(data, i + |a|, ",") && Starts(data, i + |a| + 1, rest + close) && At(data, i + |a|) == ','
    ensures !more ==> Starts(data, i + |a|, close)
  {
    hide Starts;
    if more {
      assert (a + ("," + rest)) + close == a + ("," + (rest + close));
      StartsSplit(data, i, a, "," + (rest + close));
      StartsSplit(data, i + |a|, ",", rest + close);
      StartsChar(data, i + |a|, ',');
    } else {
      assert (a + ("" + rest)) + close == a + close;
      StartsSplit(data, i, a, close);
    }
  }

  lemma {:induction false} ItemsBack(c: Config, data: string, i: nat, items: seq<Value>, k: nat, depth: nat)
    requires k < |items| && (forall n | 0 <= n < |items| :: Printable(items[n]))
    requires Starts(data, i, ItemsText(items, k) + "]") && depth + ItemsHeight(items, k) <= c.maxDepth
    ensures var (t, j) := TokenAt(c, data, i);
            && ElementsFrom(c, data, t, j, depth) == Some((items[k..], i + |ItemsText(items, k)| + 1))
            && t !in {ArrEnd, End, Error}
    decreases items, 0, |items| - k
  {
    hide Starts, TokenAt, TextOf, Printable, Height;
    var a, more, rest := TextOf(items[k]), k + 1 < |items|, ItemsText(items, k + 1);
    Behind(data, i, a, more, rest, "]");
    var next := i + |a|;
    if more {
      ValueBack(c, data, i, items[k], depth);
      MarkBack(c, data, next, ',');
      ItemsBack(c, data, next + 1, items, k + 1, depth);
      assert items[k..] == [items[k]] + items[k + 1..];
    } else {
      StartsChar(data, next, ']');
      ValueBack(c, data, i, items[k], depth);
      MarkBack(c, data, next, ']');
      assert items[k..] == [items[k]];
    }
  }

  ghost predicate AllPrintable(fields: seq<Field>) {
    forall n | 0 <= n < |fields| :: Printable(fields[n].value)
  }

  lemma {:induction false} FieldsTextIs(fields: seq<Field>, k: nat)
    requires k < |fields|
    ensures var q, a, more, rest :=
        Quoted(fields[k].key), TextOf(fields[k].value), k + 1 < |fields|, FieldsText(fields, k + 1);
            && FieldsText(fields, k) + "}" == q + (":" + ((a + (CommaIf(more) + rest)) + "}"))
            && |FieldsText(fields, k)| == |q| + 1 + |a| + (if more then 1 else 0) + |rest|
            && (!more ==> rest == "")
  {
    hide Quoted, TextOf;
  }

  lemma {:induction false} KeyAndColon(c: Config, data: string, i: nat, key: string, rest: string)
    requires Starts(data, i, Quoted(key) + (":" + rest))
    ensures TokenAt(c, data, i) == (Text(key), i + |Quoted(key)|) && i + |Quoted(key)| + 1 <= |data|
    ensures TokenAt(c, data, i + |Quoted(key)|) == (Colon, i + |Quoted(key)| + 1)
    ensures Starts(data, i + |Quoted(key)| + 1, rest)
  {
    hide Quoted, TokenAt, Starts;
    StartsSplit(data, i, Quoted(key), ":" + rest);
    StartsSplit(data, i + |Quoted(key)|, ":", rest);
    QuotedBack(c, data, i, key);
    MarkBack(c, data, i + |Quoted(key)|, ':');
  }

  /** One member, once its parts are known. */
  lemma {:induction false} MemberStep(c: Config, data: string, key: string, i: nat, depth: nat, v: Value, e: nat)
    requires i <= |data| && e <= |data| && TokenAt(c, data, i).0 == Colon
    requires var (t, k) := TokenAt(c, data, TokenAt(c, data, i).1); ValueFrom(c, data, t, k, depth) == Some((v, e))
    ensures var (next, l) := TokenAt(c, data, e);
            && (next == ObjEnd ==> MembersFrom(c, data, Text(key), i, depth) == Some(([Field(key, v)], l)))
            && (next == Token.Comma ==>
                  var (u, n) := TokenAt(c, data, l);
                  var rest := MembersFrom(c, data, u, n, depth);
                  rest.Some? ==>
                    MembersFrom(c, data, Text(key), i, depth) == Some(([Field(key, v)] + rest.value.0, rest.value.1)))
  {
    hide TokenAt, ValueFrom;
  }

  lemma {:induction false} FieldsBack(c: Config, data: string, i: nat, fields: seq<Field>, k: nat, depth: nat)
    requires k < |fields| && AllPrintable(fields)
    requires Starts(data, i, FieldsText(fields, k) + "}") && depth + FieldsHeight(fields, k) <= c.maxDepth
    ensures var (t, j) := TokenAt(c, data, i);
            && MembersFrom(c, data, t, j, depth) == Some((fields[k..], i + |FieldsText(fields, k)| + 1))
            && t != ObjEnd
    decreases fields, 0, |fields| - k
  {
    hide Starts, TokenAt, TextOf, Printable, Height, Quoted, MembersFrom, FieldsText, CommaIf, FieldsHeight,
        AllPrintable;
    var q, a, next := FieldParts(c, data, i, fields, k);
    MemberFits(fields, k, depth, c.maxDepth);
    ValueBack(c, data, i + |q| + 1, fields[k].value, depth);
    MemberStep(c, data, fields[k].key, i + |q|, depth, fields[k].value, next);
    if k + 1 < |fields| {
      FieldsBack(c, data, next + 1, fields, k + 1, depth);
      assert fields[k..] == [Field(fields[k].key, fields[k].value)] + fields[k + 1..];
    } else {
      assert fields[k..] == [Field(fields[k].key, fields[k].value)];
    }
  }

  /** Where the parts of the k-th member lie: its key, its value, and what follows it. */
  ghost predicate Parts(c: Config, data: string, i: nat, fields: seq<Field>, k: nat, q: string, a: string, next: nat) {
    && k < |fields| && q == Quoted(fields[k].key) && a == TextOf(fields[k].value) && next == i + |q| + 1 + |a| < |data|
    && TokenAt(c, data, i) == (Text(fields[k].key), i + |q|) && TokenAt(c, data, i + |q|) == (Colon, i + |q| + 1)
    && Starts(data, i + |q| + 1, a) && Delimited(data, next)
  }

  /** How the text goes on behind the k-th member. */
  ghost predicate GoesOn(c: Config, data: string, i: nat, fields: seq<Field>, k: nat, next: nat) {
    && next < |data|
    && if k + 1 < |fields| then
         && TokenAt(c, data, next) == (Token.Comma, next + 1) && Starts(data, next + 1, FieldsText(fields, k + 1) + "}")
         && i + |FieldsText(fields, k)| == next + 1 + |FieldsText(fields, k + 1)|
       else TokenAt(c, data, next) == (ObjEnd, next + 1) && i + |FieldsText(fields, k)| == next
  }

  lemma {:induction false} MemberLayout(c: Config, data: string, i: nat, key: string, a: string, more: bool,
      rest: string)
    requires Starts(data, i, Quoted(key) + (":" + ((a + (CommaIf(more) + rest)) + "}"))) && (!more ==> rest == "")
    ensures var q := |Quoted(key)|;
            && TokenAt(c, data, i) == (Text(key), i + q) && i + q + 1 + |a| < |data|
            && TokenAt(c, data, i + q) == (Colon, i + q + 1) && Starts(data, i + q + 1, a)
    ensures var next := i + |Quoted(key)| + 1 + |a|;
            && Delimited(data, next)
            && (more ==> TokenAt(c, data, next) == (Token.Comma, next + 1) && Starts(data, next + 1, rest + "}"))
            && (!more ==> TokenAt(c, data, next) == (ObjEnd, next + 1))
  {
    hide Starts, TokenAt, Quoted, CommaIf;
    KeyAndColon(c, data, i, key, (a + (CommaIf(more) + rest)) + "}");
    var at := i + |Quoted(key)| + 1;
    Behind(data, at, a, more, rest, "}");
    if more {
      MarkedEnd(c, data, at + |a|, ',');
    } else {
      MarkedEnd(c, data, at + |a|, '}');
    }
  }

  lemma {:induction false} FieldParts(c: Config, data: string, i: nat, fields: seq<Field>, k: nat)
    returns (q: string, a: string, next: nat)
    requires k < |fields| && Starts(data, i, FieldsText(fields, k) + "}")
    ensures Parts(c, data, i, fields, k, q, a, next) && GoesOn(c, data, i, fields, k, next)
  {
    hide Starts, TokenAt, TextOf, Quoted, FieldsText, CommaIf, Delimited, Escaped, StringFrom, ItemsText, IntText, At;
    FieldsTextIs(fields, k);
    q, a := Quoted(fields[k].key), TextOf(fields[k].value);
    MemberLayout(c, data, i, fields[k].key, a, k + 1 < |fields|, FieldsText(fields, k + 1));
    next := i + |q| + 1 + |a|;
  }

  lemma {:induction false} MarkedEnd(c: Config, data: string, i: nat, ch: char)
    requires Starts(data, i, [ch]) && (ch == ',' || ch == '}')
    ensures i < |data| && At(data, i) == ch && TokenAt(c, data, i) == (if ch == ',' then Token.Comma else ObjEnd, i + 1)
  {
    StartsChar(data, i, ch);
    MarkBack(c, data, i, ch);
  }

  lemma {:induction false} MemberFits(fields: seq<Field>, k: nat, depth: nat, limit: int)
    requires k < |fields| && AllPrintable(fields) && depth + FieldsHeight(fields, k) <= limit
    ensures Printable(fields[k].value)
    ensures depth + Height(fields[k].value) <= limit && depth + FieldsHeight(fields, k + 1) <= limit
  {
    hide Printable, Height;
  }

  /** Parsing the text of a printable value no deeper than the limit gives that value. */
  lemma {:induction false} ParseText(c: Config, v: Value)
    requires Printable(v) && Height(v) <= c.maxDepth
    ensures Parse(c, TextOf(v)) == Some(v)
  {
    var data := TextOf(v);
    assert Starts(data, 0, data) && Delimited(data, |data|) by {
      assert data[0..0 + |data|] == data;
    }
    NoNul(v);
    ValueBack(c, data, 0, v, 0);
    AtEnd(c, data);
    hide TokenAt, ValueFrom, TextOf, Printable, Height;
  }

  lemma {:induction false} AtEnd(c: Config, data: string)
    ensures TokenAt(c, data, |data|) == (End, |data|)
  {
  }

  /** The text begins with no NUL, so that it is not taken for another encoding. */
  lemma {:induction false} NoNul(v: Value)
    requires Printable(v)
    ensures TextOf(v) != "" && TextOf(v)[0] != '\0' && (|TextOf(v)| >= 2 ==> TextOf(v)[1] != '\0')
  {
    hide Printable;
    match v
    case Int(n) => DigitsClean(if n < 0 then -n else n);
    case Str(s) => QuotedClean(s);
    case Arr(items) =>
      PrintableFirst(items);
      NoNul(items[0]);
      assert ItemsText(items, 0)[0] == TextOf(items[0])[0];
    case Obj(fields) =>
      if fields != [] {
        QuotedClean(fields[0].key);
        assert FieldsText(fields, 0)[0] == Quoted(fields[0].key)[0];
      }
    case _ => IsWord(v);
  }

  lemma {:induction false} IsWord(v: Value)
    requires Printable(v) && (v.Null? || v.Bool? || v.Real?)
    ensures TextOf(v) in {"null", "true", "false"}
  {
  }

  lemma {:induction false} PrintableFirst(items: seq<Value>)
    requires Printable(Arr(items))
    ensures items != [] && Printable(items[0])
  {
  }

  lemma {:induction false} DigitsClean(n: nat)
    ensures forall k | 0 <= k < |Digits(n)| :: Digits(n)[k] != '\0'
  {
    DigitsAre(n);
  }

  lemma {:induction false} QuotedClean(s: string)
    ensures |Quoted(s)| >= 2 && Quoted(s)[0] == '\"' && Quoted(s)[1] != '\0'
  {
    if s != [] {
      assert Escaped(s)[0] == Escape(s[0])[0];
    }
  }

  // ---- The form of a text ----

  /** The texts with a mark between each two. */
  function Joined(texts: seq<string>, mark: string): string {
    if texts == [] then ""
    else if |texts| == 1 then texts[0]
    else texts[0] + mark + Joined(texts[1..], mark)
  }

  ghost function ItemTexts(items: seq<Value>, i: nat): (texts: seq<string>)
    requires i <= |items|
    ensures |texts| == |items| - i && forall k | 0 <= k < |texts| :: texts[k] == TextOf(items[i + k])
  {
    seq(|items| - i, k requires 0 <= k < |items| - i => TextOf(items[i + k]))
  }

  ghost function MemberTexts(fields: seq<Field>, i: nat): (texts: seq<string>)
    requires i <= |fields|
    ensures |texts| == |fields| - i
    ensures forall k | 0 <= k < |texts| ::
              texts[k] == "\"" + Escaped(fields[i + k].key) + "\":" + TextOf(fields[i + k].value)
  {
    seq(|fields| - i, k requires 0 <= k < |fields| - i =>
      "\"" + Escaped(fields[i + k].key) + "\":" + TextOf(fields[i + k].value))
  }

  lemma {:induction false} ItemText(items: seq<Value>, i: nat)
    requires i < |items|
    ensures ItemsText(items, i) == TextOf(items[i]) + CommaIf(i + 1 < |items|) + ItemsText(items, i + 1)
  {
    hide TextOf;
    var a, b, c := TextOf(items[i]), CommaIf(i + 1 < |items|), ItemsText(items, i + 1);
    assert a + (b + c) == a + b + c;
  }

  lemma {:induction false} NoItems(items: seq<Value>)
    ensures ItemsText(items, |items|) == ""
  {
  }

  lemma {:induction false} ItemsJoined(items: seq<Value>, i: nat)
    requires i <= |items|
    ensures ItemsText(items, i) == Joined(ItemTexts(items, i), ",")
    decreases |items| - i
  {
    hide TextOf, ItemsText;
    var texts := ItemTexts(items, i);
    if i == |items| {
      NoItems(items);
    } else {
      ItemText(items, i);
      ItemsJoined(items, i + 1);
      assert texts[1..] == ItemTexts(items, i + 1);
      if i + 1 == |items| {
        NoItems(items);
        assert texts[0] + "" + "" == texts[0];
      }
    }
  }

  lemma {:induction false} MemberRegroup(key: string, value: string, comma: string, rest: string)
    ensures "\"" + (key + "\"") + (":" + (value + (comma + rest))) == "\"" + key + "\":" + value + comma + rest
  {
    assert "\"" + (key + "\"") == "\"" + key + "\"";
    assert ":" + (value + (comma + rest)) == ":" + value + comma + rest;
    assert "\"" + key + "\"" + ":" == "\"" + key + "\":";
  }

  lemma {:induction false} MemberText(fields: seq<Field>, i: nat)
    requires i < |fields|
    ensures FieldsText(fields, i)
         == "\"" + Escaped(fields[i].key) + "\":" + TextOf(fields[i].value) + CommaIf(i + 1 < |fields|)
            + FieldsText(fields, i + 1)
  {
    hide TextOf, Escaped;
    var comma, rest := CommaIf(i + 1 < |fields|), FieldsText(fields, i + 1);
    MemberRegroup(Escaped(fields[i].key), TextOf(fields[i].value), comma, rest);
  }

  lemma {:induction false} MembersJoined(fields: seq<Field>, i: nat)
    requires i <= |fields|
    ensures FieldsText(fields, i) == Joined(MemberTexts(fields, i), ",")
    decreases |fields| - i
  {
    hide TextOf, Escaped, FieldsText;
    var texts := MemberTexts(fields, i);
    if i == |fields| {
      NoMembers(fields);
    } else {
      MemberText(fields, i);
      MembersJoined(fields, i + 1);
      assert texts[1..] == MemberTexts(fields, i + 1);
      if i + 1 == |fields| {
        NoMembers(fields);
        assert texts[0] + "" + "" == texts[0];
      }
    }
  }

  lemma {:induction false} NoMembers(fields: seq<Field>)
    ensures FieldsText(fields, |fields|) == ""
  {
  }

  /** The text of every kind of value. */
  lemma {:induction false} TextForm(b: bool, s: string, items: seq<Value>, fields: seq<Field>)
    ensures TextOf(Null) == "null" && TextOf(Bool(b)) == (if b then "true" else "false")
    ensures TextOf(Str(s)) == "\"" + Escaped(s) + "\""
    ensures TextOf(Arr(items)) == "[" + Joined(ItemTexts(items, 0), ",") + "]"
    ensures TextOf(Obj(fields)) == "{" + Joined(MemberTexts(fields, 0), ",") + "}"
  {
    hide Escaped, Joined, ItemTexts, MemberTexts, ItemsText, FieldsText;
    ItemsJoined(items, 0);
    MembersJoined(fields, 0);
    assert "[" + (ItemsText(items, 0) + "]") == "[" + ItemsText(items, 0) + "]";
    assert "{" + (FieldsText(fields, 0) + "}") == "{" + FieldsText(fields, 0) + "}";
  }
}
