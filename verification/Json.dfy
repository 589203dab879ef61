/** JSON text: how values print, and what the parser makes of any text. */
module Json {
  import opened Arith
  import opened CStrings
  import opened Options

  datatype Value =
    | Null
    | Bool(b: bool)
    | Int(n: int)
    | Real(r: real)
    | Str(s: string)
    | Arr(items: seq<Value>)
    | Obj(fields: seq<Field>)

  datatype Field = Field(key: string, value: Value)

  // ---- Strings ----

  function HexDigit(d: nat): char
    requires d < 16
  {
    if d < 10 then '0' + d as char else 'a' + (d - 10) as char
  }

  /** The entry of char2escape, or the character itself. */
  function Escape(c: char): (s: string)
    ensures 1 <= |s| <= 6
  {
    if c == '\"' then "\\\""
    else if c == '\\' then "\\\\"
    else if c == '/' then "\\/"
    else if c == 8 as char then "\\b"
    else if c == '\t' then "\\t"
    else if c == '\n' then "\\n"
    else if c == 12 as char then "\\f"
    else if c == '\r' then "\\r"
    else if c < ' ' || c == 127 as char then
      "\\u00" + [HexDigit(c as int / 16), HexDigit(c as int % 16)]
    else [c]
  }

  function Escaped(s: string): string {
    if s == [] then [] else Escape(s[0]) + Escaped(s[1..])
  }

  function Quoted(s: string): string {
    "\"" + Escaped(s) + "\""
  }

  function HexValue(c: char): (d: Option<nat>)
    ensures d.Some? ==> d.value < 16 && c != '\0'
  {
    if '0' <= c <= '9' then Some((c - '0') as nat)
    else if 'a' <= c <= 'f' then Some((c - 'a') as nat + 10)
    else if 'A' <= c <= 'F' then Some((c - 'A') as nat + 10)
    else None
  }

  /** decode_hex4 */
  function Hex4(data: string, i: nat): (r: Option<nat>)
    ensures r.Some? ==> r.value < 0x10000 && i + 4 <= |data|
  {
    var a, b := HexValue(At(data, i)), HexValue(At(data, i + 1));
    var c, d := HexValue(At(data, i + 2)), HexValue(At(data, i + 3));
    if a.Some? && b.Some? && c.Some? && d.Some?
    then Some(a.value * 4096 + b.value * 256 + c.value * 16 + d.value)
    else None
  }

  function Byte(n: nat): char
    requires n < 256
  {
    n as char
  }

  /** codepoint_to_utf8 */
  function Utf8(cp: nat): (s: string)
    requires cp < 0x110000
    ensures 1 <= |s| <= 4 && (cp < 0x10000 ==> |s| <= 3)
  {
    if cp <= 0x7F then [Byte(cp)]
    else if cp <= 0x7FF then [Byte(cp / 64 + 0xC0), Byte(cp % 64 + 0x80)]
    else if cp <= 0xFFFF then [Byte(cp / 4096 + 0xE0), Byte(cp / 64 % 64 + 0x80), Byte(cp % 64 + 0x80)]
    else [Byte(cp / 262144 + 0xF0), Byte(cp / 4096 % 64 + 0x80), Byte(cp / 64 % 64 + 0x80), Byte(cp % 64 + 0x80)]
  }

  /** A continuation byte of UTF-8. */
  predicate IsRest(c: char) {
    0x80 <= c as int < 0xC0
  }

  /** Reads one code point of UTF-8: the number that the bits of its bytes make. */
  function FromUtf8(s: string): Option<nat> {
    if s == [] then None
    else
      var a := s[0] as int;
      if a < 0x80 && |s| == 1 then Some(a)
      else if exists k | 0 < k < |s| :: !IsRest(s[k]) then None
      else if 0xC0 <= a < 0xE0 && |s| == 2 then Some((a - 0xC0) * 64 + Rest(s[1]))
      else if 0xE0 <= a < 0xF0 && |s| == 3 then Some((a - 0xE0) * 4096 + Rest(s[1]) * 64 + Rest(s[2]))
      else if 0xF0 <= a < 0xF8 && |s| == 4 then
        Some((a - 0xF0) * 262144 + Rest(s[1]) * 4096 + Rest(s[2]) * 64 + Rest(s[3]))
      else None
  }

  function Rest(c: char): nat {
    c as int % 64
  }

  lemma {:induction false} SixBits(n: nat)
    ensures n == n / 64 * 64 + n % 64 && (n % 64 + 0x80) % 64 == n % 64
  {
  }

  lemma {:induction false} Quotients(cp: nat)
    ensures cp / 4096 == cp / 64 / 64 && cp / 262144 == cp / 64 / 64 / 64
  {
  }

  /** A reader of UTF-8 gets the code point back. */
  lemma {:induction false} Utf8RoundTrip(cp: nat)
    requires cp < 0x110000
    ensures FromUtf8(Utf8(cp)) == Some(cp)
    ensures |Utf8(cp)| == if cp < 0x80 then 1 else if cp < 0x800 then 2 else if cp < 0x10000 then 3 else 4
  {
    var s := Utf8(cp);
    Quotients(cp);
    SixBits(cp);
    SixBits(cp / 64);
    SixBits(cp / 64 / 64);
    var a, b, d := cp / 64, cp / 64 / 64, cp / 64 / 64 / 64;
    if cp <= 0x7F {
    } else if cp <= 0x7FF {
      assert Rest(s[1]) == cp % 64;
    } else if cp <= 0xFFFF {
      assert Rest(s[1]) == a % 64 && Rest(s[2]) == cp % 64;
    } else {
      assert Rest(s[1]) == b % 64 && Rest(s[2]) == a % 64 && Rest(s[3]) == cp % 64;
    }
  }

  /** The escape \uXXXX at i, or the pair of them that stands for one code point above 0xFFFF. */
  function UnicodeAt(data: string, i: nat): (r: Option<(nat, nat)>)
    ensures r.Some? ==> r.value.0 < 0x110000 && i + 6 <= r.value.1 <= |data|
    ensures r.Some? && r.value.0 >= 0x10000 ==> r.value.1 == i + 12
  {
    match Hex4(data, i + 2)
    case None => None
    case Some(high) =>
      if !(0xD800 <= high < 0xE000) then Some((high, i + 6))
      else if high >= 0xDC00 || At(data, i + 6) != '\\' || At(data, i + 7) != 'u' then None
      else match Hex4(data, i + 8)
        case None => None
        case Some(low) =>
          if 0xDC00 <= low < 0xE000 then Some(((high - 0xD800) * 1024 + (low - 0xDC00) + 0x10000, i + 12)) else None
  }

  /** escape2char, for the escapes of one character. */
  function Unescape(c: char): Option<char> {
    match c
    case '\"' => Some('\"')
    case '\\' => Some('\\')
    case '/' => Some('/')
    case 'b' => Some(8 as char)
    case 't' => Some('\t')
    case 'n' => Some('\n')
    case 'f' => Some(12 as char)
    case 'r' => Some('\r')
    case _ => None
  }

  function Prepend(s: string, r: Option<(string, nat)>): Option<(string, nat)> {
    if r.None? then None else Some((s + r.value.0, r.value.1))
  }

  /** The string whose characters begin at i, and the position behind its closing quote. */
  function StringFrom(data: string, i: nat): (r: Option<(string, nat)>)
    ensures r.Some? ==> i < r.value.1 <= |data| && |r.value.0| <= r.value.1 - i - 1
    decreases |data| - i
  {
    var c := At(data, i);
    if c == '\"' then Some(("", i + 1))
    else if c == '\0' then None
    else if c != '\\' then Prepend([c], StringFrom(data, i + 1))
    else if At(data, i + 1) == 'u' then
      (match UnicodeAt(data, i)
       case None => None
       case Some(u) => Prepend(Utf8(u.0), StringFrom(data, u.1)))
    else match Unescape(At(data, i + 1))
      case None => None
      case Some(e) => Prepend([e], StringFrom(data, i + 2))
  }

  // ---- Numbers ----

  function Digits(n: nat): (s: string)
    ensures s != []
  {
    if n < 10 then ['0' + n as char] else Digits(n / 10) + ['0' + (n % 10) as char]
  }

  function IntText(n: int): string {
    if n < 0 then "-" + Digits(-n) else Digits(n)
  }

  const MAXINT: int := 100_000_000_000_000

  function DigitsEnd(data: string, i: nat): (e: nat)
    ensures i <= e && (e > i ==> e <= |data|) && forall k | i <= k < e :: k < |data| && IsDigit(data[k])
    ensures !IsDigit(At(data, e))
    decreases |data| - i
  {
    if i < |data| && IsDigit(data[i]) then DigitsEnd(data, i + 1) else i
  }

  function DigitValue(c: char): nat
    requires IsDigit(c)
  {
    (c - '0') as nat
  }

  function DigitsValue(s: string): nat
    requires forall k | 0 <= k < |s| :: IsDigit(s[k])
  {
    if s == [] then 0 else 10 * DigitsValue(s[..|s| - 1]) + DigitValue(s[|s| - 1])
  }

  /** The text conversion of the library, for everything but short runs of digits. */
  type Strtod = (string, nat) -> (real, nat)

  /** The number at i and where it ends: integers below 10^14 exactly, other forms as the library reads them. */
  function NumberAt(data: string, i: nat, strtod: Strtod): (r: (Value, nat))
    requires i <= |data|
    ensures i <= r.1 <= |data|
  {
    var j := if At(data, i) == '-' then i + 1 else i;
    var k := DigitsEnd(data, j);
    if k > j && At(data, k) !in {'.', 'e', 'E', 'x', 'X'} && DigitsValue(data[j..k]) < MAXINT then
      (Int(if j > i then 0 - DigitsValue(data[j..k]) else DigitsValue(data[j..k])), k)
    else
      var (x, e) := strtod(data, i);
      (Real(x), if i <= e <= |data| then e else i)
  }

  // ---- Tokens ----

  datatype Token = ObjBegin | ObjEnd | ArrBegin | ArrEnd | Colon | Comma | End | Error | Text(s: string)
    | Scalar(v: Value)

  /** The decoder's settings: nesting, whether numbers outside JSON are read, and the number conversion. */
  datatype Config = Config(maxDepth: int, lenient: bool, strtod: Strtod)

  predicate IsSpace(c: char) {
    c == ' ' || c == '\t' || c == '\n' || c == '\r'
  }

  function SkipSpace(data: string, i: nat): (j: nat)
    requires i <= |data|
    ensures i <= j <= |data| && !IsSpace(At(data, j))
    decreases |data| - i
  {
    if i < |data| && IsSpace(data[i]) then SkipSpace(data, i + 1) else i
  }

  predicate Starts(data: string, i: nat, word: string) {
    i + |word| <= |data| && data[i..i + |word|] == word
  }

  function Lower(c: char): char {
    if 'A' <= c <= 'Z' then c - 'A' + 'a' else c
  }

  /** strncasecmp with a word of three letters. */
  predicate StartsAnyCase(data: string, i: nat, word: string)
    requires |word| == 3
  {
    Lower(At(data, i)) == word[0] && Lower(At(data, i + 1)) == word[1] && Lower(At(data, i + 2)) == word[2]
  }

  /** json_is_invalid_number */
  predicate IsInvalidNumber(data: string, i: nat) {
    At(data, i) == '+'
    || (var p := if At(data, i) == '-' then i + 1 else i;
        if At(data, p) == '0' then At(data, p + 1) in {'x', 'X'} || IsDigit(At(data, p + 1))
        else At(data, p) > '9' && (StartsAnyCase(data, p, "inf") || StartsAnyCase(data, p, "nan")))
  }

  function NumberToken(data: string, i: nat, strtod: Strtod): (r: (Token, nat))
    requires i <= |data|
    ensures i <= r.1 <= |data| && (r.0 != Error ==> i < r.1)
  {
    var (v, e) := NumberAt(data, i, strtod);
    if e == i then (Error, i) else (Scalar(v), e)
  }

  /** The token that starts at i, after white space, and the position behind it. */
  function TokenHere(c: Config, data: string, i: nat): (r: (Token, nat))
    requires i <= |data|
    ensures i <= r.1 <= |data| && (r.0 != End && r.0 != Error ==> i < r.1)
    ensures r.0 == End ==> At(data, i) == '\0'
  {
    match At(data, i)
    case '{' => (ObjBegin, i + 1)
    case '}' => (ObjEnd, i + 1)
    case '[' => (ArrBegin, i + 1)
    case ']' => (ArrEnd, i + 1)
    case ',' => (Comma, i + 1)
    case ':' => (Colon, i + 1)
    case '\0' => (End, i)
    case '\"' =>
      (match StringFrom(data, i + 1)
       case None => (Error, i)
       case Some(s) => (Text(s.0), s.1))
    case ch =>
      if ch == '-' || IsDigit(ch) then
        if !c.lenient && IsInvalidNumber(data, i) then (Error, i) else NumberToken(data, i, c.strtod)
      else if Starts(data, i, "true") then (Scalar(Bool(true)), i + 4)
      else if Starts(data, i, "false") then (Scalar(Bool(false)), i + 5)
      else if Starts(data, i, "null") then (Scalar(Null), i + 4)
      else if ch in {'i', 'I', 'n', 'N', '+'} && c.lenient && IsInvalidNumber(data, i) then
        NumberToken(data, i, c.strtod)
      else (Error, i)
  }

  function TokenAt(c: Config, data: string, i: nat): (r: (Token, nat))
    requires i <= |data|
    ensures i <= r.1 <= |data| && (r.0 != End && r.0 != Error ==> i < r.1)
  {
    TokenHere(c, data, SkipSpace(data, i))
  }

  // ---- Values ----

  /** The value whose first token is t, read from behind that token at the given depth. */
  function ValueFrom(c: Config, data: string, t: Token, i: nat, depth: nat): (r: Option<(Value, nat)>)
    requires i <= |data|
    ensures r.Some? ==> i <= r.value.1 <= |data|
    decreases |data| - i, 2
  {
    match t
    case Text(s) => Some((Str(s), i))
    case Scalar(v) => Some((v, i))
    case ObjBegin =>
      if depth + 1 > c.maxDepth then None
      else
        var (u, j) := TokenAt(c, data, i);
        if u == ObjEnd then Some((Obj([]), j))
        else
          var m := MembersFrom(c, data, u, j, depth + 1);
          if m.None? then None else Some((Obj(m.value.0), m.value.1))
    case ArrBegin =>
      if depth + 1 > c.maxDepth then None
      else
        var (u, j) := TokenAt(c, data, i);
        if u == ArrEnd then Some((Arr([]), j))
        else if u == End || u == Error then None
        else
          var m := ElementsFrom(c, data, u, j, depth + 1);
          if m.None? then None else Some((Arr(m.value.0), m.value.1))
    case _ => None
  }

  /** The members of an object from the token t on, up to the closing brace. */
  function MembersFrom(c: Config, data: string, t: Token, i: nat, depth: nat): (r: Option<(seq<Field>, nat)>)
    requires i <= |data|
    ensures r.Some? ==> i <= r.value.1 <= |data|
    decreases |data| - i, 1
  {
    if !t.Text? then None
    else
      var (colon, j) := TokenAt(c, data, i);
      if colon != Colon then None
      else
        var (first, k) := TokenAt(c, data, j);
        match ValueFrom(c, data, first, k, depth)
        case None => None
        case Some(v) =>
          var (next, l) := TokenAt(c, data, v.1);
          if next == ObjEnd then Some(([Field(t.s, v.0)], l))
          else if next != Comma then None
          else
            var (key, n) := TokenAt(c, data, l);
            var rest := MembersFrom(c, data, key, n, depth);
            if rest.None? then None else Some(([Field(t.s, v.0)] + rest.value.0, rest.value.1))
  }

  /** The elements of an array from the one whose first token is t on, up to the closing bracket. */
  function ElementsFrom(c: Config, data: string, t: Token, i: nat, depth: nat): (r: Option<(seq<Value>, nat)>)
    requires i <= |data|
    ensures r.Some? ==> i <= r.value.1 <= |data|
    decreases |data| - i, 3
  {
    match ValueFrom(c, data, t, i, depth)
    case None => None
    case Some(v) =>
      var (next, l) := TokenAt(c, data, v.1);
      if next == ArrEnd then Some(([v.0], l))
      else if next != Comma then None
      else
        var (first, n) := TokenAt(c, data, l);
        var rest := ElementsFrom(c, data, first, n, depth);
        if rest.None? then None else Some(([v.0] + rest.value.0, rest.value.1))
  }

  /** The value of a whole text, which must hold nothing else. */
  function Parse(c: Config, data: string): Option<Value> {
    if |data| >= 2 && (data[0] == '\0' || data[1] == '\0') then None
    else
      var (t, i) := TokenAt(c, data, 0);
      match ValueFrom(c, data, t, i, 0)
      case None => None
      case Some(v) => if TokenAt(c, data, v.1).0 == End then Some(v.0) else None
  }
}
