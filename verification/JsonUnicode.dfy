/** Strings as in section 2.5 of RFC 4627: escapes of any character by its UTF-16 code, and how they decode. */
module JsonUnicode {
  import opened Arith
  import opened CStrings
  import opened Options
  import opened Json
  import opened JsonText
  import JsonDecode

  const LOWER := "0123456789abcdef"
  const UPPER := "0123456789ABCDEF"

  function HexChar(d: nat, upper: bool): char
    requires d < 16
  {
    if upper then UPPER[d] else LOWER[d]
  }

  /** A code unit as four hexadecimal digits. */
  function HexText(u: nat, upper: bool): (s: string)
    requires u < 0x10000
    ensures |s| == 4
  {
    [HexChar(u / 4096, upper), HexChar(u / 256 % 16, upper), HexChar(u / 16 % 16, upper), HexChar(u % 16, upper)]
  }

  /** A character that UTF-16 can encode: any code point but a surrogate. */
  predicate Encodable(cp: nat) {
    cp < 0xD800 || 0xE000 <= cp < 0x110000
  }

  type Character = cp: nat | Encodable(cp)

  /** The code units of a character: itself, or a high and a low surrogate. */
  function Utf16(cp: nat): (u: seq<nat>)
    requires Encodable(cp)
    ensures 1 <= |u| <= 2 && forall k | 0 <= k < |u| :: u[k] < 0x10000
  {
    if cp < 0x10000 then [cp] else [0xD800 + (cp - 0x10000) / 0x400, 0xDC00 + (cp - 0x10000) % 0x400]
  }

  function UnitText(u: nat, upper: bool): (s: string)
    requires u < 0x10000
    ensures |s| == 6
  {
    "\\u" + HexText(u, upper)
  }

  /** The escape of a character: one group for each code unit. */
  function EscapeText(cp: nat, upper: bool): string
    requires Encodable(cp)
  {
    var u := Utf16(cp);
    if |u| == 1 then UnitText(u[0], upper) else UnitText(u[0], upper) + UnitText(u[1], upper)
  }

  lemma {:induction false} DigitBack(d: nat, upper: bool)
    requires d < 16
    ensures HexValue(HexChar(d, upper)) == Some(d)
  {
    assert LOWER == ['0', '1', '2', '3', '4', '5', '6', '7', '8', '9', 'a', 'b', 'c', 'd', 'e', 'f'];
    assert UPPER == ['0', '1', '2', '3', '4', '5', '6', '7', '8', '9', 'A', 'B', 'C', 'D', 'E', 'F'];
  }

  /** The digits of a number below 2^16. */
  lemma {:induction false} FourDigits(u: nat)
    requires u < 0x10000
    ensures u == u / 4096 * 4096 + u / 256 % 16 * 256 + u / 16 % 16 * 16 + u % 16 && u / 4096 < 16
  {
    assert u / 256 == u / 16 / 16 && u / 4096 == u / 16 / 16 / 16;
  }

  lemma {:induction false} UnitRead(data: string, i: nat, u: nat, upper: bool)
    requires u < 0x10000 && Starts(data, i, UnitText(u, upper))
    ensures At(data, i) == '\\' && At(data, i + 1) == 'u' && Hex4(data, i + 2) == Some(u)
  {
    hide HexValue, HexChar;
    var s := UnitText(u, upper);
    StartsAt(data, i, s);
    assert At(data, i + 0) == s[0] && At(data, i + 1) == s[1];
    assert At(data, i + 2) == s[2] && At(data, i + 3) == s[3] && At(data, i + 4) == s[4] && At(data, i + 5) == s[5];
    FourDigits(u);
    DigitBack(u / 4096, upper);
    DigitBack(u / 256 % 16, upper);
    DigitBack(u / 16 % 16, upper);
    DigitBack(u % 16, upper);
  }

  /** The escape of a character is read as that character. */
  lemma {:induction false} EscapeRead(data: string, i: nat, cp: nat, upper: bool)
    requires Encodable(cp) && Starts(data, i, EscapeText(cp, upper))
    ensures UnicodeAt(data, i) == Some((cp, i + |EscapeText(cp, upper)|))
    ensures At(data, i) == '\\' && At(data, i + 1) == 'u'
  {
    hide Hex4, UnitText, Starts;
    var u := Utf16(cp);
    if |u| == 1 {
      UnitRead(data, i, u[0], upper);
    } else {
      StartsSplit(data, i, UnitText(u[0], upper), UnitText(u[1], upper));
      UnitRead(data, i, u[0], upper);
      UnitRead(data, i + 6, u[1], upper);
    }
  }

  /** A surrogate that is not the first of a pair, or has no second, is an error. */
  lemma {:induction false} LoneSurrogate(data: string, i: nat, u: nat, upper: bool)
    requires 0xD800 <= u < 0xE000 && Starts(data, i, UnitText(u, upper))
    requires u < 0xDC00 ==>
               || At(data, i + 6) != '\\' || At(data, i + 7) != 'u'
               || Hex4(data, i + 8).None? || !(0xDC00 <= Hex4(data, i + 8).value < 0xE000)
    ensures UnicodeAt(data, i) == None && StringFrom(data, i) == None
  {
    UnitRead(data, i, u, upper);
    hide Hex4, UnitText, Starts;
  }

  // ---- Whole strings ----

  function EscapesText(cps: seq<Character>, upper: bool): string
  {
    if cps == [] then "" else EscapeText(cps[0], upper) + EscapesText(cps[1..], upper)
  }

  function Utf8Text(cps: seq<Character>): string
  {
    if cps == [] then "" else Utf8(cps[0]) + Utf8Text(cps[1..])
  }

  lemma {:induction false} EscapesRead(data: string, i: nat, cps: seq<Character>, upper: bool)
    requires Starts(data, i, EscapesText(cps, upper) + "\"")
    ensures StringFrom(data, i) == Some((Utf8Text(cps), i + |EscapesText(cps, upper)| + 1))
    decreases |cps|
  {
    hide Starts, EscapeText, UnicodeAt, Utf8;
    if cps == [] {
      assert "" + "\"" == "\"";
      StartsChar(data, i, '\"');
    } else {
      var e, rest := EscapeText(cps[0], upper), EscapesText(cps[1..], upper);
      assert e + rest + "\"" == e + (rest + "\"");
      StartsSplit(data, i, e, rest + "\"");
      EscapeRead(data, i, cps[0], upper);
      EscapesRead(data, i + |e|, cps[1..], upper);
    }
  }

  /** A JSON string of escapes decodes to the UTF-8 text of its characters. */
  method DecodeEscapes(cfg: Config, cps: seq<Character>, upper: bool) returns (r: Option<Value>)
    requires |EscapesText(cps, upper)| < 0x7fff_fff0
    ensures r == Some(Str(Utf8Text(cps)))
  {
    var text := "\"" + (EscapesText(cps, upper) + "\"");
    ParseEscapes(cfg, cps, upper, text);
    r := JsonDecode.Decode(cfg, text);
  }

  lemma {:induction false} EscapesToken(cfg: Config, cps: seq<Character>, upper: bool, text: string)
    requires text == "\"" + (EscapesText(cps, upper) + "\"")
    ensures TokenAt(cfg, text, 0) == (Text(Utf8Text(cps)), |text|) && text[1] != '\0'
  {
    hide StringFrom, Utf8Text, EscapesText;
    assert text[0..|text|] == text;
    StartsSplit(text, 0, "\"", EscapesText(cps, upper) + "\"");
    EscapesRead(text, 1, cps, upper);
    FirstOfEscapes(cps, upper);
  }

  lemma {:induction false} ParseEscapes(cfg: Config, cps: seq<Character>, upper: bool, text: string)
    requires text == "\"" + (EscapesText(cps, upper) + "\"")
    ensures Parse(cfg, text) == Some(Str(Utf8Text(cps)))
  {
    hide TokenAt, ValueFrom, Utf8Text, EscapesText;
    EscapesToken(cfg, cps, upper, text);
    ScalarBack(cfg, text, Text(Utf8Text(cps)), |text|, 0);
    AtEnd(cfg, text);
  }

  lemma {:induction false} FirstOfEscapes(cps: seq<Character>, upper: bool)
    ensures (EscapesText(cps, upper) + "\"")[0] in {'\\', '\"'}
  {
    if cps != [] {
      assert UnitText(Utf16(cps[0])[0], upper)[0] == '\\';
    }
  }

  /** The short escapes of section 2.5 of RFC 4627. */
  lemma {:induction false} ShortEscapes()
    ensures Unescape('\"') == Some(0x22 as char) && Unescape('\\') == Some(0x5C as char)
    ensures Unescape('/') == Some(0x2F as char) && Unescape('b') == Some(0x08 as char)
    ensures Unescape('f') == Some(0x0C as char) && Unescape('n') == Some(0x0A as char)
    ensures Unescape('r') == Some(0x0D as char) && Unescape('t') == Some(0x09 as char)
    ensures forall c | Unescape(c).Some? :: c in "\"\\/bfnrt"
  {
    assert "\"\\/bfnrt" == ['\"', '\\', '/', 'b', 'f', 'n', 'r', 't'];
  }

  /** Quotes, backslashes, slashes and control characters are escaped, and nothing else; none of the last is left. */
  lemma {:induction false} EscapeForm(c: char)
    ensures |Escape(c)| == 1 <==> c >= 0x20 as char && c !in {'\"', '\\', '/', 0x7F as char}
    ensures |Escape(c)| == 1 ==> Escape(c) == [c]
    ensures |Escape(c)| > 1 ==> Escape(c)[0] == '\\'
    ensures forall k | 0 <= k < |Escape(c)| :: Escape(c)[k] >= 0x20 as char
  {
  }

  /** The digits of numbers. */
  lemma {:induction false} DecimalDigit(d: nat)
    requires d < 10
    ensures IsDigit("0123456789"[d]) && DigitValue("0123456789"[d]) == d && Digits(d) == ["0123456789"[d]]
  {
    assert "0123456789" == ['0', '1', '2', '3', '4', '5', '6', '7', '8', '9'];
  }
}
