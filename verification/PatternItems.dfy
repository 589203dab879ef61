/** What the items of a pattern mean, read off their text: single characters, classes, sets, %b, %f and captures. */
module PatternItems {
  import opened CStrings
  import opened Options
  import opened Pattern

  // ---- Classes ----

  /** The letters of ASCII, and no other character, have their case. */
  ghost predicate AsciiCase(loc: Locale) {
    forall c ::
      if 'a' <= c <= 'z' then loc.toLower(c) == c && loc.lower(c)
      else if 'A' <= c <= 'Z' then loc.toLower(c) == c - 'A' + 'a' && !loc.lower(c)
      else !('a' <= loc.toLower(c) <= 'z')
  }

  const LETTERS := "acdglpsuwxz"
  const CAPITALS := "ACDGLPSUWXZ"

  /** A letter accepts what has its property, and its capital what has not. */
  lemma {:induction false} ClassMeans(loc: Locale, cl: char, c: char)
    requires AsciiCase(loc)
    ensures MatchClass(loc, c, 'a') == loc.alpha(c) && MatchClass(loc, c, 'A') == !loc.alpha(c)
    ensures MatchClass(loc, c, 'c') == loc.cntrl(c) && MatchClass(loc, c, 'C') == !loc.cntrl(c)
    ensures MatchClass(loc, c, 'd') == loc.digit(c) && MatchClass(loc, c, 'D') == !loc.digit(c)
    ensures MatchClass(loc, c, 'g') == loc.graph(c) && MatchClass(loc, c, 'G') == !loc.graph(c)
    ensures MatchClass(loc, c, 'l') == loc.lower(c) && MatchClass(loc, c, 'L') == !loc.lower(c)
    ensures MatchClass(loc, c, 'p') == loc.punct(c) && MatchClass(loc, c, 'P') == !loc.punct(c)
    ensures MatchClass(loc, c, 's') == loc.space(c) && MatchClass(loc, c, 'S') == !loc.space(c)
    ensures MatchClass(loc, c, 'u') == loc.upper(c) && MatchClass(loc, c, 'U') == !loc.upper(c)
    ensures MatchClass(loc, c, 'w') == loc.alnum(c) && MatchClass(loc, c, 'W') == !loc.alnum(c)
    ensures MatchClass(loc, c, 'x') == loc.xdigit(c) && MatchClass(loc, c, 'X') == !loc.xdigit(c)
    ensures MatchClass(loc, c, 'z') == (c == '\0') && MatchClass(loc, c, 'Z') == (c != '\0')
  {
  }

  lemma {:induction false} NoClass(loc: Locale, cl: char, c: char)
    requires AsciiCase(loc) && cl !in LETTERS && cl !in CAPITALS
    ensures MatchClass(loc, c, cl) <==> c == cl
  {
    OtherLetters(loc, cl);
    InTable(loc.toLower(cl));
    hide AsciiCase, LETTERS, CAPITALS;
  }

  /** Only the letters of the table fold to letters of the table. */
  lemma {:induction false} OtherLetters(loc: Locale, cl: char)
    requires AsciiCase(loc) && cl !in LETTERS && cl !in CAPITALS
    ensures loc.toLower(cl) !in LETTERS
  {
    var l := loc.toLower(cl);
    InTable(l);
    InTable(cl);
    Capital(cl);
  }

  lemma {:induction false} InTable(c: char)
    ensures c in LETTERS <==> c in {'a', 'c', 'd', 'g', 'l', 'p', 's', 'u', 'w', 'x', 'z'}
  {
    assert LETTERS == ['a', 'c', 'd', 'g', 'l', 'p', 's', 'u', 'w', 'x', 'z'];
  }

  lemma {:induction false} Capital(c: char)
    ensures c in CAPITALS <==> c in {'A', 'C', 'D', 'G', 'L', 'P', 'S', 'U', 'W', 'X', 'Z'}
  {
    assert CAPITALS == ['A', 'C', 'D', 'G', 'L', 'P', 'S', 'U', 'W', 'X', 'Z'];
  }

  // ---- Sets ----

  /** An element of a set. */
  datatype Part = One(c: char) | Range(lo: char, hi: char) | Class(letter: char)

  predicate PartHas(loc: Locale, part: Part, c: char) {
    match part
    case One(x) => c == x
    case Range(lo, hi) => lo <= c && c <= hi
    case Class(letter) => MatchClass(loc, c, letter)
  }

  /**
   * The elements of a set whose text, without brackets and caret, is body. A percent sign that a range leaves alone
   * at the end takes the closing bracket for its letter.
   */
  function PartsOf(body: seq<char>): seq<Part> {
    if body == [] then []
    else if body[0] == '%' then
      if |body| == 1 then [Class(']')] else [Class(body[1])] + PartsOf(body[2..])
    else if |body| >= 3 && body[1] == '-' then [Range(body[0], body[2])] + PartsOf(body[3..])
    else [One(body[0])] + PartsOf(body[1..])
  }

  ghost predicate SomePart(loc: Locale, body: seq<char>, c: char) {
    exists k | 0 <= k < |PartsOf(body)| :: PartHas(loc, PartsOf(body)[k], c)
  }

  /** A set accepts what one of its elements accepts; after a caret, what none does. */
  ghost predicate SetAccepts(loc: Locale, text: seq<char>, c: char) {
    if text != [] && text[0] == '^' then !SomePart(loc, text[1..], c) else SomePart(loc, text, c)
  }

  lemma {:induction false} SomeFirst(loc: Locale, body: seq<char>, c: char, part: Part, rest: seq<char>)
    requires PartsOf(body) == [part] + PartsOf(rest)
    ensures SomePart(loc, body, c) <==> PartHas(loc, part, c) || SomePart(loc, rest, c)
  {
    var all, more := PartsOf(body), PartsOf(rest);
    hide PartHas, PartsOf;
    assert all[0] == part && all[1..] == more;
    if SomePart(loc, rest, c) {
      var k :| 0 <= k < |more| && PartHas(loc, more[k], c);
      assert all[k + 1] == more[k];
    }
    if SomePart(loc, body, c) && !PartHas(loc, part, c) {
      var k :| 0 <= k < |all| && PartHas(loc, all[k], c);
      assert all[k] == more[k - 1];
    }
  }

  /** The set read by the code, from i to its bracket at ec. */
  lemma {:induction false} SetIsParts(pat: seq<char>, loc: Locale, c: char, i: nat, ec: nat)
    requires i <= ec < |pat| && pat[ec] == ']'
    ensures SetHas(pat, loc, c, i, ec) <==> SomePart(loc, pat[i..ec], c)
    decreases ec - i
  {
    var body := pat[i..ec];
    hide PartHas, SomePart, MatchClass;
    if i == ec {
      NoPart(loc, c);
      assert body == [];
    } else if pat[i] == ESC {
      if i + 1 == ec {
        OnePart(loc, body, c);
      } else {
        assert body[2..] == pat[i + 2..ec];
        SetIsParts(pat, loc, c, i + 2, ec);
        SomeFirst(loc, body, c, Class(pat[i + 1]), pat[i + 2..ec]);
        ClassHas(loc, pat[i + 1], c);
      }
    } else if pat[i + 1] == '-' && i + 2 < ec {
      assert body[3..] == pat[i + 3..ec];
      SetIsParts(pat, loc, c, i + 3, ec);
      SomeFirst(loc, body, c, Range(pat[i], pat[i + 2]), pat[i + 3..ec]);
      RangeHas(loc, pat[i], pat[i + 2], c);
    } else {
      assert body[1..] == pat[i + 1..ec];
      SetIsParts(pat, loc, c, i + 1, ec);
      SomeFirst(loc, body, c, One(pat[i]), pat[i + 1..ec]);
      OneHas(loc, pat[i], c);
    }
  }

  lemma {:induction false} NoPart(loc: Locale, c: char)
    ensures !SomePart(loc, [], c)
  {
  }

  lemma {:induction false} OnePart(loc: Locale, body: seq<char>, c: char)
    requires |body| == 1 && body[0] == '%'
    ensures SomePart(loc, body, c) <==> MatchClass(loc, c, ']')
  {
    assert PartsOf(body) == [Class(']')];
    assert PartHas(loc, PartsOf(body)[0], c) <==> MatchClass(loc, c, ']');
  }

  lemma {:induction false} ClassHas(loc: Locale, letter: char, c: char)
    ensures PartHas(loc, Class(letter), c) <==> MatchClass(loc, c, letter)
  {
  }

  lemma {:induction false} RangeHas(loc: Locale, lo: char, hi: char, c: char)
    ensures PartHas(loc, Range(lo, hi), c) <==> lo <= c <= hi
  {
  }

  lemma {:induction false} OneHas(loc: Locale, x: char, c: char)
    ensures PartHas(loc, One(x), c) <==> x == c
  {
  }

  // ---- Single-character items ----

  /** What the text of an item accepts. */
  ghost predicate ItemAccepts(loc: Locale, item: seq<char>, c: char) {
    if item == "." then true
    else if |item| == 2 && item[0] == '%' then MatchClass(loc, c, item[1])
    else if |item| >= 3 && item[0] == '[' then SetAccepts(loc, item[1..|item| - 1], c)
    else item == [c]
  }

  /** The item from p to ep accepts the character at s. */
  ghost predicate Accepts(m: Input, s: nat, p: nat, ep: nat)
    requires p <= ep <= |m.pat|
  {
    s < |m.src| && ItemAccepts(m.loc, m.pat[p..ep], m.src[s])
  }

  lemma {:induction false} InSetIs(pat: seq<char>, loc: Locale, c: char, p: nat, ep: nat)
    requires p + 2 < ep <= |pat| && pat[ep - 1] == ']' && (pat[p + 1] == '^' ==> p + 2 < ep)
    ensures InSet(pat, loc, c, p, ep - 1) <==> SetAccepts(loc, pat[p + 1..ep - 1], c)
  {
    var text := pat[p + 1..ep - 1];
    hide SetHas, SomePart;
    if text[0] == '^' {
      assert text[1..] == pat[p + 2..ep - 1];
      SetIsParts(pat, loc, c, p + 2, ep - 1);
    } else {
      SetIsParts(pat, loc, c, p + 1, ep - 1);
    }
  }

  lemma {:induction false} Inner(s: seq<char>, p: nat, ep: nat)
    requires p + 2 <= ep <= |s|
    ensures var item := s[p..ep]; |item| == ep - p && item[1..|item| - 1] == s[p + 1..ep - 1]
  {
    var item := s[p..ep];
    assert |item| == ep - p;
    var a, b := item[1..|item| - 1], s[p + 1..ep - 1];
    assert |a| == |b|;
    forall k | 0 <= k < |b|
      ensures a[k] == b[k]
    {
      assert a[k] == item[k + 1] == s[p + (k + 1)];
    }
  }

  /** The code accepts a character exactly when the text of the item does. */
  lemma {:induction false} SingleMeans(m: Input, s: nat, p: nat, ep: nat)
    requires p < |m.pat| && EndOf(m.pat, p) == Next(ep)
    ensures Single(m, s, p, ep) <==> Accepts(m, s, p, ep)
  {
    hide SetEnd, InSet, SetAccepts, MatchClass;
    var item := m.pat[p..ep];
    assert item[0] == m.pat[p];
    if s < |m.src| && m.pat[p] == '[' {
      Inner(m.pat, p, ep);
      InSetIs(m.pat, m.loc, m.src[s], p, ep);
    } else if m.pat[p] != '%' && m.pat[p] != '[' {
      assert item == [m.pat[p]];
    }
  }

  /** The frontier: between a character that the set does not accept and one that it does, both ends being NUL. */
  ghost predicate FrontierText(m: Input, s: nat, text: seq<char>)
    requires s <= |m.src|
  {
    && !SetAccepts(m.loc, text, if s > 0 then m.src[s - 1] else '\0')
    && SetAccepts(m.loc, text, if s < |m.src| then m.src[s] else '\0')
  }

  /** %f accepts at a frontier. */
  lemma {:induction false} FrontierMeans(m: Input, s: nat, p: nat, ep: nat)
    requires s <= |m.src| && p < |m.pat| && m.pat[p] == '[' && EndOf(m.pat, p) == Next(ep)
    ensures Frontier(m, s, p, ep) <==> FrontierText(m, s, m.pat[p + 1..ep - 1])
  {
    hide SetEnd, InSet, SetAccepts;
    InSetIs(m.pat, m.loc, if s > 0 then m.src[s - 1] else '\0', p, ep);
    InSetIs(m.pat, m.loc, At(m.src, s), p, ep);
  }

  // ---- Where an item ends ----

  /** How many percent signs stand directly before k, from first on. */
  function Percents(pat: seq<char>, first: nat, k: nat): nat
    requires k <= |pat|
  {
    if k > first && pat[k - 1] == '%' then Percents(pat, first, k - 1) + 1 else 0
  }

  /** A closing bracket that is not the first character of the set and not escaped. */
  predicate Closing(pat: seq<char>, first: nat, k: nat)
    requires k < |pat|
  {
    first < k && pat[k] == ']' && Percents(pat, first, k) % 2 == 0
  }

  lemma {:induction false} PercentsLater(pat: seq<char>, i: nat, k: nat)
    requires i < k <= |pat|
    ensures pat[i] != '%' ==> Percents(pat, i, k) == Percents(pat, i + 1, k)
    ensures pat[i] == '%' && i + 2 <= k ==> Percents(pat, i, k) % 2 == Percents(pat, i + 2, k) % 2
    decreases k
  {
    if k == i + 1 {
      assert Percents(pat, i, i) == 0;
    } else {
      PercentsLater(pat, i, k - 1);
      if k == i + 2 {
        assert Percents(pat, i, i) == 0 && Percents(pat, i + 2, k) == 0;
      }
    }
  }

  /** The end of a set is the first closing bracket. */
  lemma {:induction false} SetEndMeans(pat: seq<char>, i: nat)
    requires i <= |pat|
    ensures match SetEnd(pat, i)
            case Next(ep) => Closing(pat, i, ep - 1) && forall k | i < k < ep - 1 :: !Closing(pat, i, k)
            case Bad(e) => e == MissingBracket && forall k | i < k < |pat| :: !Closing(pat, i, k)
    decreases |pat| - i
  {
    if i < |pat| {
      var j := if pat[i] == ESC && i + 1 < |pat| then i + 2 else i + 1;
      hide Percents;
      forall k | j <= k < |pat|
        ensures Percents(pat, i, k) % 2 == Percents(pat, j, k) % 2
      {
        PercentsLater(pat, i, k);
      }
      assert j < |pat| ==> Percents(pat, j, j) == 0 by {
        NonePercent(pat, j);
      }
      assert j == i + 2 ==> Percents(pat, i, i + 1) == 1 by {
        NonePercent(pat, i);
      }
      forall k | i < k < |pat|
        ensures Closing(pat, i, k) <==> if k > j then Closing(pat, j, k) else k == j && pat[j] == ']'
      {
      }
      if At(pat, j) != ']' {
        SetEndMeans(pat, j);
      }
    }
  }

  lemma {:induction false} NonePercent(pat: seq<char>, i: nat)
    requires i <= |pat|
    ensures Percents(pat, i, i) == 0
    ensures i < |pat| && pat[i] == '%' ==> Percents(pat, i, i + 1) == 1
  {
  }

  /** An item: one character, a percent sign and one, or a set up to its closing bracket. */
  lemma {:induction false} EndMeans(pat: seq<char>, p: nat)
    requires p < |pat|
    ensures pat[p] != '%' && pat[p] != '[' ==> EndOf(pat, p) == Next(p + 1)
    ensures pat[p] == '%' ==> EndOf(pat, p) == if p + 1 < |pat| then Next(p + 2) else Bad(EndsWithPercent)
    ensures pat[p] == '[' ==>
              var first := if p + 1 < |pat| && pat[p + 1] == '^' then p + 2 else p + 1;
              match EndOf(pat, p)
              case Next(ep) => Closing(pat, first, ep - 1) && forall k | first < k < ep - 1 :: !Closing(pat, first, k)
              case Bad(e) => e == MissingBracket && forall k | first < k < |pat| :: !Closing(pat, first, k)
  {
    hide SetEnd, Closing;
    SetEndMeans(pat, if At(pat, p + 1) == '^' then p + 2 else p + 1);
  }

  // ---- Balanced text ----

  /** As many closing brackets as opening ones; when they are the same, one pair. */
  ghost predicate Even(u: seq<char>, open: char, close: char) {
    if open == close then multiset(u)[open] == 2 else multiset(u)[open] == multiset(u)[close]
  }

  /** The shortest text from s on that begins with an opening bracket and is even. */
  ghost predicate BalancedText(src: seq<char>, s: nat, e: nat, open: char, close: char) {
    && s < e <= |src| && src[s] == open
    && Even(src[s..e], open, close) && forall t | s < t < e :: !Even(src[s..t], open, close)
  }

  lemma {:induction false} BalanceMeans(src: seq<char>, s: nat, i: nat, cont: nat, open: char, close: char, e: nat)
    requires s < i <= |src| && src[s] == open && cont > 0
    requires var u := multiset(src[s..i]); if open == close then u[open] == 1 == cont else u[open] == u[close] + cont
    requires forall t | s < t <= i :: !Even(src[s..t], open, close)
    ensures Balance(src, i, cont, open, close) == Some(e) <==> BalancedText(src, s, e, open, close)
    decreases |src| - i
  {
    if i < |src| {
      assert src[s..i + 1] == src[s..i] + [src[i]];
      var c := if src[i] == close then cont - 1 else if src[i] == open then cont + 1 else cont;
      if c == 0 {
        assert Even(src[s..i + 1], open, close);
      } else {
        BalanceMeans(src, s, i + 1, c, open, close, e);
      }
    }
  }

  /** The balanced text that the item %b at p asks for. */
  ghost predicate BalancedAt(m: Input, s: nat, p: nat, e: nat): (r: bool)
    requires p + 3 < |m.pat|
    ensures r ==> s < e <= |m.src|
  {
    BalancedText(m.src, s, e, m.pat[p + 2], m.pat[p + 3])
  }

  /** %b accepts the shortest balanced text. */
  lemma {:induction false} BalancedMeans(m: Input, s: nat, p: nat, e: nat)
    requires p + 3 < |m.pat|
    ensures Balanced(m, s, p + 2) == Some(e) <==> BalancedAt(m, s, p, e)
  {
    if s < |m.src| && m.src[s] == m.pat[p + 2] {
      assert m.src[s..s + 1] == [m.src[s]];
      BalanceMeans(m.src, s, s + 1, 1, m.pat[p + 2], m.pat[p + 3], e);
    }
  }

  // ---- Captures ----

  /** The text that a closed capture stands for. */
  function CapturedText(m: Input, cap: Capture): seq<char>
    requires cap.len.Closed? && cap.init + cap.len.n <= |m.src|
  {
    m.src[cap.init..cap.init + cap.len.n]
  }

  /** The captures with the l-th closed at s. */
  function ClosedAt(caps: seq<Capture>, l: nat, s: nat): seq<Capture>
    requires l < |caps| && caps[l].init <= s
  {
    var a := caps[l].init;
    caps[l := Capture(a, Closed(s - a))]
  }

  /** Closing a capture at s makes it the text from where it was opened to s, and leaves the others. */
  lemma {:induction false} CloseMeans(m: Input, caps: seq<Capture>, l: nat, s: nat)
    requires l < |caps| && caps[l].init <= s <= |m.src|
    ensures var out := CloseAt(caps, l, s);
            && out == ClosedAt(caps, l, s) && |out| == |caps|
            && out[l].len.Closed? && out[l].init + out[l].len.n <= |m.src|
            && CapturedText(m, out[l]) == m.src[caps[l].init..s]
            && forall k | 0 <= k < |caps| && k != l :: out[k] == caps[k]
  {
  }

  /** A digit refers to the capture of that number, which must exist and be closed. */
  predicate IsReferred(caps: seq<Capture>, c: char, l: nat): (r: bool)
    ensures r ==> l < |caps|
  {
    '1' <= c <= '9' && l == (c - '1') as nat && l < |caps| && !caps[l].len.Unfinished?
  }

  lemma {:induction false} ReferredMeans(caps: seq<Capture>, c: char, l: nat)
    requires '0' <= c <= '9'
    ensures Referred(caps, c) == Some(l) <==> IsReferred(caps, c, l)
  {
  }

  /** The captured text stands again between s and e. */
  predicate StandsAgain(m: Input, cap: Capture, s: nat, e: nat): (r: bool)
    requires cap.len.Closed? ==> cap.init + cap.len.n <= |m.src|
    ensures r ==> s <= e <= |m.src|
  {
    cap.len.Closed? && s <= e <= |m.src| && m.src[s..e] == CapturedText(m, cap)
  }

  /** A back-reference accepts the captured text again. */
  lemma {:induction false} RepeatsMeans(m: Input, s: nat, cap: Capture, e: nat)
    requires s <= |m.src| && (cap.len.Closed? ==> cap.init + cap.len.n <= |m.src|)
    ensures Repeats(m, s, cap) == Some(e) <==> StandsAgain(m, cap, s, e)
  {
  }
}
