/** Lua patterns: what one item accepts, and every way in which a pattern matches, in order of preference. */
module Pattern {
  import opened CStrings
  import opened Options

  const ESC := '%'
  const MAXCAPTURES: nat := 32

  /** The ctype tables of the locale. */
  datatype Locale = Locale(alpha: char -> bool, cntrl: char -> bool, digit: char -> bool, graph: char -> bool,
                           lower: char -> bool, punct: char -> bool, space: char -> bool, upper: char -> bool,
                           alnum: char -> bool, xdigit: char -> bool, toLower: char -> char)

  /** The subject and the pattern of one match; both end in a NUL that may be read. */
  datatype Input = Input(src: seq<char>, pat: seq<char>, loc: Locale)

  datatype Length = Unfinished | Position | Closed(n: nat)
  datatype Capture = Capture(init: nat, len: Length)

  datatype Error = TooComplex | TooManyCaptures | InvalidCaptureIndex | InvalidPatternCapture
                 | EndsWithPercent | MissingBracket | MissingArguments | MissingSet | UnfinishedCapture

  // ---- One item ----

  datatype ClassEnd = Next(ep: nat) | Bad(error: Error)

  /** Where the item at p ends. */
  function EndOf(pat: seq<char>, p: nat): (r: ClassEnd)
    requires p < |pat|
    ensures r.Next? ==> p < r.ep <= |pat|
    ensures r.Next? && pat[p] == ESC ==> r.ep == p + 2
    ensures r.Next? && pat[p] == '[' ==> p + 2 < r.ep && pat[r.ep - 1] == ']'
    ensures pat[p] != ESC && pat[p] != '[' ==> r == Next(p + 1)
  {
    if pat[p] == ESC then
      if p + 1 == |pat| then Bad(EndsWithPercent) else Next(p + 2)
    else if pat[p] == '[' then
      SetEnd(pat, if At(pat, p + 1) == '^' then p + 2 else p + 1)
    else Next(p + 1)
  }

  /** From inside a set, after the bracket and the caret: the position after the closing bracket. */
  function SetEnd(pat: seq<char>, i: nat): (r: ClassEnd)
    requires i <= |pat|
    ensures r.Next? ==> i + 1 < r.ep <= |pat| && pat[r.ep - 1] == ']'
    decreases |pat| - i
  {
    if i == |pat| then Bad(MissingBracket)
    else
      var j := if pat[i] == ESC && i + 1 < |pat| then i + 2 else i + 1;
      if At(pat, j) == ']' then Next(j + 1) else SetEnd(pat, j)
  }

  function MatchClass(loc: Locale, c: char, cl: char): bool {
    var res := match loc.toLower(cl)
      case 'a' => Some(loc.alpha(c))
      case 'c' => Some(loc.cntrl(c))
      case 'd' => Some(loc.digit(c))
      case 'g' => Some(loc.graph(c))
      case 'l' => Some(loc.lower(c))
      case 'p' => Some(loc.punct(c))
      case 's' => Some(loc.space(c))
      case 'u' => Some(loc.upper(c))
      case 'w' => Some(loc.alnum(c))
      case 'x' => Some(loc.xdigit(c))
      case 'z' => Some(c == '\0')
      case _ => None;
    match res
    case None => cl == c
    case Some(b) => if loc.lower(cl) then b else !b
  }

  /** c is one of the items of a set from i up to its closing bracket at ec. */
  function SetHas(pat: seq<char>, loc: Locale, c: char, i: nat, ec: nat): bool
    requires ec < |pat|
    decreases ec - i
  {
    if i >= ec then false
    else if pat[i] == ESC then MatchClass(loc, c, pat[i + 1]) || SetHas(pat, loc, c, i + 2, ec)
    else if pat[i + 1] == '-' && i + 2 < ec then pat[i] <= c <= pat[i + 2] || SetHas(pat, loc, c, i + 3, ec)
    else pat[i] == c || SetHas(pat, loc, c, i + 1, ec)
  }

  /** The set between p and its closing bracket at ec accepts c. */
  function InSet(pat: seq<char>, loc: Locale, c: char, p: nat, ec: nat): bool
    requires p < ec < |pat|
  {
    if pat[p + 1] == '^' then !SetHas(pat, loc, c, p + 2, ec) else SetHas(pat, loc, c, p + 1, ec)
  }

  /** The item from p to ep accepts the character at s. */
  function Single(m: Input, s: nat, p: nat, ep: nat): (r: bool)
    requires p < |m.pat| && EndOf(m.pat, p) == Next(ep)
    ensures r ==> s < |m.src|
  {
    s < |m.src|
    && match m.pat[p]
       case '.' => true
       case '%' => MatchClass(m.loc, m.src[s], m.pat[p + 1])
       case '[' => InSet(m.pat, m.loc, m.src[s], p, ep - 1)
       case c => c == m.src[s]
  }

  /** From i, with cont brackets b open: the position after the e that closes the last. */
  function Balance(src: seq<char>, i: nat, cont: nat, b: char, e: char): (r: Option<nat>)
    requires cont > 0
    ensures r.Some? ==> i < r.value <= |src|
    decreases |src| - i
  {
    if i >= |src| then None
    else if src[i] == e then
      if cont == 1 then Some(i + 1) else Balance(src, i + 1, cont - 1, b, e)
    else Balance(src, i + 1, if src[i] == b then cont + 1 else cont, b, e)
  }

  function Balanced(m: Input, s: nat, p: nat): (r: Option<nat>)
    ensures r.Some? ==> s < r.value <= |m.src|
  {
    if At(m.src, s) != At(m.pat, p) then None else Balance(m.src, s + 1, 1, At(m.pat, p), At(m.pat, p + 1))
  }

  /** The frontier: s is where characters of the set begin. */
  function Frontier(m: Input, s: nat, p: nat, ep: nat): bool
    requires s <= |m.src| && p < |m.pat| && m.pat[p] == '[' && EndOf(m.pat, p) == Next(ep)
  {
    var previous := if s == 0 then '\0' else m.src[s - 1];
    !InSet(m.pat, m.loc, previous, p, ep - 1) && InSet(m.pat, m.loc, At(m.src, s), p, ep - 1)
  }

  // ---- Captures ----

  /** The captures lie in the subject before s. */
  ghost predicate Fits(m: Input, s: nat, caps: seq<Capture>) {
    && s <= |m.src|
    && forall i | 0 <= i < |caps| ::
         caps[i].init <= s && (caps[i].len.Closed? ==> caps[i].init + caps[i].len.n <= |m.src|)
  }

  /** The last capture that is still open. */
  function ToClose(caps: seq<Capture>): (r: Option<nat>)
    ensures r.Some? ==> r.value < |caps| && caps[r.value].len.Unfinished?
    ensures r.Some? ==> forall i | r.value < i < |caps| :: !caps[i].len.Unfinished?
    ensures r.None? ==> forall i | 0 <= i < |caps| :: !caps[i].len.Unfinished?
  {
    if caps == [] then None
    else if caps[|caps| - 1].len.Unfinished? then Some(|caps| - 1)
    else ToClose(caps[..|caps| - 1])
  }

  /** The capture that %c refers to. */
  function Referred(caps: seq<Capture>, c: char): (r: Option<nat>)
    ensures r.Some? ==> r.value < |caps| && !caps[r.value].len.Unfinished?
  {
    var l := c as int - '1' as int;
    if l < 0 || l >= |caps| || caps[l].len.Unfinished? then None else Some(l)
  }

  /** The text of a closed capture stands again at s; a position capture never does. */
  function Repeats(m: Input, s: nat, cap: Capture): (r: Option<nat>)
    requires s <= |m.src| && (cap.len.Closed? ==> cap.init + cap.len.n <= |m.src|)
    ensures r.Some? ==> s <= r.value <= |m.src|
  {
    if cap.len.Closed? && cap.len.n <= |m.src| - s
       && m.src[cap.init..cap.init + cap.len.n] == m.src[s..s + cap.len.n]
    then Some(s + cap.len.n)
    else None
  }

  // ---- Every way to match, best first ----

  datatype Outcome = Found(end: nat, caps: seq<Capture>) | Failed(error: Error)

  /** All outcomes of matching the pattern from p at s, with so many nested calls left. */
  ghost function Ways(m: Input, s: nat, p: nat, caps: seq<Capture>, depth: nat): (w: seq<Outcome>)
    requires Fits(m, s, caps) && p <= |m.pat|
    decreases |m.pat| - p, 2, 0
  {
    if depth == 0 then [Failed(TooComplex)] else Go(m, s, p, caps, depth - 1)
  }

  ghost function Go(m: Input, s: nat, p: nat, caps: seq<Capture>, depth: nat): (w: seq<Outcome>)
    requires Fits(m, s, caps) && p <= |m.pat|
    decreases |m.pat| - p, 1, 0
  {
    if p == |m.pat| then [Found(s, caps)]
    else match m.pat[p]
      case '(' =>
        if |caps| >= MAXCAPTURES then [Failed(TooManyCaptures)]
        else if At(m.pat, p + 1) == ')' then Ways(m, s, p + 2, caps + [Capture(s, Position)], depth)
        else Ways(m, s, p + 1, caps + [Capture(s, Unfinished)], depth)
      case ')' =>
        (match ToClose(caps)
         case None => [Failed(InvalidPatternCapture)]
         case Some(l) => Ways(m, s, p + 1, CloseAt(caps, l, s), depth))
      case '$' =>
        if p + 1 == |m.pat| then (if s == |m.src| then [Found(s, caps)] else []) else Item(m, s, p, caps, depth)
      case '%' =>
        (match At(m.pat, p + 1)
         case 'b' =>
           if p + 3 >= |m.pat| then [Failed(MissingArguments)]
           else (match Balanced(m, s, p + 2)
                 case None => []
                 case Some(e) => Go(m, e, p + 4, caps, depth))
         case 'f' =>
           if At(m.pat, p + 2) != '[' then [Failed(MissingSet)]
           else (match EndOf(m.pat, p + 2)
                 case Bad(error) => [Failed(error)]
                 case Next(ep) => if Frontier(m, s, p + 2, ep) then Go(m, s, ep, caps, depth) else [])
         case c =>
           if '0' <= c <= '9' then
             (match Referred(caps, c)
              case None => [Failed(InvalidCaptureIndex)]
              case Some(l) =>
                (match Repeats(m, s, caps[l])
                 case None => []
                 case Some(e) => Go(m, e, p + 2, caps, depth)))
           else Item(m, s, p, caps, depth))
      case _ => Item(m, s, p, caps, depth)
  }

  function CloseAt(caps: seq<Capture>, l: nat, s: nat): seq<Capture>
    requires l < |caps| && caps[l].init <= s
  {
    caps[l := Capture(caps[l].init, Closed(s - caps[l].init))]
  }

  /** An item with its suffix. */
  ghost function Item(m: Input, s: nat, p: nat, caps: seq<Capture>, depth: nat): (w: seq<Outcome>)
    requires Fits(m, s, caps) && p < |m.pat|
    decreases |m.pat| - p, 0, 0
  {
    match EndOf(m.pat, p)
    case Bad(error) => [Failed(error)]
    case Next(ep) =>
      if !Single(m, s, p, ep) then
        if At(m.pat, ep) in {'*', '?', '-'} then Go(m, s, ep + 1, caps, depth) else []
      else match At(m.pat, ep)
        case '?' => Ways(m, s + 1, ep + 1, caps, depth) + Go(m, s, ep + 1, caps, depth)
        case '+' => Longest(m, s + 1, p, ep, caps, depth)
        case '*' => Longest(m, s, p, ep, caps, depth)
        case '-' => Shortest(m, s, p, ep, caps, depth)
        case _ => Go(m, s + 1, ep, caps, depth)
  }

  /** The item as often as possible, and then less often. */
  ghost function Longest(m: Input, s: nat, p: nat, ep: nat, caps: seq<Capture>, depth: nat): (w: seq<Outcome>)
    requires Fits(m, s, caps) && p < ep < |m.pat| && EndOf(m.pat, p) == Next(ep)
    decreases |m.pat| - ep, 3, |m.src| - s
  {
    (if Single(m, s, p, ep) then Longest(m, s + 1, p, ep, caps, depth) else []) + Ways(m, s, ep + 1, caps, depth)
  }

  /** The item as seldom as possible, and then more often. */
  ghost function Shortest(m: Input, s: nat, p: nat, ep: nat, caps: seq<Capture>, depth: nat): (w: seq<Outcome>)
    requires Fits(m, s, caps) && p < ep < |m.pat| && EndOf(m.pat, p) == Next(ep)
    decreases |m.pat| - ep, 3, |m.src| - s
  {
    Ways(m, s, ep + 1, caps, depth) + if Single(m, s, p, ep) then Shortest(m, s + 1, p, ep, caps, depth) else []
  }
}
