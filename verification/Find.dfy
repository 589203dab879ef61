/** string.find: the plain search and the search by pattern. */
module Find {
  import opened CStrings
  import opened Options
  import opened Pattern
  import opened Match
  import opened PatternMeaning

  /** The text p stands in src at i. */
  ghost predicate Occurs(src: seq<char>, p: seq<char>, i: nat) {
    i + |p| <= |src| && src[i..i + |p|] == p
  }

  /** The first c among the n characters of s from i. */
  method MemChr(s: seq<char>, i: nat, c: char, n: nat) returns (r: Option<nat>)
    requires i + n <= |s|
    ensures r.Some? ==> i <= r.value < i + n && s[r.value] == c && c !in s[i..r.value]
    ensures r.None? ==> c !in s[i..i + n]
  {
    var j := i;
    while j < i + n
      invariant i <= j <= i + n && c !in s[i..j]
    {
      if s[j] == c {
        return Some(j);
      }
      j := j + 1;
    }
    return None;
  }

  lemma {:induction false} OccursFirst(src: seq<char>, p: seq<char>, i: nat)
    requires p != []
    ensures Occurs(src, p, i) <==> i + |p| <= |src| && src[i] == p[0] && src[i + 1..i + |p|] == p[1..]
  {
    if i + |p| <= |src| {
      assert src[i..i + |p|] == [src[i]] + src[i + 1..i + |p|];
      assert p == [p[0]] + p[1..];
    }
  }

  /** The first place at or after start where s2 stands in s1. */
  method MemFind(s1: seq<char>, start: nat, s2: seq<char>) returns (r: Option<nat>)
    requires start <= |s1|
    ensures r.Some? ==> start <= r.value && Occurs(s1, s2, r.value)
    ensures r.Some? ==> forall i | start <= i < r.value :: !Occurs(s1, s2, i)
    ensures r.None? ==> forall i | start <= i :: !Occurs(s1, s2, i)
  {
    if |s2| == 0 {
      return Some(start);
    } else if |s2| > |s1| - start {
      return None;
    }
    var l2 := |s2| - 1;
    var l1: nat := |s1| - start - l2;
    var at := start;
    while l1 > 0
      invariant start <= at && at + l1 + l2 == |s1|
      invariant forall i | start <= i < at :: !Occurs(s1, s2, i)
      decreases l1
    {
      var init := MemChr(s1, at, s2[0], l1);
      forall i | at <= i < (if init.Some? then init.value else at + l1)
        ensures !Occurs(s1, s2, i)
      {
        OccursFirst(s1, s2, i);
        assert init.Some? ==> s1[i] == s1[at..init.value][i - at];
        assert init.None? ==> s1[i] == s1[at..at + l1][i - at];
      }
      if init.None? {
        return None;
      }
      OccursFirst(s1, s2, init.value);
      var next := init.value + 1;
      if s1[next..next + l2] == s2[1..] {
        return Some(next - 1);
      }
      l1 := l1 - (next - at);
      at := next;
    }
    return None;
  }

  const SPECIALS := "^$*+?.([%-"

  /** The first NUL at or after i, or the end. */
  function StrEnd(p: seq<char>, i: nat): (e: nat)
    requires i <= |p|
    ensures i <= e <= |p| && (e < |p| ==> p[e] == '\0') && forall j | i <= j < e :: p[j] != '\0'
    decreases |p| - i
  {
    if i == |p| || p[i] == '\0' then i else StrEnd(p, i + 1)
  }

  /** Whether a special character stands between i and the next NUL. */
  method StrPbrk(p: seq<char>, i: nat) returns (r: bool)
    requires i <= |p|
    ensures r <==> exists j | i <= j < StrEnd(p, i) :: p[j] in SPECIALS
  {
    var j := i;
    while j < |p| && p[j] != '\0'
      invariant i <= j <= |p| && StrEnd(p, i) == StrEnd(p, j)
      invariant forall t | i <= t < j :: p[t] !in SPECIALS
    {
      if p[j] in SPECIALS {
        return true;
      }
      j := j + 1;
    }
    return false;
  }

  ghost predicate Plain(p: seq<char>) {
    forall i | 0 <= i < |p| :: p[i] !in SPECIALS
  }

  method NoSpecials(p: seq<char>) returns (r: bool)
    ensures r <==> Plain(p)
  {
    var upto := 0;
    while upto <= |p|
      invariant 0 <= upto <= |p| + 1
      invariant forall i | 0 <= i < upto && i < |p| :: p[i] !in SPECIALS
    {
      var special := StrPbrk(p, upto);
      if special {
        return false;
      }
      upto := StrEnd(p, upto) + 1;
    }
    return true;
  }

  // ---- A plain pattern matches where its text stands ----

  lemma {:induction false} PlainItem(m: Input, s: nat, p: nat, caps: seq<Capture>, depth: nat)
    requires Fits(m, s, caps) && p < |m.pat| && Plain(m.pat) && m.pat[p] != ')'
    ensures s < |m.src| && m.src[s] == m.pat[p] ==> Fits(m, s + 1, caps)
    ensures Go(m, s, p, caps, depth) ==
            if s < |m.src| && m.src[s] == m.pat[p] then Go(m, s + 1, p + 1, caps, depth) else []
  {
    assert m.pat[p] !in SPECIALS;
    assert m.pat[p] != SPECIALS[0] && m.pat[p] != SPECIALS[1] && m.pat[p] != SPECIALS[2] && m.pat[p] != SPECIALS[3]
        && m.pat[p] != SPECIALS[4] && m.pat[p] != SPECIALS[5] && m.pat[p] != SPECIALS[6] && m.pat[p] != SPECIALS[7]
        && m.pat[p] != SPECIALS[8] && m.pat[p] != SPECIALS[9];
    if p + 1 < |m.pat| {
      assert m.pat[p + 1] !in SPECIALS;
      assert m.pat[p + 1] != SPECIALS[2] && m.pat[p + 1] != SPECIALS[3] && m.pat[p + 1] != SPECIALS[4]
          && m.pat[p + 1] != SPECIALS[9];
    }
  }

  lemma {:induction false} PlainWays(m: Input, s: nat, p: nat, depth: nat)
    requires s <= |m.src| && p <= |m.pat| && Plain(m.pat) && forall i | p <= i < |m.pat| :: m.pat[i] != ')'
    ensures Go(m, s, p, [], depth)
         == if Occurs(m.src, m.pat[p..], s) then [Found(s + |m.pat| - p, [])] else []
    decreases |m.pat| - p
  {
    if p >= |m.pat| {
    } else {
      PlainItem(m, s, p, [], depth);
      OccursFirst(m.src, m.pat[p..], s);
      if s < |m.src| && m.src[s] == m.pat[p] {
        PlainWays(m, s + 1, p + 1, depth);
        assert m.pat[p..][1..] == m.pat[p + 1..];
      }
    }
  }

  /** The outcomes of a search that starts at s with no captures. */
  ghost function Tries(m: Input, s: nat): seq<Outcome>
    requires s <= |m.src|
  {
    Ways(m, s, 0, [], MAXCCALLS)
  }

  /** A plain search and a search by pattern agree on every subject and start. */
  ghost predicate SearchesAgree(pat: seq<char>, loc: Locale) {
    forall src: seq<char>, s: nat {:trigger Input(src, pat, loc), Occurs(src, pat, s)} | s <= |src| ::
      Tries(Input(src, pat, loc), s) == if Occurs(src, pat, s) then [Found(s + |pat|, [])] else []
  }

  lemma {:induction false} PlainText(m: Input, s: nat)
    requires s <= |m.src| && Plain(m.pat) && ')' !in m.pat
    ensures Tries(m, s) == if Occurs(m.src, m.pat, s) then [Found(s + |m.pat|, [])] else []
  {
    PlainWays(m, s, 0, MAXCCALLS - 1);
    assert m.pat[0..] == m.pat;
  }

  /** With a closing parenthesis at j, the pattern searched in itself raises an error. */
  lemma {:induction false} ParenthesisRaises(m: Input, p: nat, j: nat, depth: nat)
    requires Plain(m.pat) && m.src == m.pat && p <= j < |m.pat| && m.pat[j] == ')'
    requires forall i | p <= i < j :: m.pat[i] != ')'
    ensures Go(m, p, p, [], depth) == [Failed(InvalidPatternCapture)]
    decreases j - p
  {
    if p >= j {
    } else {
      PlainItem(m, p, p, [], depth);
      ParenthesisRaises(m, p + 1, j, depth);
    }
  }

  /** For a pattern without special characters the fast path is right exactly when no ')' is in it. */
  lemma {:induction false} AgreeIffNoParenthesis(pat: seq<char>, loc: Locale)
    requires Plain(pat)
    ensures SearchesAgree(pat, loc) <==> ')' !in pat
  {
    if ')' !in pat {
      forall src: seq<char>, s: nat | s <= |src|
        ensures Tries(Input(src, pat, loc), s) == if Occurs(src, pat, s) then [Found(s + |pat|, [])] else []
      {
        PlainText(Input(src, pat, loc), s);
      }
    } else {
      var j := FirstParenthesis(pat);
      var m := Input(pat, pat, loc);
      ParenthesisRaises(m, 0, j, MAXCCALLS - 1);
      assert Occurs(pat, pat, 0) by {
        assert pat[0..0 + |pat|] == pat;
      }
    }
  }

  lemma {:induction false} FirstParenthesis(pat: seq<char>) returns (j: nat)
    requires ')' in pat
    ensures j < |pat| && pat[j] == ')' && forall i | 0 <= i < j :: pat[i] != ')'
  {
    j := 0;
    while pat[j] != ')'
      invariant j < |pat| && forall i | 0 <= i < j :: pat[i] != ')'
      decreases |pat| - j
    {
      if j + 1 == |pat| {
        assert false;
      }
      j := j + 1;
    }
  }

  // ---- string.find ----

  datatype Span = NotFound | Span(start: nat, end: nat, captures: seq<Capture>) | Error(error: Pattern.Error)

  /** Positions from the end count from -1; before the start is the start. */
  function StartFor(init: int, len: nat): (s: int)
    ensures s >= 0
    ensures init >= 1 ==> s == init - 1
    ensures init < 1 ==> s == if init == 0 || len + init < 0 then 0 else len + init
  {
    var pos := if init >= 0 then init else if -init > len then 0 else len + init + 1;
    if pos < 1 then 0 else pos - 1
  }

  /** The first start, from s on, that has an outcome decides. */
  ghost predicate Leftmost(m: Input, s: nat, anchor: bool, r: Span) {
    match r
    case NotFound => forall t: nat | s <= t <= |m.src| && (anchor ==> t == s) :: Tries(m, t) == []
    case Span(start, e, caps) => Decides(m, s, start, anchor, Found(e, caps)) && !Open(caps)
    case Error(error) =>
      exists start: nat, o: Outcome :: Decides(m, s, start, anchor, o) && Complaint(o) == Some(error)
  }

  /** o is what the first start with an outcome gives. */
  ghost predicate Decides(m: Input, s: nat, start: nat, anchor: bool, o: Outcome) {
    && s <= start <= |m.src| && (anchor ==> start == s)
    && (forall t: nat | s <= t < start :: Tries(m, t) == [])
    && Tries(m, start) != [] && Tries(m, start)[0] == o
  }

  predicate Open(caps: seq<Capture>) {
    exists i | 0 <= i < |caps| :: caps[i].len.Unfinished?
  }

  /** The error that an outcome ends in: its own, or a capture never closed. */
  function Complaint(o: Outcome): Option<Pattern.Error> {
    match o
    case Failed(error) => Some(error)
    case Found(_, caps) => if Open(caps) then Some(UnfinishedCapture) else None
  }

  /** Pushes the captures, none of which may be open. */
  method PushCaptures(caps: seq<Capture>) returns (ok: bool)
    ensures ok == !Open(caps)
  {
    var i := 0;
    while i < |caps|
      invariant 0 <= i <= |caps| && forall j | 0 <= j < i :: !caps[j].len.Unfinished?
    {
      if caps[i].len.Unfinished? {
        return false;
      }
      i := i + 1;
    }
    return true;
  }

  /** Tries every start in turn. */
  method Search(m: Input, s0: nat, anchor: bool) returns (r: Span)
    requires s0 <= |m.src|
    ensures Leftmost(m, s0, anchor, r)
  {
    var ms := new MatchState(m);
    var s1 := s0;
    while true
      invariant s0 <= s1 <= |m.src| && (anchor ==> s1 == s0) && ms.Valid() && ms.m == m && ms.matchdepth == MAXCCALLS
      invariant fresh(ms) && fresh(ms.capture)
      invariant forall t: nat | s0 <= t < s1 :: Tries(m, t) == []
      decreases |m.src| - s1
    {
      ms.level := 0;
      assert ms.Caps() == [];
      var res := ms.Match(s1, 0);
      match res
      case End(e) =>
        var caps := ms.capture[..ms.level];
        assert Decides(m, s0, s1, anchor, Found(e, caps));
        var ok := PushCaptures(caps);
        return if ok then Span.Span(s1, e, caps) else Error(UnfinishedCapture);
      case Raised(error) =>
        assert Decides(m, s0, s1, anchor, Failed(error));
        return Error(error);
      case NoMatch =>
        if s1 >= |m.src| || anchor {
          return NotFound;
        }
        s1 := s1 + 1;
    }
  }

  /** What a find must return: the plain occurrence when plain, otherwise the leftmost match after the anchor. */
  ghost predicate FindsRight(src: seq<char>, pat: seq<char>, init: int, plain: bool, loc: Locale, r: Span) {
    var s := StartFor(init, |src|);
    if s > |src| then r == NotFound
    else if plain then
      match r
      case NotFound => forall i | s <= i :: !Occurs(src, pat, i)
      case Span(i, e, caps) =>
        s <= i && Occurs(src, pat, i) && e == i + |pat| && caps == [] && forall j | s <= j < i :: !Occurs(src, pat, j)
      case Error(_) => false
    else
      var anchor := pat != [] && pat[0] == '^';
      Leftmost(Input(src, if anchor then pat[1..] else pat, loc), s, anchor, r)
  }

  method FindText(src: seq<char>, pat: seq<char>, init: int, plain: bool, loc: Locale) returns (r: Span)
    ensures FindsRight(src, pat, init, plain, loc, r)
         || (Plain(pat) && ')' in pat && FindsRight(src, pat, init, true, loc, r))
  {
    var s := StartFor(init, |src|);
    if s > |src| {
      return NotFound;
    }
    var fast := plain;
    if !fast {
      fast := NoSpecials(pat);
    }
    if fast {
      var at := MemFind(src, s, pat);
      r := if at.Some? then Span.Span(at.value, at.value + |pat|, []) else NotFound;
      if !plain && ')' !in pat {
        PlainIsLeftmost(src, pat, s, loc, r);
      }
    } else {
      var p := pat;
      var anchor := At(p, 0) == '^';
      if anchor {
        p := p[1..];
      }
      r := Search(Input(src, p, loc), s, anchor);
    }
  }

  lemma {:induction false} PlainIsLeftmost(src: seq<char>, pat: seq<char>, s: nat, loc: Locale, r: Span)
    requires s <= |src| && Plain(pat) && ')' !in pat
    requires match r
             case NotFound => forall i | s <= i :: !Occurs(src, pat, i)
             case Span(i, e, caps) =>
               s <= i && Occurs(src, pat, i) && e == i + |pat| && caps == []
                 && forall j | s <= j < i :: !Occurs(src, pat, j)
             case Error(_) => false
    ensures Leftmost(Input(src, pat, loc), s, false, r) && (pat != [] ==> pat[0] != '^')
  {
    var m := Input(src, pat, loc);
    forall t: nat | s <= t <= |src|
      ensures Tries(m, t) == if Occurs(src, pat, t) then [Found(t + |pat|, [])] else []
    {
      PlainText(m, t);
    }
    if pat != [] {
      assert pat[0] !in SPECIALS && SPECIALS[0] == '^';
    }
  }

  /** No match is reported only when the pattern has none at any start. */
  lemma {:induction false} NothingToFind(m: Input, s: nat, t: nat, e: nat, out: seq<Capture>)
    requires s <= t <= |m.src| && Leftmost(m, s, false, NotFound)
    ensures !Matches(m, t, 0, [], e, out)
  {
    assert Tries(m, t) == [];
    NoneAt(m, t, e, out);
  }

  /** A span found is a match of the pattern, and no earlier start has one. */
  lemma {:induction false} FoundIsMatch(m: Input, s: nat, anchor: bool, r: Span)
    requires s <= |m.src| && r.Span? && Leftmost(m, s, anchor, r)
    ensures Matches(m, r.start, 0, [], r.end, r.captures)
    ensures forall t: nat, e, out | s <= t < r.start :: !Matches(m, t, 0, [], e, out)
  {
    SoundCall(m, r.start, 0, [], MAXCCALLS, r.end, r.captures);
    forall t: nat, e, out | s <= t < r.start
      ensures !Matches(m, t, 0, [], e, out)
    {
      NoneAt(m, t, e, out);
    }
  }

  lemma {:induction false} NoneAt(m: Input, t: nat, e: nat, out: seq<Capture>)
    requires t <= |m.src| && Tries(m, t) == []
    ensures !Matches(m, t, 0, [], e, out)
  {
    if Matches(m, t, 0, [], e, out) {
      Complete(m, t, 0, [], MAXCCALLS - 1, e, out);
    }
  }

  /** A pattern too short to reach the nesting limit: the search finds exactly the matches. */
  lemma {:induction false} ShortPatternExact(m: Input, s: nat, e: nat, out: seq<Capture>)
    requires s <= |m.src| && |m.pat| < MAXCCALLS
    ensures Failed(TooComplex) !in Tries(m, s)
    ensures Found(e, out) in Tries(m, s) <==> Matches(m, s, 0, [], e, out)
  {
    NeverTooComplex(m, s, 0, [], MAXCCALLS - 1);
    if Matches(m, s, 0, [], e, out) {
      CompleteCall(m, s, 0, [], MAXCCALLS, e, out);
    }
    if Found(e, out) in Tries(m, s) {
      SoundCall(m, s, 0, [], MAXCCALLS, e, out);
    }
  }
}
