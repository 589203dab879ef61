/** The backtracking matcher: a depth-first walk that changes and restores one capture array. */
module Match {
  import opened CStrings
  import opened Options
  import opened Pattern

  const MAXCCALLS: nat := 200

  datatype Result = NoMatch | End(pos: nat) | Raised(error: Error)

  // ---- Reading one item ----

  method ClassEndOf(pat: seq<char>, p0: nat) returns (r: ClassEnd)
    requires p0 < |pat|
    ensures r == EndOf(pat, p0)
  {
    var p := p0 + 1;
    if pat[p0] == ESC {
      if p == |pat| {
        return Bad(EndsWithPercent);
      }
      return Next(p + 1);
    } else if pat[p0] == '[' {
      if At(pat, p) == '^' {
        p := p + 1;
      }
      while true
        invariant p <= |pat| && EndOf(pat, p0) == SetEnd(pat, p)
        decreases |pat| - p
      {
        if p == |pat| {
          return Bad(MissingBracket);
        }
        p := p + 1;
        if pat[p - 1] == ESC && p < |pat| {
          p := p + 1;
        }
        if At(pat, p) == ']' {
          return Next(p + 1);
        }
      }
    }
    return Next(p);
  }

  method BracketClass(pat: seq<char>, loc: Locale, c: char, p0: nat, ec: nat) returns (r: bool)
    requires p0 < ec < |pat|
    ensures r == InSet(pat, loc, c, p0, ec)
  {
    var p, sig := p0, true;
    if pat[p + 1] == '^' {
      p, sig := p + 1, false;
    }
    while true
      invariant p <= |pat| && InSet(pat, loc, c, p0, ec) == (SetHas(pat, loc, c, p + 1, ec) == sig)
      decreases |pat| - p
    {
      p := p + 1;
      if p >= ec {
        break;
      }
      if pat[p] == ESC {
        p := p + 1;
        if MatchClass(loc, c, pat[p]) {
          return sig;
        }
      } else if pat[p + 1] == '-' && p + 2 < ec {
        p := p + 2;
        if pat[p - 2] <= c <= pat[p] {
          return sig;
        }
      } else if pat[p] == c {
        return sig;
      }
    }
    return !sig;
  }

  method SingleMatch(m: Input, s: nat, p: nat, ep: nat) returns (r: bool)
    requires p < |m.pat| && EndOf(m.pat, p) == Next(ep)
    ensures r == Single(m, s, p, ep)
  {
    if s >= |m.src| {
      return false;
    }
    match m.pat[p]
    case '.' => r := true;
    case '%' => r := MatchClass(m.loc, m.src[s], m.pat[p + 1]);
    case '[' => r := BracketClass(m.pat, m.loc, m.src[s], p, ep - 1);
    case c => r := c == m.src[s];
  }

  method MatchBalance(m: Input, s0: nat, p: nat) returns (r: Option<nat>)
    requires s0 <= |m.src| && p + 1 < |m.pat|
    ensures r == Balanced(m, s0, p)
  {
    if At(m.src, s0) != m.pat[p] {
      return None;
    }
    var b, e, cont: nat, s := m.pat[p], m.pat[p + 1], 1, s0 + 1;
    while s < |m.src|
      invariant cont > 0 && s0 < s <= |m.src| + 1 && Balanced(m, s0, p) == Balance(m.src, s, cont, b, e)
    {
      if m.src[s] == e {
        cont := cont - 1;
        if cont == 0 {
          return Some(s + 1);
        }
      } else if m.src[s] == b {
        cont := cont + 1;
      }
      s := s + 1;
    }
    return None;
  }

  // ---- The matcher ----

  class MatchState {
    const m: Input
    var level: nat
    const capture: array<Capture>
    var matchdepth: nat

    constructor (m: Input)
      ensures this.m == m && matchdepth == MAXCCALLS && level == 0 && Valid() && fresh(capture)
    {
      this.m := m;
      level, matchdepth := 0, MAXCCALLS;
      capture := new Capture[MAXCAPTURES](_ => Capture(0, Unfinished));
    }

    ghost predicate Valid()
      reads this
    {
      capture.Length == MAXCAPTURES && level <= MAXCAPTURES
    }

    /** The captures in use. */
    ghost function Caps(): seq<Capture>
      requires Valid()
      reads this, capture
    {
      capture[..level]
    }

    /** r and the state are the first of the outcomes w; without one the state is as it was. */
    ghost predicate Took(r: Result, w: seq<Outcome>, caps: seq<Capture>, depth: nat)
      requires Valid()
      reads this, capture
    {
      if w == [] then r == NoMatch && Caps() == caps && matchdepth == depth
      else match w[0]
           case Found(e, c) => r == End(e) && Caps() == c && matchdepth == depth
           case Failed(error) => r == Raised(error)
    }

    method CaptureToClose() returns (r: Option<nat>)
      requires Valid()
      ensures r == ToClose(Caps())
    {
      var l: nat := level;
      assert capture[..level] == Caps();
      while l > 0
        invariant l <= level <= capture.Length && ToClose(Caps()) == ToClose(capture[..l])
      {
        l := l - 1;
        assert capture[..l + 1][..l] == capture[..l];
        if capture[l].len.Unfinished? {
          return Some(l);
        }
      }
      assert capture[..0] == [];
      return None;
    }

    method StartCapture(s: nat, p: nat, what: Length) returns (r: Result)
      requires Valid() && p <= |m.pat| && Fits(m, s, Caps()) && !what.Closed?
      modifies this, capture
      ensures Valid() && Fits(m, s, old(Caps()) + [Capture(s, what)])
      ensures var w := if |old(Caps())| >= MAXCAPTURES then [Failed(TooManyCaptures)]
                       else Ways(m, s, p, old(Caps()) + [Capture(s, what)], old(matchdepth));
              Took(r, w, old(Caps()), old(matchdepth))
      decreases |m.pat| - p, 4
    {
      ghost var caps := Caps();
      if level >= MAXCAPTURES {
        return Raised(TooManyCaptures);
      }
      capture[level] := Capture(s, what);
      level := level + 1;
      assert Caps() == caps + [Capture(s, what)];
      r := Match(s, p);
      if r == NoMatch {
        level := level - 1;
        assert Caps() == caps;
      }
    }

    method EndCapture(s: nat, p: nat) returns (r: Result)
      requires Valid() && p <= |m.pat| && Fits(m, s, Caps())
      modifies this, capture
      ensures Valid()
      ensures ToClose(old(Caps())).None? ==> r == Raised(InvalidPatternCapture)
      ensures ToClose(old(Caps())).Some? ==>
                var caps := CloseAt(old(Caps()), ToClose(old(Caps())).value, s);
                Fits(m, s, caps) && Took(r, Ways(m, s, p, caps, old(matchdepth)), old(Caps()), old(matchdepth))
      decreases |m.pat| - p, 4
    {
      ghost var caps := Caps();
      var l := CaptureToClose();
      if l.None? {
        return Raised(InvalidPatternCapture);
      }
      capture[l.value] := Capture(capture[l.value].init, Closed(s - capture[l.value].init));
      assert Caps() == CloseAt(caps, l.value, s);
      r := Match(s, p);
      if r == NoMatch {
        capture[l.value] := Capture(capture[l.value].init, Unfinished);
        assert Caps() == caps;
      }
    }

    method MaxExpand(s: nat, p: nat, ep: nat) returns (r: Result)
      requires Valid() && Fits(m, s, Caps()) && p < ep < |m.pat| && EndOf(m.pat, p) == Next(ep)
      modifies this, capture
      ensures Valid() && Took(r, Longest(m, s, p, ep, old(Caps()), old(matchdepth)), old(Caps()), old(matchdepth))
      decreases |m.pat| - ep, 3
    {
      hide EndOf, Single, Fits;
      ghost var caps, depth := Caps(), matchdepth;
      var i := 0;
      var more := SingleMatch(m, s, p, ep);
      FewerNone(m, s, p, ep, caps, depth);
      assert s + 0 <= |m.src| by { FitsBelow(m, s, 0, caps); }
      while more
        modifies {}
        invariant 0 <= i && s + i <= |m.src| && more == Single(m, s + i, p, ep) && Fits(m, s + i, caps)
        invariant Longest(m, s, p, ep, caps, depth)
               == Longest(m, s + i, p, ep, caps, depth) + Fewer(m, s, ep, caps, depth, i)
        decreases |m.src| - i
      {
        OneMore(m, s, p, ep, caps, depth, i);
        i := i + 1;
        more := SingleMatch(m, s + i, p, ep);
      }
      NoMore(m, s, p, ep, caps, depth, i);
      while i >= 0
        invariant -1 <= i && s + i <= |m.src| && Valid() && Caps() == caps && matchdepth == depth
        invariant Fits(m, s, caps) && (i >= 0 ==> Fits(m, s + i, caps))
        invariant Longest(m, s, p, ep, caps, depth) == Fewer(m, s, ep, caps, depth, i + 1)
        decreases i
      {
        r := Match(s + i, ep + 1);
        if r != NoMatch {
          return;
        }
        FitsBelow(m, s, i, caps);
        i := i - 1;
      }
      return NoMatch;
    }

    method MinExpand(s0: nat, p: nat, ep: nat) returns (r: Result)
      requires Valid() && Fits(m, s0, Caps()) && p < ep < |m.pat| && EndOf(m.pat, p) == Next(ep)
      modifies this, capture
      ensures Valid() && Took(r, Shortest(m, s0, p, ep, old(Caps()), old(matchdepth)), old(Caps()), old(matchdepth))
      decreases |m.pat| - ep, 3
    {
      ghost var caps, depth := Caps(), matchdepth;
      var s := s0;
      while true
        invariant Valid() && Caps() == caps && matchdepth == depth && Fits(m, s, caps)
        invariant Shortest(m, s0, p, ep, caps, depth) == Shortest(m, s, p, ep, caps, depth)
        decreases |m.src| - s
      {
        r := Match(s, ep + 1);
        if r != NoMatch {
          return;
        }
        var more := SingleMatch(m, s, p, ep);
        if !more {
          return NoMatch;
        }
        s := s + 1;
      }
    }

    /** Where the step leaves the match of which w are the outcomes. */
    ghost predicate Stepped(step: Step, w: seq<Outcome>, caps: seq<Capture>, depth: nat)
      requires Valid()
      reads this, capture
    {
      match step
      case Again(s, p) =>
        && p <= |m.pat| && Fits(m, s, caps) && w == Go(m, s, p, caps, depth) && Caps() == caps && matchdepth == depth
      case Done(r) => Took(r, w, caps, depth)
    }

    /** An item and its suffix. */
    method MatchItem(s: nat, p: nat) returns (step: Step)
      requires Valid() && p < |m.pat| && Fits(m, s, Caps())
      modifies this, capture
      ensures Valid() && Stepped(step, Item(m, s, p, old(Caps()), old(matchdepth)), old(Caps()), old(matchdepth))
      ensures step.Again? ==> p < step.p
      decreases |m.pat| - p, 0
    {
      ghost var caps, depth := Caps(), matchdepth;
      var r: Result;
      var c := ClassEndOf(m.pat, p);
      if c.Bad? {
        return Done(Raised(c.error));
      }
      var ep := c.ep;
      var one := SingleMatch(m, s, p, ep);
      if !one {
        if At(m.pat, ep) == '*' || At(m.pat, ep) == '?' || At(m.pat, ep) == '-' {
          return Again(s, ep + 1);
        }
        return Done(NoMatch);
      }
      match At(m.pat, ep)
      case '?' =>
        r := Match(s + 1, ep + 1);
        if r != NoMatch {
          return Done(r);
        }
        return Again(s, ep + 1);
      case '+' =>
        r := MaxExpand(s + 1, p, ep);
        return Done(r);
      case '*' =>
        r := MaxExpand(s, p, ep);
        return Done(r);
      case '-' =>
        r := MinExpand(s, p, ep);
        return Done(r);
      case _ =>
        return Again(s + 1, ep);
    }

    /** An escape that is not an item, or else the item. */
    method MatchEscape(s: nat, p: nat) returns (step: Step)
      requires Valid() && p < |m.pat| && m.pat[p] == ESC && Fits(m, s, Caps())
      modifies this, capture
      ensures Valid() && Stepped(step, Go(m, s, p, old(Caps()), old(matchdepth)), old(Caps()), old(matchdepth))
      ensures step.Again? ==> p < step.p
      decreases |m.pat| - p, 1
    {
      var c := At(m.pat, p + 1);
      match c
      case 'b' =>
        if p + 2 >= |m.pat| - 1 {
          return Done(Raised(MissingArguments));
        }
        var r := MatchBalance(m, s, p + 2);
        return if r.Some? then Again(r.value, p + 4) else Done(NoMatch);
      case 'f' =>
        if At(m.pat, p + 2) != '[' {
          return Done(Raised(MissingSet));
        }
        var e := ClassEndOf(m.pat, p + 2);
        if e.Bad? {
          return Done(Raised(e.error));
        }
        var previous := if s == 0 then '\0' else m.src[s - 1];
        var before := BracketClass(m.pat, m.loc, previous, p + 2, e.ep - 1);
        var here := BracketClass(m.pat, m.loc, At(m.src, s), p + 2, e.ep - 1);
        return if !before && here then Again(s, e.ep) else Done(NoMatch);
      case _ =>
        if '0' <= c <= '9' {
          var l := CheckCapture(c);
          if l.None? {
            return Done(Raised(InvalidCaptureIndex));
          }
          var r := MatchCapture(s, l.value);
          return if r.Some? then Again(r.value, p + 2) else Done(NoMatch);
        }
        step := MatchItem(s, p);
    }

    method CheckCapture(c: char) returns (r: Option<nat>)
      requires Valid()
      ensures r == Referred(Caps(), c)
      ensures forall l: nat :: r == Some(l) <==>
                l < |Caps()| && c as int == '1' as int + l && !Caps()[l].len.Unfinished?
    {
      var l := c as int - '1' as int;
      if l < 0 || l >= level || capture[l].len.Unfinished? {
        return None;
      }
      return Some(l);
    }

    method MatchCapture(s: nat, l: nat) returns (r: Option<nat>)
      requires Valid() && l < level && Fits(m, s, Caps())
      ensures r == Repeats(m, s, Caps()[l])
      ensures forall e: nat :: r == Some(e) <==>
                && s <= e <= |m.src| && Caps()[l].len.Closed?
                && m.src[s..e] == m.src[Caps()[l].init..Caps()[l].init + Caps()[l].len.n]
    {
      var cap := capture[l];
      assert cap == Caps()[l];
      if cap.len.Closed? && |m.src| - s >= cap.len.n
         && m.src[cap.init..cap.init + cap.len.n] == m.src[s..s + cap.len.n] {
        return Some(s + cap.len.n);
      }
      return None;
    }

    /** One turn of the matcher at p. */
    method MatchStep(s: nat, p: nat) returns (step: Step)
      requires Valid() && p < |m.pat| && Fits(m, s, Caps())
      modifies this, capture
      ensures Valid() && Stepped(step, Go(m, s, p, old(Caps()), old(matchdepth)), old(Caps()), old(matchdepth))
      ensures step.Again? ==> p < step.p
      decreases |m.pat| - p, 2
    {
      var r: Result;
      match m.pat[p]
      case '(' =>
        if At(m.pat, p + 1) == ')' {
          r := StartCapture(s, p + 2, Position);
        } else {
          r := StartCapture(s, p + 1, Unfinished);
        }
        return Done(r);
      case ')' =>
        r := EndCapture(s, p + 1);
        return Done(r);
      case '$' =>
        if p + 1 != |m.pat| {
          step := MatchItem(s, p);
          return;
        }
        return Done(if s == |m.src| then End(s) else NoMatch);
      case '%' =>
        step := MatchEscape(s, p);
      case _ =>
        step := MatchItem(s, p);
    }

    method Match(s0: nat, p0: nat) returns (r: Result)
      requires Valid() && p0 <= |m.pat| && Fits(m, s0, Caps())
      modifies this, capture
      ensures Valid() && Took(r, Ways(m, s0, p0, old(Caps()), old(matchdepth)), old(Caps()), old(matchdepth))
      decreases |m.pat| - p0, 3
    {
      if matchdepth == 0 {
        return Raised(TooComplex);
      }
      matchdepth := matchdepth - 1;
      ghost var caps, depth := Caps(), matchdepth;
      var s, p := s0, p0;
      r := End(s);
      while p != |m.pat|
        invariant Valid() && Caps() == caps && matchdepth == depth && p0 <= p <= |m.pat| && Fits(m, s, caps)
        invariant Go(m, s0, p0, caps, depth) == Go(m, s, p, caps, depth) && r == End(s)
        decreases |m.pat| - p
      {
        var step := MatchStep(s, p);
        if step.Done? {
          matchdepth := matchdepth + 1;
          return step.r;
        }
        s, p := step.s, step.p;
        r := End(s);
      }
      matchdepth := matchdepth + 1;
    }
  }

  datatype Step = Again(s: nat, p: nat) | Done(r: Result)

  /** The ways that use the item fewer than n times, the most first. */
  ghost function Fewer(m: Input, s: nat, ep: nat, caps: seq<Capture>, depth: nat, n: nat): seq<Outcome>
    requires Fits(m, s, caps) && ep < |m.pat| && (n > 0 ==> s + n - 1 <= |m.src|)
  {
    if n == 0 then [] else Ways(m, s + n - 1, ep + 1, caps, depth) + Fewer(m, s, ep, caps, depth, n - 1)
  }

  lemma {:induction false} FewerNone(m: Input, s: nat, p: nat, ep: nat, caps: seq<Capture>, depth: nat)
    requires Fits(m, s, caps) && p < ep < |m.pat| && EndOf(m.pat, p) == Next(ep)
    ensures var w := Longest(m, s, p, ep, caps, depth); w == w + Fewer(m, s, ep, caps, depth, 0)
  {
  }

  lemma {:induction false} OneMore(m: Input, s: nat, p: nat, ep: nat, caps: seq<Capture>, depth: nat, i: nat)
    requires Fits(m, s, caps) && p < ep < |m.pat| && EndOf(m.pat, p) == Next(ep)
    requires s + i <= |m.src| && Single(m, s + i, p, ep)
    ensures Fits(m, s + i, caps) && s + i + 1 <= |m.src| && Fits(m, s + i + 1, caps)
    ensures Longest(m, s + i, p, ep, caps, depth) + Fewer(m, s, ep, caps, depth, i)
         == Longest(m, s + i + 1, p, ep, caps, depth) + Fewer(m, s, ep, caps, depth, i + 1)
  {
  }

  lemma {:induction false} NoMore(m: Input, s: nat, p: nat, ep: nat, caps: seq<Capture>, depth: nat, i: nat)
    requires Fits(m, s, caps) && p < ep < |m.pat| && EndOf(m.pat, p) == Next(ep)
    requires s + i <= |m.src| && !Single(m, s + i, p, ep)
    ensures Fits(m, s + i, caps)
    ensures Longest(m, s + i, p, ep, caps, depth) + Fewer(m, s, ep, caps, depth, i)
         == Fewer(m, s, ep, caps, depth, i + 1)
  {
  }

  lemma {:induction false} FitsBelow(m: Input, s: nat, i: nat, caps: seq<Capture>)
    requires Fits(m, s, caps)
    ensures s <= |m.src|
    ensures 0 < i && s + i <= |m.src| ==> Fits(m, s + i - 1, caps)
  {
  }
}
