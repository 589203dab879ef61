/** What a pattern means without any order of search, and that the search finds exactly that. */
module PatternMeaning {
  import opened CStrings
  import opened Options
  import opened Pattern
  import opened PatternItems

  /** How often an item with the suffix c may be repeated. */
  predicate Allowed(c: char, n: nat) {
    match c
    case '*' => true
    case '-' => true
    case '+' => n >= 1
    case '?' => n <= 1
    case _ => n == 1
  }

  predicate IsSuffix(c: char) {
    c in {'*', '+', '-', '?'}
  }

  /** The item from p to ep accepts the n characters from s. */
  ghost predicate Repeated(m: Input, s: nat, p: nat, ep: nat, n: nat)
    requires p < |m.pat| && EndOf(m.pat, p) == Next(ep)
  {
    forall t: nat | s <= t < s + n :: Accepts(m, t, p, ep)
  }

  /** The pattern from p can match from s to e, turning the captures caps into out. */
  ghost predicate Matches(m: Input, s: nat, p: nat, caps: seq<Capture>, e: nat, out: seq<Capture>)
    requires Fits(m, s, caps) && p <= |m.pat|
    decreases |m.pat| - p, 1
  {
    if p == |m.pat| then e == s && out == caps
    else match m.pat[p]
      case '(' =>
        && |caps| < MAXCAPTURES
        && (if At(m.pat, p + 1) == ')' then Matches(m, s, p + 2, caps + [Capture(s, Position)], e, out)
            else Matches(m, s, p + 1, caps + [Capture(s, Unfinished)], e, out))
      case ')' =>
        var l := ToClose(caps);
        l.Some? && Matches(m, s, p + 1, ClosedAt(caps, l.value, s), e, out)
      case '$' =>
        if p + 1 == |m.pat| then s == |m.src| && e == s && out == caps else MatchesItem(m, s, p, caps, e, out)
      case '%' =>
        (match At(m.pat, p + 1)
         case 'b' =>
           p + 3 < |m.pat|
           && exists b: nat :: BalancedAt(m, s, p, b) && Matches(m, b, p + 4, caps, e, out)
         case 'f' =>
           At(m.pat, p + 2) == '['
           && var ep := EndOf(m.pat, p + 2);
              ep.Next? && FrontierText(m, s, m.pat[p + 3..ep.ep - 1]) && Matches(m, s, ep.ep, caps, e, out)
         case c =>
           if '0' <= c <= '9' then
             exists l: nat, b: nat ::
               IsReferred(caps, c, l) && StandsAgain(m, caps[l], s, b) && Matches(m, b, p + 2, caps, e, out)
           else MatchesItem(m, s, p, caps, e, out))
      case _ => MatchesItem(m, s, p, caps, e, out)
  }

  ghost predicate MatchesItem(m: Input, s: nat, p: nat, caps: seq<Capture>, e: nat, out: seq<Capture>)
    requires Fits(m, s, caps) && p < |m.pat|
    decreases |m.pat| - p, 0
  {
    var ep := EndOf(m.pat, p);
    ep.Next? && exists n: nat ::
      && Repeated(m, s, p, ep.ep, n) && Allowed(At(m.pat, ep.ep), n) && s + n <= |m.src|
      && Matches(m, s + n, if IsSuffix(At(m.pat, ep.ep)) then ep.ep + 1 else ep.ep, caps, e, out)
  }

  lemma {:induction false} RepeatedNext(m: Input, s: nat, p: nat, ep: nat, n: nat)
    requires p < |m.pat| && EndOf(m.pat, p) == Next(ep) && n > 0
    ensures Repeated(m, s, p, ep, n) <==> Single(m, s, p, ep) && Repeated(m, s + 1, p, ep, n - 1)
  {
    SingleMeans(m, s, p, ep);
    hide Single, EndOf, Accepts;
  }

  /** An outcome of the greedy repetition comes from some number of repetitions. */
  lemma {:induction false} InLongest(m: Input, s: nat, p: nat, ep: nat, caps: seq<Capture>, depth: nat, o: Outcome)
    returns (n: nat)
    requires Fits(m, s, caps) && p < ep < |m.pat| && EndOf(m.pat, p) == Next(ep)
    requires o in Longest(m, s, p, ep, caps, depth)
    ensures Repeated(m, s, p, ep, n) && s + n <= |m.src| && o in Ways(m, s + n, ep + 1, caps, depth)
    decreases |m.src| - s
  {
    hide Ways, EndOf, Single, Repeated;
    RepeatedNone(m, s, p, ep);
    if o in Ways(m, s, ep + 1, caps, depth) {
      n := 0;
    } else {
      var k := InLongest(m, s + 1, p, ep, caps, depth, o);
      n := k + 1;
      RepeatedNext(m, s, p, ep, n);
    }
  }

  lemma {:induction false} LongestHas(m: Input, s: nat, p: nat, ep: nat, caps: seq<Capture>, depth: nat, n: nat,
      o: Outcome)
    requires Fits(m, s, caps) && p < ep < |m.pat| && EndOf(m.pat, p) == Next(ep)
    requires Repeated(m, s, p, ep, n) && s + n <= |m.src| && o in Ways(m, s + n, ep + 1, caps, depth)
    ensures o in Longest(m, s, p, ep, caps, depth)
    decreases n
  {
    hide Ways, EndOf, Single;
    if n == 0 {
    } else {
      RepeatedNext(m, s, p, ep, n);
      LongestHas(m, s + 1, p, ep, caps, depth, n - 1, o);
    }
  }

  lemma {:induction false} InShortest(m: Input, s: nat, p: nat, ep: nat, caps: seq<Capture>, depth: nat, o: Outcome)
    returns (n: nat)
    requires Fits(m, s, caps) && p < ep < |m.pat| && EndOf(m.pat, p) == Next(ep)
    requires o in Shortest(m, s, p, ep, caps, depth)
    ensures Repeated(m, s, p, ep, n) && s + n <= |m.src| && o in Ways(m, s + n, ep + 1, caps, depth)
    decreases |m.src| - s
  {
    hide Ways, EndOf, Single, Repeated;
    RepeatedNone(m, s, p, ep);
    if o in Ways(m, s, ep + 1, caps, depth) {
      n := 0;
    } else {
      var k := InShortest(m, s + 1, p, ep, caps, depth, o);
      n := k + 1;
      RepeatedNext(m, s, p, ep, n);
    }
  }

  lemma {:induction false} ShortestHas(m: Input, s: nat, p: nat, ep: nat, caps: seq<Capture>, depth: nat, n: nat,
      o: Outcome)
    requires Fits(m, s, caps) && p < ep < |m.pat| && EndOf(m.pat, p) == Next(ep)
    requires Repeated(m, s, p, ep, n) && s + n <= |m.src| && o in Ways(m, s + n, ep + 1, caps, depth)
    ensures o in Shortest(m, s, p, ep, caps, depth)
    decreases n
  {
    hide Ways, EndOf, Single;
    if n == 0 {
    } else {
      RepeatedNext(m, s, p, ep, n);
      ShortestHas(m, s + 1, p, ep, caps, depth, n - 1, o);
    }
  }

  /** The first outcome of the greedy repetition belongs to the largest number of repetitions that has one. */
  lemma {:induction false} LongestFirst(m: Input, s: nat, p: nat, ep: nat, caps: seq<Capture>, depth: nat)
    returns (n: nat)
    requires Fits(m, s, caps) && p < ep < |m.pat| && EndOf(m.pat, p) == Next(ep)
    requires Longest(m, s, p, ep, caps, depth) != []
    ensures Repeated(m, s, p, ep, n) && s + n <= |m.src|
    ensures Ways(m, s + n, ep + 1, caps, depth) != []
    ensures Longest(m, s, p, ep, caps, depth)[0] == Ways(m, s + n, ep + 1, caps, depth)[0]
    ensures forall k | k > n && Repeated(m, s, p, ep, k) && s + k <= |m.src| ::
              Ways(m, s + k, ep + 1, caps, depth) == []
    decreases |m.src| - s
  {
    hide Ways, EndOf, Single, Repeated;
    if Single(m, s, p, ep) && Longest(m, s + 1, p, ep, caps, depth) != [] {
      var j := LongestFirst(m, s + 1, p, ep, caps, depth);
      n := j + 1;
      RepeatedNext(m, s, p, ep, n);
      forall k | k > n && Repeated(m, s, p, ep, k) && s + k <= |m.src|
        ensures Ways(m, s + k, ep + 1, caps, depth) == []
      {
        RepeatedNext(m, s, p, ep, k);
        assert s + k == s + 1 + (k - 1);
      }
    } else {
      n := 0;
      assert Repeated(m, s, p, ep, 0) by { RepeatedNone(m, s, p, ep); }
      forall k | k > 0 && Repeated(m, s, p, ep, k) && s + k <= |m.src|
        ensures Ways(m, s + k, ep + 1, caps, depth) == []
      {
        RepeatedNext(m, s, p, ep, k);
        var w := Ways(m, s + k, ep + 1, caps, depth);
        if w != [] {
          LongestHas(m, s + 1, p, ep, caps, depth, k - 1, w[0]);
        }
      }
    }
  }

  lemma {:induction false} RepeatedNone(m: Input, s: nat, p: nat, ep: nat)
    requires p < |m.pat| && EndOf(m.pat, p) == Next(ep)
    ensures Repeated(m, s, p, ep, 0)
  {
  }

  /** The rest of the pattern after the suffix at ep has no way to match at t. */
  ghost predicate Dead(m: Input, t: nat, ep: nat, caps: seq<Capture>, depth: nat)
    requires ep < |m.pat|
  {
    Fits(m, t, caps) && Ways(m, t, ep + 1, caps, depth) == []
  }

  /** The first outcome of the lazy repetition belongs to the smallest number of repetitions that has one. */
  lemma {:induction false} ShortestFirst(m: Input, s: nat, p: nat, ep: nat, caps: seq<Capture>, depth: nat)
    returns (n: nat)
    requires Fits(m, s, caps) && p < ep < |m.pat| && EndOf(m.pat, p) == Next(ep)
    requires Shortest(m, s, p, ep, caps, depth) != []
    ensures Repeated(m, s, p, ep, n) && s + n <= |m.src|
    ensures Ways(m, s + n, ep + 1, caps, depth) != []
    ensures Shortest(m, s, p, ep, caps, depth)[0] == Ways(m, s + n, ep + 1, caps, depth)[0]
    ensures forall t: nat | s <= t < s + n :: Dead(m, t, ep, caps, depth)
    decreases |m.src| - s
  {
    hide Ways, EndOf, Single, Repeated;
    if Ways(m, s, ep + 1, caps, depth) != [] {
      n := 0;
      RepeatedNone(m, s, p, ep);
    } else {
      var j := ShortestFirst(m, s + 1, p, ep, caps, depth);
      n := j + 1;
      RepeatedNext(m, s, p, ep, n);
      assert Dead(m, s, ep, caps, depth);
    }
  }

  /** Every match that the search finds is a match. */
  lemma {:induction false} Sound(m: Input, s: nat, p: nat, caps: seq<Capture>, depth: nat, e: nat, out: seq<Capture>)
    requires Fits(m, s, caps) && p <= |m.pat| && Found(e, out) in Go(m, s, p, caps, depth)
    ensures Matches(m, s, p, caps, e, out)
    decreases |m.pat| - p, 1
  {
    hide EndOf, Single, Frontier, Repeats, Balanced, SetHas, MatchesItem, Accepts, BalancedAt, FrontierText,
      StandsAgain, Referred, IsReferred;
    if p == |m.pat| {
      return;
    }
    match m.pat[p]
    case '(' =>
      if At(m.pat, p + 1) == ')' {
        SoundCall(m, s, p + 2, caps + [Capture(s, Position)], depth, e, out);
      } else {
        SoundCall(m, s, p + 1, caps + [Capture(s, Unfinished)], depth, e, out);
      }
    case ')' =>
      CloseMeans(m, caps, ToClose(caps).value, s);
      SoundCall(m, s, p + 1, CloseAt(caps, ToClose(caps).value, s), depth, e, out);
    case '$' =>
      if p + 1 != |m.pat| {
        SoundItem(m, s, p, caps, depth, e, out);
      }
    case '%' =>
      var c := At(m.pat, p + 1);
      if c == 'b' {
        var b := Balanced(m, s, p + 2).value;
        BalancedMeans(m, s, p, b);
        Sound(m, b, p + 4, caps, depth, e, out);
      } else if c == 'f' {
        FrontierMeans(m, s, p + 2, EndOf(m.pat, p + 2).ep);
        Sound(m, s, EndOf(m.pat, p + 2).ep, caps, depth, e, out);
      } else if '0' <= c <= '9' {
        var l := Referred(caps, c).value;
        ReferredMeans(caps, c, l);
        RepeatsMeans(m, s, caps[l], Repeats(m, s, caps[l]).value);
        Sound(m, Repeats(m, s, caps[l]).value, p + 2, caps, depth, e, out);
      } else {
        SoundItem(m, s, p, caps, depth, e, out);
      }
    case _ =>
      SoundItem(m, s, p, caps, depth, e, out);
  }

  lemma {:induction false} SoundCall(m: Input, s: nat, p: nat, caps: seq<Capture>, depth: nat, e: nat,
      out: seq<Capture>)
    requires Fits(m, s, caps) && p <= |m.pat| && Found(e, out) in Ways(m, s, p, caps, depth)
    ensures Matches(m, s, p, caps, e, out)
    decreases |m.pat| - p, 2
  {
    hide Go, Matches;
    Sound(m, s, p, caps, depth - 1, e, out);
  }

  lemma {:induction false} SoundItem(m: Input, s: nat, p: nat, caps: seq<Capture>, depth: nat, e: nat,
      out: seq<Capture>)
    requires Fits(m, s, caps) && p < |m.pat| && Found(e, out) in Item(m, s, p, caps, depth)
    ensures MatchesItem(m, s, p, caps, e, out)
    decreases |m.pat| - p, 0
  {
    hide Go, Ways, Longest, Shortest, Matches, Single, Accepts;
    var ep := EndOf(m.pat, p).ep;
    var o, c := Found(e, out), At(m.pat, ep);
    var n: nat := 0;
    SingleMeans(m, s, p, ep);
    if !Single(m, s, p, ep) {
      Sound(m, s, ep + 1, caps, depth, e, out);
    } else if c == '*' {
      n := InLongest(m, s, p, ep, caps, depth, o);
      SoundCall(m, s + n, ep + 1, caps, depth, e, out);
    } else if c == '+' {
      var k := InLongest(m, s + 1, p, ep, caps, depth, o);
      n := k + 1;
      RepeatedNext(m, s, p, ep, n);
      assert s + n == s + 1 + k;
      SoundCall(m, s + n, ep + 1, caps, depth, e, out);
    } else if c == '-' {
      n := InShortest(m, s, p, ep, caps, depth, o);
      SoundCall(m, s + n, ep + 1, caps, depth, e, out);
    } else if c == '?' {
      if o in Ways(m, s + 1, ep + 1, caps, depth) {
        n := 1;
        SoundCall(m, s + 1, ep + 1, caps, depth, e, out);
      } else {
        Sound(m, s, ep + 1, caps, depth, e, out);
      }
    } else {
      n := 1;
      Sound(m, s + 1, ep, caps, depth, e, out);
    }
    assert Repeated(m, s, p, ep, n) && Allowed(c, n);
  }

  /** Every match is found, unless the search runs out of nested calls. */
  lemma {:induction false} Complete(m: Input, s: nat, p: nat, caps: seq<Capture>, depth: nat, e: nat, out: seq<Capture>)
    requires Fits(m, s, caps) && p <= |m.pat| && Matches(m, s, p, caps, e, out)
    ensures var w := Go(m, s, p, caps, depth); Found(e, out) in w || Failed(TooComplex) in w
    decreases |m.pat| - p, 1
  {
    hide EndOf, Single, Frontier, Repeats, Balanced, SetHas, MatchesItem, Accepts, BalancedAt, FrontierText,
      StandsAgain, Referred, IsReferred;
    if p == |m.pat| {
      return;
    }
    match m.pat[p]
    case '(' =>
      if At(m.pat, p + 1) == ')' {
        CompleteCall(m, s, p + 2, caps + [Capture(s, Position)], depth, e, out);
      } else {
        CompleteCall(m, s, p + 1, caps + [Capture(s, Unfinished)], depth, e, out);
      }
    case ')' =>
      CloseMeans(m, caps, ToClose(caps).value, s);
      CompleteCall(m, s, p + 1, CloseAt(caps, ToClose(caps).value, s), depth, e, out);
    case '$' =>
      if p + 1 != |m.pat| {
        CompleteItem(m, s, p, caps, depth, e, out);
      }
    case '%' =>
      var c := At(m.pat, p + 1);
      if c == 'b' {
        var b: nat :| BalancedAt(m, s, p, b) && Matches(m, b, p + 4, caps, e, out);
        BalancedMeans(m, s, p, b);
        Complete(m, b, p + 4, caps, depth, e, out);
      } else if c == 'f' {
        FrontierMeans(m, s, p + 2, EndOf(m.pat, p + 2).ep);
        Complete(m, s, EndOf(m.pat, p + 2).ep, caps, depth, e, out);
      } else if '0' <= c <= '9' {
        var l: nat, b: nat :|
          IsReferred(caps, c, l) && StandsAgain(m, caps[l], s, b) && Matches(m, b, p + 2, caps, e, out);
        ReferredMeans(caps, c, l);
        RepeatsMeans(m, s, caps[l], b);
        Complete(m, b, p + 2, caps, depth, e, out);
      } else {
        CompleteItem(m, s, p, caps, depth, e, out);
      }
    case _ =>
      CompleteItem(m, s, p, caps, depth, e, out);
  }

  lemma {:induction false} CompleteCall(m: Input, s: nat, p: nat, caps: seq<Capture>, depth: nat, e: nat,
      out: seq<Capture>)
    requires Fits(m, s, caps) && p <= |m.pat| && Matches(m, s, p, caps, e, out)
    ensures var w := Ways(m, s, p, caps, depth); Found(e, out) in w || Failed(TooComplex) in w
    decreases |m.pat| - p, 2
  {
    hide Go, Matches;
    if depth > 0 {
      Complete(m, s, p, caps, depth - 1, e, out);
    }
  }

  lemma {:induction false} CompleteItem(m: Input, s: nat, p: nat, caps: seq<Capture>, depth: nat, e: nat,
      out: seq<Capture>)
    requires Fits(m, s, caps) && p < |m.pat| && MatchesItem(m, s, p, caps, e, out)
    ensures var w := Item(m, s, p, caps, depth); Found(e, out) in w || Failed(TooComplex) in w
    decreases |m.pat| - p, 0
  {
    hide Go, Ways, Longest, Shortest, Matches, Single;
    var ep := EndOf(m.pat, p).ep;
    var c := At(m.pat, ep);
    var n: nat :| Repeated(m, s, p, ep, n) && Allowed(c, n) && s + n <= |m.src|
                  && Matches(m, s + n, if IsSuffix(c) then ep + 1 else ep, caps, e, out);
    if n > 0 {
      RepeatedNext(m, s, p, ep, n);
    }
    if !IsSuffix(c) {
      Complete(m, s + 1, ep, caps, depth, e, out);
      return;
    }
    if n == 0 && (c == '?' || !Single(m, s, p, ep)) {
      Complete(m, s, ep + 1, caps, depth, e, out);
      return;
    }
    CompleteCall(m, s + n, ep + 1, caps, depth, e, out);
    var w := Ways(m, s + n, ep + 1, caps, depth);
    var o := if Found(e, out) in w then Found(e, out) else Failed(TooComplex);
    if c == '*' {
      LongestHas(m, s, p, ep, caps, depth, n, o);
    } else if c == '+' {
      assert s + n == s + 1 + (n - 1);
      LongestHas(m, s + 1, p, ep, caps, depth, n - 1, o);
    } else if c == '-' {
      ShortestHas(m, s, p, ep, caps, depth, n, o);
    }
  }

  /** A pattern shorter than the number of nested calls left is never too complex. */
  lemma {:induction false} NeverTooComplex(m: Input, s: nat, p: nat, caps: seq<Capture>, depth: nat)
    requires Fits(m, s, caps) && p <= |m.pat| && depth >= |m.pat| - p
    ensures Failed(TooComplex) !in Go(m, s, p, caps, depth)
    decreases |m.pat| - p, 1
  {
    hide EndOf, Single, Frontier, Repeats, Balanced, SetHas, Item;
    if p == |m.pat| {
      return;
    }
    match m.pat[p]
    case '(' =>
      if |caps| < MAXCAPTURES {
        if At(m.pat, p + 1) == ')' {
          NeverTooComplex(m, s, p + 2, caps + [Capture(s, Position)], depth - 1);
        } else {
          NeverTooComplex(m, s, p + 1, caps + [Capture(s, Unfinished)], depth - 1);
        }
      }
    case ')' =>
      var l := ToClose(caps);
      if l.Some? {
        NeverTooComplex(m, s, p + 1, CloseAt(caps, l.value, s), depth - 1);
      }
    case '$' =>
      if p + 1 != |m.pat| {
        ItemNeverTooComplex(m, s, p, caps, depth);
      }
    case '%' =>
      var c := At(m.pat, p + 1);
      if c == 'b' {
        if p + 3 < |m.pat| && Balanced(m, s, p + 2).Some? {
          NeverTooComplex(m, Balanced(m, s, p + 2).value, p + 4, caps, depth);
        }
      } else if c == 'f' {
        if At(m.pat, p + 2) == '[' {
          var ep := EndOf(m.pat, p + 2);
          EndErrors(m.pat, p + 2);
          if ep.Next? {
            NeverTooComplex(m, s, ep.ep, caps, depth);
          }
        }
      } else if '0' <= c <= '9' {
        var l := Referred(caps, c);
        if l.Some? && Repeats(m, s, caps[l.value]).Some? {
          NeverTooComplex(m, Repeats(m, s, caps[l.value]).value, p + 2, caps, depth);
        }
      } else {
        ItemNeverTooComplex(m, s, p, caps, depth);
      }
    case _ =>
      ItemNeverTooComplex(m, s, p, caps, depth);
  }

  lemma {:induction false} EndErrors(pat: seq<char>, p: nat)
    requires p < |pat|
    ensures EndOf(pat, p) != Bad(TooComplex)
  {
    if pat[p] == '[' {
      SetErrors(pat, if At(pat, p + 1) == '^' then p + 2 else p + 1);
    }
  }

  lemma {:induction false} SetErrors(pat: seq<char>, i: nat)
    requires i <= |pat|
    ensures SetEnd(pat, i) != Bad(TooComplex)
    decreases |pat| - i
  {
    if i >= |pat| {
    } else {
      var j := if pat[i] == ESC && i + 1 < |pat| then i + 2 else i + 1;
      if At(pat, j) != ']' {
        SetErrors(pat, j);
      }
    }
  }

  lemma {:induction false} ItemNeverTooComplex(m: Input, s: nat, p: nat, caps: seq<Capture>, depth: nat)
    requires Fits(m, s, caps) && p < |m.pat| && depth >= |m.pat| - p
    ensures Failed(TooComplex) !in Item(m, s, p, caps, depth)
    decreases |m.pat| - p, 0
  {
    hide Go, Longest, Shortest, Single;
    EndErrors(m.pat, p);
    if EndOf(m.pat, p).Bad? {
      return;
    }
    var ep := EndOf(m.pat, p).ep;
    var c := At(m.pat, ep);
    if !Single(m, s, p, ep) {
      if IsSuffix(c) {
        NeverTooComplex(m, s, ep + 1, caps, depth);
      }
      return;
    }
    if !IsSuffix(c) {
      NeverTooComplex(m, s + 1, ep, caps, depth);
      return;
    }
    var q := ep + 1;
    forall t: nat | s <= t <= |m.src|
      ensures Failed(TooComplex) !in Ways(m, t, q, caps, depth)
    {
      NeverTooComplex(m, t, q, caps, depth - 1);
    }
    var o := Failed(TooComplex);
    if c == '?' {
      NeverTooComplex(m, s, ep + 1, caps, depth);
    } else if c == '-' {
      if o in Shortest(m, s, p, ep, caps, depth) {
        var n := InShortest(m, s, p, ep, caps, depth, o);
      }
    } else {
      var t := if c == '+' then s + 1 else s;
      if o in Longest(m, t, p, ep, caps, depth) {
        var n := InLongest(m, t, p, ep, caps, depth, o);
      }
    }
  }
}
