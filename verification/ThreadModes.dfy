/** What the arguments of start decide, over whole runs: who frees the child state, who releases the thread, and how. */
module ThreadModes {
  import opened Threads

  /** The k-th action starts a thread in the mode (d, j). */
  ghost predicate StartedBy(states: seq<State>, actions: seq<Action>, k: nat, d: bool, j: bool) {
    Run(states, actions) && k < |actions| && actions[k] == Start(d, j) && !states[k].self.started
  }

  /** After start: it is still under way with its arguments, or both structures hold them. */
  predicate Mode(s: State, d: bool, j: bool) {
    && (s.at.Starting? ==> s.at.detached == d && s.at.joinable == j)
    && (!s.at.Starting? ==> s.self.started && s.created)
    && (s.created ==> s.kid.detached == d && s.kid.joinable == j)
  }

  lemma {:induction false} ModeSet(s: State, d: bool, j: bool)
    requires Inv(s) && s.at == Idle && !s.self.started
    ensures Mode(Next(s, Start(d, j)), d, j)
  {
  }

  lemma {:induction false} ModeKept(s: State, a: Action, d: bool, j: bool)
    requires Inv(s) && Enabled(s, a) && Mode(s, d, j)
    ensures Mode(Next(s, a), d, j)
  {
  }

  lemma {:induction false} ModeAfter(states: seq<State>, actions: seq<Action>, k: nat, d: bool, j: bool, i: nat)
    requires StartedBy(states, actions, k, d, j) && k < i < |states|
    ensures Mode(states[i], d, j) && Inv(states[i])
  {
    hide Inv, Next, Enabled, Mode;
    RunKeeps(states, actions, i);
    RunKeeps(states, actions, i - 1);
    assert Enabled(states[i - 1], actions[i - 1]) && states[i - 1 + 1] == Next(states[i - 1], actions[i - 1]);
    if i == k + 1 {
      StartsIdle(states[k], d, j);
      ModeSet(states[k], d, j);
    } else {
      ModeAfter(states, actions, k, d, j, i - 1);
      ModeKept(states[i - 1], actions[i - 1], d, j);
    }
  }

  lemma {:induction false} StartsIdle(s: State, d: bool, j: bool)
    requires Enabled(s, Start(d, j))
    ensures s.at == Idle
  {
  }

  /** The side that destroys the child state, by the arguments of start. */
  function Destroyer(d: bool, j: bool): Side {
    match (d, j)
    case (false, false) => Child
    case (false, true) => Parent
    case (true, false) => Child
    case (true, true) => Child
  }

  /** The parent has returned from start. */
  predicate Returned(s: State) {
    !s.at.Starting? && !(s.at.Detaching? && !s.at.last)
  }

  /**
   * From the call start(d, j) on, in every interleaving: the child runs in that mode, only the side that belongs to
   * the mode destroys its state, and the thread is detached in start, in the destructor, or never.
   */
  lemma {:induction false} AsAsked(states: seq<State>, actions: seq<Action>, k: nat, d: bool, j: bool, i: nat)
    requires StartedBy(states, actions, k, d, j) && k < i < |states|
    ensures var s := states[i];
            && (Returned(s) ==> s.created)
            && (s.created ==> s.kid.detached == d && s.kid.joinable == j)
            && (s.freed != [] ==> s.freed == [Destroyer(d, j)])
            && (s.detaches > 0 ==> d)
            && (d && !j ==> s.joins == 0 && (Returned(s) ==> s.detaches == 1))
            && (d && j && s.detaches > 0 ==> s.at == Gone || (s.at.Detaching? && s.at.last))
  {
    ModeAfter(states, actions, k, d, j, i);
  }

  /** The end of such a run: destroyed once by that side, and joined or detached as the mode asks. */
  lemma {:induction false} EndsAsAsked(states: seq<State>, actions: seq<Action>, k: nat, d: bool, j: bool, i: nat)
    requires StartedBy(states, actions, k, d, j) && k < i < |states|
    requires states[i].at == Gone && states[i].kidAt == Exited
    ensures var s := states[i];
            && s.freed == [Destroyer(d, j)]
            && (!d ==> s.joins == 1 && s.detaches == 0)
            && (d && !j ==> s.joins == 0 && s.detaches == 1)
            && (d && j ==> s.joins + s.detaches == 1)
  {
    ModeAfter(states, actions, k, d, j, i);
  }

  // ---- Join ----

  /** What join refuses: a thread detached at start, or joined before. */
  predicate Refused(s: State, d: bool, j: bool) {
    (d && !j) || s.joins > 0
  }

  lemma {:induction false} JoinBegins(s: State, wait: bool, d: bool, j: bool)
    requires Inv(s) && Mode(s, d, j) && s.at == Idle
    ensures var t := Next(s, Join(wait));
            if Refused(s, d, j) then t == s else t == s.(at := t.at) && t.at.Joining? && t.at.wait == wait
  {
  }

  /** How a join that was not refused can go on. */
  predicate Joins(s: State, wait: bool) {
    && s.at.Joining? && s.joins <= 1 && (wait ==> s.at.wait)
    && (s.joins == 1 ==> s.kidAt == Exited)
  }

  /** Over: with the results of a child that has exited, or, without waiting, because it was still alive. */
  predicate JoinOver(s: State, wait: bool, d: bool, j: bool) {
    && s.at == Idle
    && (if s.joins == 1 then
          s.self.joined && s.kidAt == Exited && s.freed == [Destroyer(d, j)] && (s.child <==> Destroyer(d, j) == Child)
        else !wait && s.joins == 0 && !s.self.joined)
  }

  lemma {:induction false} JoinGoesOn(s: State, a: Action, wait: bool, d: bool, j: bool)
    requires Inv(s) && Enabled(s, a) && Mode(s, d, j) && Joins(s, wait)
    ensures var t := Next(s, a); Joins(t, wait) || JoinOver(t, wait, d, j)
  {
  }

  /** The parent has been inside the join since it began. */
  ghost predicate Inside(states: seq<State>, m: nat, i: nat) {
    forall n | m < n < i && n < |states| :: states[n].at != Idle
  }

  lemma {:induction false} JoinAfter(states: seq<State>, actions: seq<Action>, k: nat, d: bool, j: bool,
                                     m: nat, wait: bool, i: nat)
    requires StartedBy(states, actions, k, d, j) && k < m < i < |states| && actions[m] == Join(wait)
    requires !Refused(states[m], d, j) && Inside(states, m, i)
    ensures Joins(states[i], wait) || JoinOver(states[i], wait, d, j)
  {
    hide Inv, Next, Enabled, Mode, Joins, JoinOver;
    ModeAfter(states, actions, k, d, j, i - 1);
    assert Enabled(states[i - 1], actions[i - 1]) && states[i - 1 + 1] == Next(states[i - 1], actions[i - 1]);
    if i == m + 1 {
      JoinIdle(states[m], wait);
      JoinBegins(states[m], wait, d, j);
      JoinsAtFirst(states[m], Next(states[m], Join(wait)), wait, d, j);
    } else {
      JoinAfter(states, actions, k, d, j, m, wait, i - 1);
      assert states[i - 1].at != Idle;
      NotOver(states[i - 1], wait, d, j);
      JoinGoesOn(states[i - 1], actions[i - 1], wait, d, j);
    }
  }

  lemma {:induction false} JoinIdle(s: State, wait: bool)
    requires Enabled(s, Join(wait))
    ensures s.at == Idle
  {
  }

  lemma {:induction false} JoinsAtFirst(s: State, t: State, wait: bool, d: bool, j: bool)
    requires t == s.(at := t.at) && t.at.Joining? && t.at.wait == wait && !Refused(s, d, j)
    ensures Joins(t, wait)
  {
  }

  lemma {:induction false} NotOver(s: State, wait: bool, d: bool, j: bool)
    requires s.at != Idle
    ensures !JoinOver(s, wait, d, j)
  {
  }

  /**
   * A join returns with the child ended, its state destroyed by the side that belongs to the mode, and the thread
   * joined; only a join that does not wait may instead find the child alive. It is refused, and changes nothing,
   * exactly for a thread detached at start or joined before.
   */
  lemma {:induction false} JoinEnds(states: seq<State>, actions: seq<Action>, k: nat, d: bool, j: bool,
                                    m: nat, wait: bool, i: nat)
    requires StartedBy(states, actions, k, d, j) && k < m < i < |states| && actions[m] == Join(wait)
    requires Inside(states, m, i) && states[i].at == Idle
    ensures Refused(states[m], d, j) ==> states[m + 1] == states[m]
    ensures !Refused(states[m], d, j) ==>
              var s := states[i];
              && (wait ==> s.joins == 1)
              && (s.joins == 1 ==> s.self.joined && s.kidAt == Exited && s.freed == [Destroyer(d, j)])
              && (s.joins != 1 ==> s.joins == 0 && !s.self.joined)
  {
    if Refused(states[m], d, j) {
      ModeAfter(states, actions, k, d, j, m);
      assert Enabled(states[m], actions[m]) && states[m + 1] == Next(states[m], actions[m]);
      JoinBegins(states[m], wait, d, j);
    } else {
      JoinAfter(states, actions, k, d, j, m, wait, i);
    }
  }

  // ---- The destructor ----

  predicate Ending(s: State) {
    s.at.Deleting? || (s.at.Detaching? && s.at.last) || s.at == Gone
  }

  lemma {:induction false} EndingKept(s: State, a: Action)
    requires Inv(s) && Enabled(s, a) && (Ending(s) || a == Delete)
    ensures Ending(Next(s, a))
  {
  }

  /** Once the destructor has begun, the object is only taken apart: no later operation finds it. */
  lemma {:induction false} DeleteIsFinal(states: seq<State>, actions: seq<Action>, k: nat, i: nat)
    requires Run(states, actions) && k < i < |states| && actions[k] == Delete
    ensures Ending(states[i])
  {
    hide Inv, Next, Enabled, Ending;
    RunKeeps(states, actions, i - 1);
    assert Enabled(states[i - 1], actions[i - 1]) && states[i - 1 + 1] == Next(states[i - 1], actions[i - 1]);
    if i == k + 1 {
    } else {
      DeleteIsFinal(states, actions, k, i - 1);
    }
    EndingKept(states[i - 1], actions[i - 1]);
  }
}
