/** The life of a thread object: the parent's operations, step by step, against the child that ends at any moment. */
module Threads {

  datatype Flags = Flags(started: bool, detached: bool, joined: bool, joinable: bool)

  const NONE := Flags(false, false, false, false)

  datatype Side = Parent | Child

  /** Where the child thread is: in its code, past it, about to free its state, gone. */
  datatype ChildAt = NotCreated | Running | Returned | Freeing | Exited

  /** Where the parent is, between its operations or in the middle of one. */
  datatype ParentAt =
    | Idle
    | Starting(step: nat, detached: bool, joinable: bool)
    | Detaching(step: nat, last: bool)
    | Joining(step: nat, kid: bool, wait: bool)
    | Deleting(step: nat)
    | Gone

  /**
   * self and kid are the flags of the two structures; child says that this->child is set.
   * freed lists who destroyed the child state; joins and detaches count the calls on the OS thread;
   * fault records a failed assertion, a use of the child state after its end, or a second release of the thread.
   */
  datatype State = State(self: Flags, child: bool, kid: Flags, freed: seq<Side>, at: ParentAt, kidAt: ChildAt,
                         created: bool, joins: nat, detaches: nat, fault: bool)

  const INITIAL := State(NONE, true, NONE, [], Idle, NotCreated, false, 0, 0, false)

  datatype Action = Start(detached: bool, joinable: bool) | Join(wait: bool) | Alive | Delete
                  | ParentStep | Probe(alive: bool) | ChildStep

  // ---- Pieces of the steps ----

  /** llthread_validate */
  predicate Valid(s: State) {
    if !s.self.started then !s.self.detached && !s.self.joined && !s.self.joinable
    else s.self.detached ==> (s.child <==> s.self.joinable)
  }

  function Assert(s: State, ok: bool): State {
    s.(fault := s.fault || !ok)
  }

  /** A read or write of the child state. */
  function UseChild(s: State): State {
    Assert(s, s.freed == [])
  }

  function FreeChild(s: State, side: Side): State {
    UseChild(s).(freed := s.freed + [side])
  }

  /** pthread_join and pthread_detach may be called once, on a thread that was created. */
  function Release(s: State, join: bool): State {
    var t := Assert(s, s.created && s.joins + s.detaches == 0);
    if join then t.(joins := s.joins + 1) else t.(detaches := s.detaches + 1)
  }

  predicate ChildFrees(kid: Flags) {
    kid.detached || !kid.joinable
  }

  // ---- The child thread ----

  function ChildNext(s: State): State
    requires s.kidAt in {Running, Returned, Freeing}
  {
    match s.kidAt
    case Running => UseChild(s).(kidAt := Returned)
    case Returned => UseChild(s).(kidAt := if ChildFrees(s.kid) then Freeing else Exited)
    case Freeing => FreeChild(s, Child).(kidAt := Exited)
  }

  // ---- The parent's operations ----

  /** l_llthread_start, l_llthread_join, l_llthread_alive and l_llthread_delete, up to their checks. */
  function Begin(s: State, a: Action): State
    requires s.at == Idle && (a.Start? || a.Join? || a.Alive? || a.Delete?)
  {
    match a
    case Start(d, j) => if s.self.started then s else s.(at := Starting(0, d, j))
    case Join(wait) =>
      if !s.self.started || (s.self.detached && !s.self.joinable) || s.self.joined then s
      else s.(at := Joining(0, s.child, wait))
    case Alive =>
      if !s.self.started || (s.self.detached && !s.self.joinable) || s.self.joined then s
      else Assert(s, Valid(s) && s.created && s.joins + s.detaches == 0)
    case Delete => s.(at := Deleting(0))
  }

  function StartNext(s: State): State
    requires s.at.Starting? && s.at.step <= 6
  {
    var d, j := s.at.detached, s.at.joinable;
    match s.at.step
    case 0 =>
      var t := Assert(s, Valid(s));
      (if j then UseChild(t).(kid := t.kid.(joinable := true)) else t).(at := Starting(1, d, j))
    case 1 => (if d then UseChild(s).(kid := s.kid.(detached := true)) else s).(at := Starting(2, d, j))
    case 2 => UseChild(s).(created := true, kidAt := Running, at := Starting(3, d, j))
    case 3 => s.(self := s.self.(started := true), at := Starting(4, d, j))
    case 4 => (if j then s.(self := s.self.(joinable := true)) else s).(at := Starting(5, d, j))
    case 5 => (if d then s.(self := s.self.(detached := true)) else s).
      (at := if d && !j then Detaching(0, false) else Starting(6, d, j))
    case 6 => Assert(s, Valid(s)).(at := Idle)
  }

  function DetachNext(s: State): State
    requires s.at.Detaching? && s.at.step <= 2
  {
    match s.at.step
    case 0 => Assert(s, s.self.started && s.child).(child := false, at := Detaching(1, s.at.last))
    case 1 => (if s.self.joined then s else Release(s, false)).(at := Detaching(2, s.at.last))
    case 2 => if s.at.last then s.(at := Gone) else Assert(s, Valid(s)).(at := Idle)
  }

  /** pthread_join returns only when the child has exited. */
  predicate Blocked(s: State) {
    || (s.at.Joining? && s.at.step == 1 && s.kidAt != Exited)
    || (s.at.Deleting? && s.at.step == 2 && s.kidAt != Exited)
  }

  function JoinNext(s: State): State
    requires s.at.Joining? && s.at.step <= 7 && !Blocked(s)
  {
    var kid, wait := s.at.kid, s.at.wait;
    match s.at.step
    case 0 => Assert(s, Valid(s)).(at := Joining(1, kid, wait))
    case 1 => Release(s, true).(self := s.self.(joined := true), at := Joining(2, kid, wait))
    case 2 => Assert(s, Valid(s)).(at := Joining(3, kid, wait))
    case 3 => s.(at := if kid && s.self.joined && !(s.self.detached || !s.self.joinable) then Joining(4, kid, wait)
                      else Idle)
    case 4 => UseChild(s).(at := Joining(5, kid, wait))
    case 5 => UseChild(s).(at := Joining(6, kid, wait))
    case 6 => (if s.child then FreeChild(s, Parent) else s).(at := Joining(7, kid, wait))
    case 7 => s.(child := false, at := Idle)
  }

  function DeleteNext(s: State): State
    requires s.at.Deleting? && s.at.step <= 4 && !Blocked(s)
  {
    match s.at.step
    case 0 =>
      if !s.self.started then s.(at := Deleting(3))
      else if s.self.detached then s.(at := if s.self.joinable then Detaching(0, true) else Gone)
      else if !s.self.joined then s.(at := Deleting(1))
      else s.(at := if s.self.joinable then Deleting(3) else Gone)
    case 1 => Assert(s, Valid(s)).(at := Deleting(2))
    case 2 =>
      var t := Release(s, true).(self := s.self.(joined := true));
      Assert(t, Valid(t)).(at := if s.self.joinable then Deleting(3) else Gone)
    case 3 => (if s.child then FreeChild(s, Parent) else s).(at := Deleting(4))
    case 4 => s.(child := false, at := Gone)
  }

  // ---- Runs ----

  predicate Enabled(s: State, a: Action) {
    match a
    case ChildStep => s.kidAt in {Running, Returned, Freeing}
    case Probe(alive) =>
      s.at.Joining? && s.at.step == 1 && !s.at.wait && (!alive ==> s.kidAt == Exited)
    case ParentStep =>
      && !Blocked(s)
      && ((s.at.Starting? && s.at.step <= 6) || (s.at.Detaching? && s.at.step <= 2)
          || (s.at.Joining? && s.at.step <= 7 && (s.at.step == 1 ==> s.at.wait)) || (s.at.Deleting? && s.at.step <= 4))
    case _ => s.at == Idle
  }

  /** One step of one side. A join that may not wait asks first; the answer for a finished thread is open. */
  function Next(s: State, a: Action): State
    requires Enabled(s, a)
  {
    match a
    case ChildStep => ChildNext(s)
    case Probe(alive) => if alive then s.(at := Idle) else s.(at := Joining(1, s.at.kid, true))
    case ParentStep =>
      if s.at.Starting? then StartNext(s)
      else if s.at.Detaching? then DetachNext(s)
      else if s.at.Joining? then JoinNext(s)
      else DeleteNext(s)
    case _ => Begin(s, a)
  }

  /** The states along a run, one per action. */
  ghost predicate Run(states: seq<State>, actions: seq<Action>) {
    && |states| == |actions| + 1 && states[0] == INITIAL
    && forall i | 0 <= i < |actions| :: Enabled(states[i], actions[i]) && states[i + 1] == Next(states[i], actions[i])
  }

  // ---- The invariant ----

  /** The mode, once start has set it in both structures. */
  predicate Settled(s: State) {
    && s.self.started && s.created && s.kidAt != NotCreated
    && s.self.detached == s.kid.detached && s.self.joinable == s.kid.joinable
  }

  predicate Fresh(s: State) {
    && s.self == NONE && s.child && s.freed == [] && !s.created && s.kidAt == NotCreated && s.joins == 0
      && s.detaches == 0
  }

  /** Who has destroyed the child state, when the parent has not done it yet. */
  predicate KidPart(s: State) {
    match s.kidAt
    case NotCreated => false
    case Running => s.freed == []
    case Returned => s.freed == []
    case Freeing => s.freed == [] && ChildFrees(s.kid)
    case Exited => s.freed == if ChildFrees(s.kid) then [Child] else []
  }

  /** The parent has joined a child that leaves its state, and destroyed that state. */
  predicate Collected(s: State) {
    s.kidAt == Exited && !ChildFrees(s.kid) && s.freed == [Parent]
  }

  predicate InStart(s: State)
    requires s.at.Starting?
  {
    var d, j := s.at.detached, s.at.joinable;
    match s.at.step
    case 0 => Fresh(s) && s.kid == NONE
    case 1 => Fresh(s) && s.kid == NONE.(joinable := j)
    case 2 => Fresh(s) && s.kid == NONE.(joinable := j, detached := d)
    case _ =>
      && s.at.step <= 6 && s.kid == NONE.(joinable := j, detached := d)
      && s.created && KidPart(s) && s.child && s.joins == 0 && s.detaches == 0
      && s.self == Flags(s.at.step > 3, s.at.step > 5 && d, false, s.at.step > 4 && j)
      && (s.at.step == 6 ==> !(d && !j))
  }

  /** Between operations on a started thread. */
  predicate Rest(s: State) {
    && Settled(s)
    && (if s.kid.detached && !s.kid.joinable then
          !s.child && s.detaches == 1 && s.joins == 0 && !s.self.joined && KidPart(s)
        else
          && s.detaches == 0 && s.joins == (if s.self.joined then 1 else 0) && (s.self.joined ==> s.kidAt == Exited)
          && ((s.child && KidPart(s)) || (!s.child && Collected(s) && s.self.joined)))
  }

  predicate AtRest(s: State) {
    if s.self.started then Rest(s) else Fresh(s) && s.kid == NONE
  }

  predicate InDetach(s: State)
    requires s.at.Detaching?
  {
    && Settled(s) && s.kid.detached && s.at.last == s.kid.joinable && KidPart(s) && s.at.step <= 2
    && s.child == (s.at.step == 0) && (s.self.joined ==> s.at.last && s.kidAt == Exited)
    && s.joins == (if s.self.joined then 1 else 0)
    && s.detaches == if s.at.step == 2 && !s.self.joined then 1 else 0
  }

  predicate InJoin(s: State)
    requires s.at.Joining?
  {
    var n := s.at.step;
    && Settled(s) && !(s.kid.detached && !s.kid.joinable) && s.at.kid && s.child && n <= 7
    && s.self.joined == (n >= 2) && s.joins == (if n >= 2 then 1 else 0) && s.detaches == 0
    && (n >= 2 ==> s.kidAt == Exited) && (n >= 4 ==> !ChildFrees(s.kid))
    && if n == 7 then Collected(s) else KidPart(s)
  }

  predicate InDelete(s: State)
    requires s.at.Deleting?
  {
    match s.at.step
    case 0 => AtRest(s)
    case 1 => Rest(s) && !s.kid.detached && !s.self.joined
    case 2 => Rest(s) && !s.kid.detached && !s.self.joined
    case 3 => if s.self.started then Rest(s) && !ChildFrees(s.kid) && s.self.joined else Fresh(s)
    case 4 => Ended(s) && (s.self.started ==> !ChildFrees(s.kid))
    case _ => false
  }

  /** What is true once the object is gone. */
  predicate Ended(s: State) {
    if !s.self.started then !s.created && s.kidAt == NotCreated && s.freed == [Parent] && s.joins == 0
      && s.detaches == 0
    else
      && Settled(s) && s.joins + s.detaches == 1
      && (if ChildFrees(s.kid) then KidPart(s) else Collected(s))
      && (!s.kid.detached ==> s.joins == 1) && (s.kid.detached && !s.kid.joinable ==> s.detaches == 1)
      && (s.joins == 1 ==> s.kidAt == Exited)
  }

  predicate Inv(s: State) {
    && !s.fault
    && match s.at
       case Idle => AtRest(s)
       case Starting(_, _, _) => InStart(s)
       case Detaching(_, _) => InDetach(s)
       case Joining(_, _, _) => InJoin(s)
       case Deleting(_) => InDelete(s)
       case Gone => Ended(s)
  }

  /** The child's steps keep its own part, and touch nothing that the parent reads or writes. */
  lemma {:induction false} ChildPart(s: State)
    requires KidPart(s) && !s.fault && s.kidAt in {Running, Returned, Freeing}
    ensures var t := ChildNext(s);
            && KidPart(t) && !t.fault && t.kidAt in {Returned, Freeing, Exited}
            && t == s.(kidAt := t.kidAt, freed := t.freed)
  {
  }

  lemma {:induction false} ChildDuringStart(s: State)
    requires Inv(s) && s.at.Starting? && Enabled(s, ChildStep)
    ensures Inv(ChildNext(s))
  {
    ChildPart(s);
    hide KidPart, ChildNext;
  }

  lemma {:induction false} ChildDuringDetach(s: State)
    requires Inv(s) && s.at.Detaching? && Enabled(s, ChildStep)
    ensures Inv(ChildNext(s))
  {
    ChildPart(s);
    hide KidPart, ChildNext;
  }

  lemma {:induction false} ChildDuringRest(s: State)
    requires Inv(s) && !s.at.Starting? && !s.at.Detaching? && Enabled(s, ChildStep)
    ensures Inv(ChildNext(s))
  {
    ChildPart(s);
    hide KidPart, ChildNext;
  }

  lemma {:induction false} ChildKeeps(s: State)
    requires Inv(s) && Enabled(s, ChildStep)
    ensures Inv(Next(s, ChildStep))
  {
    hide Inv;
    if s.at.Starting? {
      ChildDuringStart(s);
    } else if s.at.Detaching? {
      ChildDuringDetach(s);
    } else {
      ChildDuringRest(s);
    }
  }

  lemma {:induction false} BeginKeeps(s: State, a: Action)
    requires Inv(s) && Enabled(s, a) && (a.Start? || a.Join? || a.Alive? || a.Delete?)
    ensures Inv(Next(s, a))
  {
  }

  lemma {:induction false} StartKeeps(s: State)
    requires Inv(s) && s.at.Starting? && Enabled(s, ParentStep)
    ensures Inv(Next(s, ParentStep))
  {
  }

  lemma {:induction false} DetachKeeps(s: State)
    requires Inv(s) && s.at.Detaching? && Enabled(s, ParentStep)
    ensures Inv(Next(s, ParentStep))
  {
  }

  lemma {:induction false} JoinKeeps(s: State)
    requires Inv(s) && s.at.Joining? && Enabled(s, ParentStep)
    ensures Inv(Next(s, ParentStep))
  {
  }

  lemma {:induction false} DeleteKeeps(s: State)
    requires Inv(s) && s.at.Deleting? && Enabled(s, ParentStep)
    ensures Inv(Next(s, ParentStep))
  {
  }

  lemma {:induction false} StepKeeps(s: State, a: Action)
    requires Inv(s) && Enabled(s, a)
    ensures Inv(Next(s, a))
  {
    match a
    case ChildStep => ChildKeeps(s);
    case Probe(_) =>
    case ParentStep =>
      if s.at.Starting? {
        StartKeeps(s);
      } else if s.at.Detaching? {
        DetachKeeps(s);
      } else if s.at.Joining? {
        JoinKeeps(s);
      } else {
        DeleteKeeps(s);
      }
    case _ => BeginKeeps(s, a);
  }

  lemma {:induction false} RunKeeps(states: seq<State>, actions: seq<Action>, i: nat)
    requires Run(states, actions) && i < |states|
    ensures Inv(states[i])
  {
    hide Inv, Next, Enabled;
    if i == 0 {
      InitialInv();
    } else {
      RunKeeps(states, actions, i - 1);
      assert Enabled(states[i - 1], actions[i - 1]) && states[i - 1 + 1] == Next(states[i - 1], actions[i - 1]);
      StepKeeps(states[i - 1], actions[i - 1]);
    }
  }

  lemma {:induction false} InitialInv()
    ensures Inv(INITIAL)
  {
  }

  /** The side that the table in the source names for a mode. */
  function Owner(kid: Flags): Side {
    if kid.joinable && !kid.detached then Parent else Child
  }

  /**
   * In every interleaving: no assertion fails, the child state is not used after its end, the OS thread is not
   * released twice, and the child state is destroyed at most once, after start only by the side that owns it.
   */
  lemma {:induction false} EveryRunIsSafe(states: seq<State>, actions: seq<Action>, i: nat)
    requires Run(states, actions) && i < |states|
    ensures var s := states[i];
            && !s.fault && |s.freed| <= 1 && s.joins + s.detaches <= 1
            && (s.created && s.freed != [] ==> s.freed == [Owner(s.kid)])
  {
    RunKeeps(states, actions, i);
  }

  /** When the object is gone and no child runs, the state was destroyed exactly once and the thread released
      exactly once. */
  lemma {:induction false} NothingLeaks(states: seq<State>, actions: seq<Action>, i: nat)
    requires Run(states, actions) && i < |states|
    requires states[i].at == Gone && states[i].kidAt in {NotCreated, Exited}
    ensures var s := states[i];
            && s.freed == [if s.created then Owner(s.kid) else Parent]
            && s.joins + s.detaches == (if s.created then 1 else 0)
            && (s.created && s.kid.detached && !s.kid.joinable ==> s.detaches == 1)
            && (s.created && !s.kid.detached ==> s.joins == 1)
  {
    RunKeeps(states, actions, i);
  }

  /** Some step is possible until the object is gone and the child has exited: nobody waits for ever. */
  lemma {:induction false} NoDeadlock(s: State)
    requires Inv(s) && !(s.at == Gone && s.kidAt in {NotCreated, Exited})
    ensures exists a :: Enabled(s, a)
  {
    if s.kidAt in {Running, Returned, Freeing} {
      assert Enabled(s, ChildStep);
    } else if s.at == Idle {
      assert Enabled(s, Delete);
    } else if s.at.Joining? && s.at.step == 1 && !s.at.wait {
      assert Enabled(s, Probe(true));
    } else {
      assert Enabled(s, ParentStep);
    }
  }
}
