// The re-entrant spin guard: a compare-and-swap on a shared owner, taken by any number of threads with
// any nesting. Steps of the threads interleave in any order; each step is atomic.
module Guards {

  /** A guard of a thread, from its construction to its destruction. */
  datatype Frame =
    | Fresh                        // constructed, not called yet
    | Trying                       // about to swap, expecting no owner
    | Failed(seen: nat)            // the swap failed and loaded the owner it saw
    | Sleeping                     // waits before it tries again
    | Running(calledUnsafe: bool)  // inside the operation
    | Ended(calledUnsafe: bool)    // the operation returned or threw

  /** The owner's id, 0 for none, and the guards of each thread, the innermost last. */
  datatype State = State(owner: nat, stacks: seq<seq<Frame>>)

  /** Thread t has the id t + 1. */
  function Id(t: nat): nat { t + 1 }

  datatype Action = Construct | Call | Swap | Compare | Wake | Finish | Destroy

  function Push(s: State, t: nat, f: Frame): State
    requires t < |s.stacks|
  {
    s.(stacks := s.stacks[t := s.stacks[t] + [f]])
  }

  function Pop(s: State, t: nat): State
    requires t < |s.stacks| && s.stacks[t] != []
  {
    s.(stacks := s.stacks[t := s.stacks[t][..|s.stacks[t]| - 1]])
  }

  function TopOf(s: State, t: nat): Frame
    requires t < |s.stacks| && s.stacks[t] != []
  {
    s.stacks[t][|s.stacks[t]| - 1]
  }

  function SetTop(s: State, t: nat, f: Frame): State
    requires t < |s.stacks| && s.stacks[t] != []
  {
    Push(Pop(s, t), t, f)
  }

  /** A thread makes a guard when it has none, or from inside the operation of another. */
  predicate Enabled(s: State, t: nat, a: Action) {
    t < |s.stacks| &&
    match a
    case Construct => s.stacks[t] == [] || TopOf(s, t).Running?
    case Call => s.stacks[t] != [] && TopOf(s, t).Fresh?
    case Swap => s.stacks[t] != [] && TopOf(s, t).Trying?
    case Compare => s.stacks[t] != [] && TopOf(s, t).Failed?
    case Wake => s.stacks[t] != [] && TopOf(s, t).Sleeping?
    case Finish => s.stacks[t] != [] && TopOf(s, t).Running?
    case Destroy => s.stacks[t] != [] && (TopOf(s, t).Ended? || TopOf(s, t).Fresh?)
  }

  function Step(s: State, t: nat, a: Action): State
    requires Enabled(s, t, a)
  {
    match a
    case Construct => Push(s, t, Fresh)
    case Call => SetTop(s, t, Trying)
    case Swap =>
      if s.owner == 0 then SetTop(s.(owner := Id(t)), t, Running(false)) else SetTop(s, t, Failed(s.owner))
    case Compare => SetTop(s, t, if TopOf(s, t).seen == Id(t) then Running(true) else Sleeping)
    case Wake => SetTop(s, t, Trying)
    case Finish => SetTop(s, t, Ended(TopOf(s, t).calledUnsafe))
    case Destroy =>
      if TopOf(s, t).Ended? && TopOf(s, t).calledUnsafe then Pop(s, t) else Pop(s.(owner := 0), t)
  }

  /** The one dangerous step: a guard that was never called is destroyed while somebody owns the lock. */
  predicate DropsOwned(s: State, t: nat, a: Action)
    requires Enabled(s, t, a)
  {
    a == Destroy && TopOf(s, t).Fresh? && s.owner != 0
  }

  datatype Move = Move(t: nat, a: Action)

  /** States, one more than there are moves, each made from the one before. */
  predicate IsRun(states: seq<State>, moves: seq<Move>) {
    && |states| == |moves| + 1
    && forall i | 0 <= i < |moves| ::
         Enabled(states[i], moves[i].t, moves[i].a) && states[i + 1] == Step(states[i], moves[i].t, moves[i].a)
  }

  predicate Initial(s: State) {
    s.owner == 0 && forall t | 0 <= t < |s.stacks| :: s.stacks[t] == []
  }

  predicate NoOwnedDrop(states: seq<State>, moves: seq<Move>)
    requires IsRun(states, moves)
  {
    forall i | 0 <= i < |moves| :: !DropsOwned(states[i], moves[i].t, moves[i].a)
  }

  // ---------------------------------------------------------------------------------------------
  // The invariant.

  /** A guard that took the lock and has not given it back. */
  predicate Holds(f: Frame) { (f.Running? || f.Ended?) && !f.calledUnsafe }

  /** The thread that owns the lock: its outermost guard holds it, every other guard runs unsafe, and
      the innermost one may be on its way in or out. */
  predicate OwnerStack(stack: seq<Frame>, id: nat) {
    && stack != [] && Holds(stack[0])
    && (forall i | 0 <= i < |stack| - 1 :: stack[i].Running?)
    && (forall i | 0 < i < |stack| ::
          match stack[i]
          case Fresh => true
          case Trying => true
          case Failed(seen) => seen == id
          case Sleeping => false
          case Running(u) => u
          case Ended(u) => u)
  }

  /** Any other thread: at most one guard, still on its way in. */
  predicate OtherStack(stack: seq<Frame>, id: nat) {
    stack != [] ==>
      && |stack| == 1
      && match stack[0]
         case Fresh => true
         case Trying => true
         case Failed(seen) => seen != id
         case Sleeping => true
         case _ => false
  }

  predicate StackFits(s: State, t: nat)
    requires t < |s.stacks|
  {
    if s.owner == Id(t) then OwnerStack(s.stacks[t], Id(t)) else OtherStack(s.stacks[t], Id(t))
  }

  predicate Inv(s: State) {
    && s.owner <= |s.stacks|
    && forall t | 0 <= t < |s.stacks| :: StackFits(s, t)
  }

  lemma OnlyOneStackChanges(s: State, t: nat, a: Action)
    requires Enabled(s, t, a)
    ensures |Step(s, t, a).stacks| == |s.stacks|
    ensures forall u | 0 <= u < |s.stacks| && u != t :: Step(s, t, a).stacks[u] == s.stacks[u]
  {
  }

  /** What a step makes of the owner and of its own thread's guards. */
  lemma StepAtThread(s: State, t: nat, a: Action)
    requires Inv(s) && Enabled(s, t, a) && !DropsOwned(s, t, a)
    ensures var next := Step(s, t, a);
            && StackFits(next, t)
            && (next.owner == s.owner || (s.owner == 0 && next.owner == Id(t)) || (s.owner == Id(t) && next.owner == 0))
  {
    assert StackFits(s, t);
    var stack, next := s.stacks[t], Step(s, t, a);
    if a == Construct {
      assert next.stacks[t] == stack + [Fresh];
    } else if a == Destroy {
      assert next.stacks[t] == stack[..|stack| - 1];
    } else {
      assert next.stacks[t] == stack[..|stack| - 1] + [TopOf(next, t)];
    }
  }

  /** A step keeps the invariant exactly when it does not drop an owned lock. */
  lemma StepKeepsInv(s: State, t: nat, a: Action)
    requires Inv(s) && Enabled(s, t, a)
    ensures Inv(Step(s, t, a)) <==> !DropsOwned(s, t, a)
  {
    OnlyOneStackChanges(s, t, a);
    var next := Step(s, t, a);
    if DropsOwned(s, t, a) {
      var u := s.owner - 1;
      assert StackFits(s, u);
      assert next.stacks[u] != [] && Holds(next.stacks[u][0]);
      assert !OtherStack(next.stacks[u], Id(u));
      assert next.owner == 0 && !StackFits(next, u);
    } else {
      StepAtThread(s, t, a);
      forall u | 0 <= u < |next.stacks| ensures StackFits(next, u) {
        assert StackFits(s, u);
      }
    }
  }

  lemma InitialInv(s: State)
    requires Initial(s)
    ensures Inv(s)
  {
  }

  lemma {:induction false} RunKeepsInv(states: seq<State>, moves: seq<Move>, n: nat)
    requires IsRun(states, moves) && Initial(states[0]) && NoOwnedDrop(states, moves)
    requires n < |states|
    ensures Inv(states[n])
    decreases n
  {
    if n == 0 {
      InitialInv(states[0]);
    } else {
      RunKeepsInv(states, moves, n - 1);
      StepKeepsInv(states[n - 1], moves[n - 1].t, moves[n - 1].a);
    }
  }

  // ---------------------------------------------------------------------------------------------
  // Safety over whole runs.

  predicate Inside(s: State, t: nat) {
    t < |s.stacks| && exists i | 0 <= i < |s.stacks[t]| :: s.stacks[t][i].Running?
  }

  predicate HasHolder(s: State, t: nat) {
    t < |s.stacks| && exists i | 0 <= i < |s.stacks[t]| :: Holds(s.stacks[t][i])
  }

  /** Whatever the interleaving and the nesting, at most one thread is inside guarded operations; the
      owner is the thread whose outermost guard holds the lock, and 0 exactly when there is none. */
  lemma MutualExclusion(states: seq<State>, moves: seq<Move>, n: nat)
    requires IsRun(states, moves) && Initial(states[0]) && NoOwnedDrop(states, moves)
    requires n < |states|
    ensures forall t, u | Inside(states[n], t) && Inside(states[n], u) :: t == u
    ensures forall t | 0 <= t < |states[n].stacks| :: HasHolder(states[n], t) <==> states[n].owner == Id(t)
    ensures states[n].owner == 0 <==> forall t | 0 <= t < |states[n].stacks| :: !HasHolder(states[n], t)
  {
    RunKeepsInv(states, moves, n);
    var s := states[n];
    forall t | 0 <= t < |s.stacks|
      ensures Inside(s, t) ==> s.owner == Id(t)
      ensures HasHolder(s, t) <==> s.owner == Id(t)
    {
      assert StackFits(s, t);
      if s.owner == Id(t) {
        assert Holds(s.stacks[t][0]);
      }
    }
    if s.owner != 0 {
      assert HasHolder(s, s.owner - 1);
    }
  }

  /** The owner changes in two kinds of step only: an outermost guard takes a free lock, or the
      outermost guard that holds it is destroyed. An inner guard never releases the outer one, and no
      other thread does. */
  lemma OwnerChanges(s: State, t: nat, a: Action)
    requires Inv(s) && Enabled(s, t, a) && !DropsOwned(s, t, a)
    ensures s.owner == 0 && Step(s, t, a).owner != 0 <==> a == Swap && s.owner == 0
    ensures Step(s, t, a).owner != s.owner ==>
              |s.stacks[t]| == 1 && (s.owner == 0 || (s.owner == Id(t) && a == Destroy))
    ensures s.owner == Id(t) && a == Destroy && |s.stacks[t]| == 1 ==> Step(s, t, a).owner == 0
  {
    assert StackFits(s, t);
  }

  /** A guard made by the thread that owns the lock never waits: called, it swaps once, fails, finds
      its own id and runs, whatever the other threads do in between. */
  lemma InnerGuardNeverWaits(s: State, t: nat, u: nat, a: Action)
    requires Inv(s) && Enabled(s, u, a) && !DropsOwned(s, u, a) && s.owner == Id(t)
    ensures u != t ==> Step(s, u, a).owner == s.owner && Step(s, u, a).stacks[t] == s.stacks[t]
    ensures u == t && a == Swap ==> TopOf(Step(s, u, a), t) == Failed(Id(t))
    ensures u == t && a == Compare ==> TopOf(Step(s, u, a), t) == Running(true)
    ensures u == t ==> a != Wake
  {
    OnlyOneStackChanges(s, u, a);
    assert StackFits(s, t) && StackFits(s, u);
  }

  /** A guard of a thread without any, the lock being free: called, it swaps once and runs as the owner; ended and
      destroyed, it leaves everything as it was. */
  lemma FreeGuardRuns(s: State, t: nat)
    requires t < |s.stacks| && s.stacks[t] == [] && s.owner == 0
    ensures Enabled(s, t, Construct) && Enabled(Step(s, t, Construct), t, Call)
    ensures var called := Step(Step(s, t, Construct), t, Call);
            && Enabled(called, t, Swap)
            && Step(called, t, Swap) == State(t + 1, s.stacks[t := [Running(false)]])
    ensures var running := State(t + 1, s.stacks[t := [Running(false)]]);
            && Enabled(running, t, Finish) && Enabled(Step(running, t, Finish), t, Destroy)
            && Step(Step(running, t, Finish), t, Destroy) == s
  {
    assert s.stacks[t := []] == s.stacks;
    assert [] + [Fresh] == [Fresh] && [] + [Trying] == [Trying];
    assert [] + [Running(false)] == [Running(false)] && [] + [Ended(false)] == [Ended(false)];
  }

  /** While another thread owns the lock, it goes to sleep, and wakes to try again. */
  lemma ContendedGuardSleeps(s: State, t: nat)
    requires t < |s.stacks| && s.stacks[t] == [] && s.owner != 0 && s.owner != t + 1
    ensures Enabled(s, t, Construct) && Enabled(Step(s, t, Construct), t, Call)
    ensures var called := Step(Step(s, t, Construct), t, Call);
            && Enabled(called, t, Swap) && Enabled(Step(called, t, Swap), t, Compare)
            && Step(Step(called, t, Swap), t, Compare) == State(s.owner, s.stacks[t := [Sleeping]])
            && Enabled(Step(Step(called, t, Swap), t, Compare), t, Wake)
            && Step(Step(Step(called, t, Swap), t, Compare), t, Wake) == called
  {
    assert [] + [Fresh] == [Fresh] && [] + [Trying] == [Trying] && [] + [Sleeping] == [Sleeping];
    assert [] + [Failed(s.owner)] == [Failed(s.owner)];
  }

  /** A guard made inside the operation of the owner's innermost one: called, it runs without taking the lock; ended
      and destroyed, it leaves the lock to its owner and everything as it was. */
  lemma NestedGuardRuns(s: State, t: nat)
    requires t < |s.stacks| && s.stacks[t] != [] && TopOf(s, t).Running? && s.owner == t + 1
    ensures Enabled(s, t, Construct) && Enabled(Step(s, t, Construct), t, Call)
    ensures var called := Step(Step(s, t, Construct), t, Call);
            && Enabled(called, t, Swap) && Enabled(Step(called, t, Swap), t, Compare)
            && Step(Step(called, t, Swap), t, Compare) == State(t + 1, s.stacks[t := s.stacks[t] + [Running(true)]])
    ensures var running := State(t + 1, s.stacks[t := s.stacks[t] + [Running(true)]]);
            && Enabled(running, t, Finish) && Enabled(Step(running, t, Finish), t, Destroy)
            && Step(Step(running, t, Finish), t, Destroy) == s
  {
    var stack := s.stacks[t];
    assert s.stacks[t := stack] == s.stacks;
    forall f: Frame ensures (stack + [f])[..|stack|] == stack {
    }
  }

  // ---------------------------------------------------------------------------------------------
  // No deadlock: from every state there is a way to the end of all guards.

  /** How far a guard is from its end, when its thread can go on. */
  function Weight(f: Frame, id: nat): nat {
    match f
    case Fresh => 8
    case Trying => 5
    case Failed(seen) => if seen == id then 3 else 7
    case Sleeping => 6
    case Running(_) => 2
    case Ended(_) => 1
  }

  function StackWeight(stack: seq<Frame>, id: nat): nat {
    if stack == [] then 0 else StackWeight(stack[..|stack| - 1], id) + Weight(stack[|stack| - 1], id)
  }

  function TotalWeight(stacks: seq<seq<Frame>>): nat {
    if stacks == [] then 0
    else TotalWeight(stacks[..|stacks| - 1]) + StackWeight(stacks[|stacks| - 1], |stacks|)
  }

  lemma {:induction false} LighterStack(before: seq<seq<Frame>>, after: seq<seq<Frame>>, t: nat)
    requires |before| == |after| && t < |before|
    requires forall u | 0 <= u < |before| && u != t :: after[u] == before[u]
    ensures TotalWeight(after) - TotalWeight(before) == StackWeight(after[t], Id(t)) - StackWeight(before[t], Id(t))
    decreases |before|
  {
    var n := |before| - 1;
    if t == n {
      assert before[..n] == after[..n];
    } else {
      LighterStack(before[..n], after[..n], t);
    }
  }

  predicate Done(s: State) { forall t | 0 <= t < |s.stacks| :: s.stacks[t] == [] }

  /** The next move towards the end: the owner's if there is one, else that of any thread with a guard. */
  function NextAction(f: Frame): Action {
    match f
    case Fresh => Call
    case Trying => Swap
    case Failed(_) => Compare
    case Sleeping => Wake
    case Running(_) => Finish
    case Ended(_) => Destroy
  }

  /** The move ends the innermost guard or brings it nearer to its end. */
  lemma TopGetsLighter(s: State, t: nat)
    requires Inv(s) && t < |s.stacks| && s.stacks[t] != [] && (s.owner == 0 || s.owner == Id(t))
    ensures var a := NextAction(TopOf(s, t));
            && Enabled(s, t, a) && !DropsOwned(s, t, a)
            && Step(s, t, a).stacks[t] ==
               Pop(s, t).stacks[t] + (if a == Destroy then [] else [TopOf(Step(s, t, a), t)])
            && (a != Destroy ==> Weight(TopOf(Step(s, t, a), t), Id(t)) < Weight(TopOf(s, t), Id(t)))
  {
    assert StackFits(s, t);
  }

  lemma WeightOfPush(below: seq<Frame>, f: Frame, id: nat)
    ensures StackWeight(below + [f], id) == StackWeight(below, id) + Weight(f, id)
  {
    assert (below + [f])[..|below|] == below;
  }

  lemma NextMoveIsLighter(s: State, t: nat)
    requires Inv(s) && t < |s.stacks| && s.stacks[t] != [] && (s.owner == 0 || s.owner == Id(t))
    ensures var a := NextAction(TopOf(s, t));
            && Enabled(s, t, a) && !DropsOwned(s, t, a)
            && TotalWeight(Step(s, t, a).stacks) < TotalWeight(s.stacks)
  {
    var a := NextAction(TopOf(s, t));
    TopGetsLighter(s, t);
    var next, below := Step(s, t, a), Pop(s, t).stacks[t];
    OnlyOneStackChanges(s, t, a);
    LighterStack(s.stacks, next.stacks, t);
    assert s.stacks[t] == below + [TopOf(s, t)];
    WeightOfPush(below, TopOf(s, t), Id(t));
    if a == Destroy {
      assert below + [] == below;
    } else {
      WeightOfPush(below, TopOf(next, t), Id(t));
    }
  }

  lemma {:induction false} CanAlwaysFinish(s: State) returns (states: seq<State>, moves: seq<Move>)
    requires Inv(s)
    ensures IsRun(states, moves) && NoOwnedDrop(states, moves)
    ensures states[0] == s && Done(states[|states| - 1]) && states[|states| - 1].owner == 0
    decreases TotalWeight(s.stacks)
  {
    assert s.owner != 0 ==> StackFits(s, s.owner - 1);
    if Done(s) {
      states, moves := [s], [];
    } else {
      var t :| 0 <= t < |s.stacks| && s.stacks[t] != [];
      if s.owner != 0 {
        t := s.owner - 1;
      }
      NextMoveIsLighter(s, t);
      var a := NextAction(TopOf(s, t));
      StepKeepsInv(s, t, a);
      states, moves := CanAlwaysFinish(Step(s, t, a));
      states, moves := Prepend(s, Move(t, a), states, moves);
    }
  }

  lemma Prepend(s: State, m: Move, states: seq<State>, moves: seq<Move>) returns (states': seq<State>, moves': seq<Move>)
    requires IsRun(states, moves) && NoOwnedDrop(states, moves)
    requires Enabled(s, m.t, m.a) && !DropsOwned(s, m.t, m.a) && states[0] == Step(s, m.t, m.a)
    ensures states' == [s] + states && moves' == [m] + moves
    ensures IsRun(states', moves') && NoOwnedDrop(states', moves')
  {
    states', moves' := [s] + states, [m] + moves;
    forall i | 0 <= i < |moves'|
      ensures Enabled(states'[i], moves'[i].t, moves'[i].a)
      ensures states'[i + 1] == Step(states'[i], moves'[i].t, moves'[i].a)
      ensures !DropsOwned(states'[i], moves'[i].t, moves'[i].a)
    {
      if i > 0 {
        assert states'[i] == states[i - 1] && moves'[i] == moves[i - 1] && states'[i + 1] == states[i];
      }
    }
  }
}
