/**
 * The lock protocol with reclaiming as one step: rename, comparison and restoring happen without
 * another process in between. Then every run is safe, with no condition on creations.
 */
module AtomicReclaim {
  import opened LockProtocol

  datatype AtomicStep = Plain(step: Step) | Reclaim(token: Token)

  predicate AtomicEnabled(s: State, a: AtomicStep) {
    match a
    case Plain(step) => !step.Rename? && !step.Settle? && Enabled(s, step)
    case Reclaim(t) => Enabled(s, Rename(t))
  }

  function ApplyAtomic(s: State, a: AtomicStep): State
    requires AtomicEnabled(s, a)
  {
    match a
    case Plain(step) => Apply(s, step)
    case Reclaim(t) =>
      var moved := Apply(s, Rename(t));
      if moved.contenders[t].phase.Moved? then Apply(moved, Settle(t)) else moved
  }

  ghost predicate AtomicRun(s: State, actions: seq<AtomicStep>, end: State)
    decreases |actions|
  {
    if actions == [] then s == end
    else AtomicEnabled(s, actions[0]) && AtomicRun(ApplyAtomic(s, actions[0]), actions[1..], end)
  }

  ghost predicate NoneMoved(s: State) {
    forall t :: t in s.contenders ==> !s.contenders[t].phase.Moved?
  }

  /** The steps that an atomic step stands for. */
  function Expanded(s: State, a: AtomicStep): seq<Step>
    requires AtomicEnabled(s, a)
  {
    match a
    case Plain(step) => [step]
    case Reclaim(t) => if Apply(s, Rename(t)).contenders[t].phase.Moved? then [Rename(t), Settle(t)] else [Rename(t)]
  }

  lemma AtomicStepMovesNone(s: State, a: AtomicStep)
    requires NoneMoved(s) && AtomicEnabled(s, a)
    ensures NoneMoved(ApplyAtomic(s, a))
  {
  }

  lemma CalmCons(s: State, step: Step, rest: seq<Step>, end: State)
    requires Enabled(s, step) && Run(Apply(s, step), rest, end) && Calm(Apply(s, step), rest)
    requires step.Create? ==> NoneMoved(s)
    ensures Run(s, [step] + rest, end) && Calm(s, [step] + rest)
  {
    var steps := [step] + rest;
    assert steps[1..] == rest;
  }

  lemma ExpandedIsCalm(s: State, a: AtomicStep, rest: seq<Step>, end: State)
    requires NoneMoved(s) && AtomicEnabled(s, a)
    requires Run(ApplyAtomic(s, a), rest, end) && Calm(ApplyAtomic(s, a), rest)
    ensures Run(s, Expanded(s, a) + rest, end) && Calm(s, Expanded(s, a) + rest)
  {
    if |Expanded(s, a)| == 2 {
      CalmCons(Apply(s, Rename(a.token)), Settle(a.token), rest, end);
      CalmCons(s, Rename(a.token), [Settle(a.token)] + rest, end);
      assert Expanded(s, a) + rest == [Rename(a.token)] + ([Settle(a.token)] + rest);
    } else {
      CalmCons(s, Expanded(s, a)[0], rest, end);
    }
  }

  /** An atomic run is a run in which no lock is ever created in the window, and none is left moved. */
  lemma {:induction false} AtomicRunsAreCalm(s: State, actions: seq<AtomicStep>, end: State) returns (steps: seq<Step>)
    requires NoneMoved(s) && AtomicRun(s, actions, end)
    ensures Run(s, steps, end) && Calm(s, steps) && NoneMoved(end)
    decreases |actions|
  {
    if actions == [] {
      steps := [];
    } else {
      var next := ApplyAtomic(s, actions[0]);
      AtomicStepMovesNone(s, actions[0]);
      var rest := AtomicRunsAreCalm(next, actions[1..], end);
      ExpandedIsCalm(s, actions[0], rest, end);
      steps := Expanded(s, actions[0]) + rest;
    }
  }

  /**
   * With rename, comparison and restore as one step, every run is safe: at most one live process is
   * inside each lock, and the token of each is the token in the lock file.
   */
  lemma AtomicRunsAreSafe(actions: seq<AtomicStep>, end: State)
    requires AtomicRun(INIT, actions, end)
    ensures MutualExclusion(end)
    ensures forall t :: Claims(end, t) ==> OnFile(end, t)
  {
    var steps := AtomicRunsAreCalm(INIT, actions, end);
    InitInv();
    CalmRunKeepsInv(INIT, steps, end);
    InvIsSafe(end);
    forall t | Claims(end, t) ensures OnFile(end, t) { assert Protected(end, t); }
  }
}
