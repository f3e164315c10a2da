/**
 * Runs of the lock protocol in which something goes wrong. They show that the conditions in
 * `LockProtocol` and `LockRelease` are about runs that exist.
 *
 * All of them start alike: a process dies inside its lock, two others find it dead, and one of the two
 * removes the lock file while the other still has its stale reading. Acquisition 0 is that of the dead
 * process 10; 1 and 2 are those of the reclaimers 11 and 12; later acquisitions are numbered on. Each run
 * is built step by step with `Go`, which also keeps track of whether the run is calm.
 */
module LockRuns {
  import opened Common
  import opened LockProtocol
  import opened LockRelease

  lemma {:induction false} RunSnoc(s: State, steps: seq<Step>, end: State, step: Step)
    requires Run(s, steps, end) && Enabled(end, step)
    ensures Run(s, steps + [step], Apply(end, step))
    ensures Calm(s, steps) && Allowed(end, step) ==> Calm(s, steps + [step])
    decreases |steps|
  {
    var more := steps + [step];
    if steps == [] {
      assert more[1..] == [];
    } else {
      RunSnoc(Apply(s, steps[0]), steps[1..], end, step);
      assert more[1..] == steps[1..] + [step];
    }
  }

  lemma Go(steps: seq<Step>, s: State, step: Step) returns (more: seq<Step>, next: State)
    requires Run(INIT, steps, s) && Enabled(s, step)
    ensures more == steps + [step] && next == Apply(s, step) && Run(INIT, more, next)
    ensures Calm(INIT, steps) && Allowed(s, step) ==> Calm(INIT, more)
  {
    RunSnoc(INIT, steps, s, step);
    more, next := steps + [step], Apply(s, step);
  }

  /** Two reclaimers have condemned the lock of a dead process; one of them has removed it. */
  function OneRemovedOneStale(name: LockName, path: Option<Path>): State {
    State({10}, map[], map[
      0 := Contender(10, name, path, Inside),
      1 := Contender(11, name, path, Condemned(0)),
      2 := Contender(12, name, path, Trying)])
  }

  lemma StaleCondemnation(name: LockName, path: Option<Path>) returns (steps: seq<Step>, s: State)
    ensures Run(INIT, steps, s) && Calm(INIT, steps)
    ensures s == OneRemovedOneStale(name, path)
  {
    steps, s := [], INIT;
    steps, s := Go(steps, s, Join(0, 10, name, path));
    steps, s := Go(steps, s, Create(0));
    steps, s := Go(steps, s, Join(1, 11, name, path));
    steps, s := Go(steps, s, Look(1));
    steps, s := Go(steps, s, Join(2, 12, name, path));
    steps, s := Go(steps, s, Look(2));
    steps, s := Go(steps, s, Die(10));
    steps, s := Go(steps, s, Judge(1));
    steps, s := Go(steps, s, Judge(2));
    steps, s := Go(steps, s, Rename(2));
    steps, s := Go(steps, s, Settle(2));
  }

  /** The other reclaimer, acting on its stale reading, has moved the lock of a live process aside. */
  lemma LiveLockMovedAside(name: LockName, path: Option<Path>) returns (steps: seq<Step>, s: State)
    ensures Run(INIT, steps, s) && Calm(INIT, steps)
    ensures s == OneRemovedOneStale(name, path).(contenders := map[
      0 := Contender(10, name, path, Inside),
      1 := Contender(11, name, path, Moved(0, Lock(2, 12, path))),
      2 := Contender(12, name, path, Inside)])
  {
    steps, s := StaleCondemnation(name, path);
    steps, s := Go(steps, s, Create(2));
    steps, s := Go(steps, s, Rename(1));
  }

  /** The window is real: a third process creates the lock in the meantime, and both are inside. */
  lemma TwoInside(name: LockName, path: Option<Path>) returns (steps: seq<Step>, s: State)
    ensures Run(INIT, steps, s) && Broken(s)
    ensures Holds(s, 2) && Holds(s, 3) && s.contenders[2].path == s.contenders[3].path == path
    ensures forall t :: t in s.contenders ==> s.contenders[t].name == name
  {
    steps, s := LiveLockMovedAside(name, path);
    steps, s := Go(steps, s, Join(3, 13, name, path));
    steps, s := Go(steps, s, Create(3));
    assert Holds(s, 2) && Holds(s, 3) && s.contenders[2].name == s.contenders[3].name;
  }

  /**
   * Two reclaimers have condemned one dead lock. The owner of the live lock that the second one moves
   * aside is already leaving: its unlink hits the lock of a third process, which is live and inside.
   */
  lemma ForeignRelease(name: LockName) returns (steps: seq<Step>, s: State)
    ensures Run(INIT, steps, s) && ReleasesForeign(s, 2)
    ensures Holds(s, 3) && s.contenders[2].name == name && s.files[name].token == 3
  {
    steps, s := StaleCondemnation(name, None);
    steps, s := Go(steps, s, Create(2));
    steps, s := Go(steps, s, ReadBack(2));
    steps, s := Go(steps, s, Rename(1));
    steps, s := Go(steps, s, Join(3, 13, name, None));
    steps, s := Go(steps, s, Create(3));
  }

  /**
   * It happens in a calm run: the lock of a live process is moved aside, the process releases it, the
   * reclaimer puts it back. The process now waits for its own lock (`LeftBehindBlocks`).
   */
  lemma SelfBlocked(name: LockName, path: Option<Path>) returns (steps: seq<Step>, s: State)
    ensures Run(INIT, steps, s) && Calm(INIT, steps)
    ensures LeftBehind(s, 2) && Outside(s, 2, 4) && s.contenders[4].pid == s.contenders[2].pid
    ensures s.contenders[4].phase.Trying? && Live(s, 4)
  {
    steps, s := LiveLockMovedAside(name, path);
    steps, s := Go(steps, s, ReadBack(2));
    steps, s := Go(steps, s, Settle(1));
    steps, s := Go(steps, s, Join(4, 12, name, path));
  }

  /** Three acquisitions of one lock by live processes; the third has been given up. */
  function WithWaiter(name: LockName, path: Option<Path>, files: map<LockName, Lock>, holder: Phase, waiter: Phase): State {
    State({}, files, map[
      0 := Contender(10, name, path, holder),
      1 := Contender(11, name, path, waiter),
      2 := Contender(12, name, path, Gone)])
  }

  lemma HeldByLive(name: LockName, path: Option<Path>) returns (steps: seq<Step>, s: State)
    ensures Run(INIT, steps, s) && Calm(INIT, steps)
    ensures s == WithWaiter(name, path, map[name := Lock(0, 10, path)], Inside, Saw(0, 10))
  {
    steps, s := [], INIT;
    steps, s := Go(steps, s, Join(0, 10, name, path));
    steps, s := Go(steps, s, Create(0));
    steps, s := Go(steps, s, Join(1, 11, name, path));
    steps, s := Go(steps, s, Join(2, 12, name, path));
    steps, s := Go(steps, s, Look(1));
    steps, s := Go(steps, s, GiveUp(2));
  }

  lemma JudgedAlive(steps: seq<Step>, s: State, name: LockName, path: Option<Path>) returns (more: seq<Step>, next: State)
    requires Run(INIT, steps, s) && Calm(INIT, steps)
    requires s == WithWaiter(name, path, map[name := Lock(0, 10, path)], Inside, Saw(0, 10))
    ensures Run(INIT, more, next) && Calm(INIT, more)
    ensures next == WithWaiter(name, path, map[name := Lock(0, 10, path)], Inside, Trying)
  {
    more, next := Go(steps, s, Judge(1));
  }

  lemma Released(steps: seq<Step>, s: State, name: LockName, path: Option<Path>) returns (more: seq<Step>, next: State)
    requires Run(INIT, steps, s) && Calm(INIT, steps)
    requires s == WithWaiter(name, path, map[name := Lock(0, 10, path)], Inside, Trying)
    ensures Run(INIT, more, next) && Calm(INIT, more)
    ensures next == WithWaiter(name, path, map[], Gone, Trying)
  {
    more, next := Go(steps, s, ReadBack(0));
    more, next := Go(more, next, Unlink(0));
  }

  lemma CreatedNext(steps: seq<Step>, s: State, name: LockName, path: Option<Path>) returns (more: seq<Step>, next: State)
    requires Run(INIT, steps, s) && Calm(INIT, steps)
    requires s == WithWaiter(name, path, map[], Gone, Trying)
    ensures Run(INIT, more, next) && Calm(INIT, more)
    ensures next == WithWaiter(name, path, map[name := Lock(1, 11, path)], Gone, Inside)
  {
    more, next := Go(steps, s, Create(1));
  }

  /**
   * Nothing goes wrong: a process that finds the lock held by a live one goes on waiting, a third gives
   * up, the holder releases, and the waiter gets in.
   */
  lemma WaiterGetsIn(name: LockName, path: Option<Path>) returns (steps: seq<Step>, s: State)
    ensures Run(INIT, steps, s) && Calm(INIT, steps)
    ensures s == WithWaiter(name, path, map[name := Lock(1, 11, path)], Gone, Inside)
  {
    steps, s := HeldByLive(name, path);
    steps, s := JudgedAlive(steps, s, name, path);
    steps, s := Released(steps, s, name, path);
    steps, s := CreatedNext(steps, s, name, path);
  }

  /** The other reclaimer's rename finds nothing if it comes before the next creation, and it starts over. */
  lemma StaleReadingFindsNothing(name: LockName, path: Option<Path>) returns (steps: seq<Step>, s: State)
    ensures Run(INIT, steps, s) && Calm(INIT, steps)
    ensures s == State({10}, map[name := Lock(1, 11, path)], map[
      0 := Contender(10, name, path, Inside),
      1 := Contender(11, name, path, Inside),
      2 := Contender(12, name, path, Trying)])
  {
    steps, s := StaleCondemnation(name, path);
    steps, s := Go(steps, s, Rename(1));
    assert s.contenders[1].phase == Trying;
    steps, s := Go(steps, s, Create(1));
  }
}
