/**
 * Runs of the cache in which something goes wrong. They show that each condition in `CacheProtocol` is
 * needed, and are built on the runs of the locks in `LockRuns`.
 *
 * A leased file is lost when the cache is reached indirectly, when the lock of the lease is moved aside,
 * and when a second lock name with a stale lock file protects the same path. A path is downloaded twice
 * when its lock is created in the window, and when two lock names protect it. The runs with two lock
 * names concern artifacts whose names collide (`ArtifactNames.OneFileTwoIds`), the others any artifact.
 * In every run the cache is empty at first, and nothing outside the cache damages a file.
 */
module CacheRuns {
  import opened CacheProtocol
  import opened Common
  import opened LockProtocol
  import opened LockRuns

  lemma {:induction false} CacheRunSnoc(c: Cache, actions: seq<Action>, end: Cache, a: Action)
    requires CacheRun(c, actions, end) && CanDo(end, a)
    ensures CacheRun(c, actions + [a], Do(end, a))
    ensures CalmRun(c, actions) && CalmlyDone(end, a) ==> CalmRun(c, actions + [a])
    decreases |actions|
  {
    var more := actions + [a];
    if actions == [] {
      assert more[1..] == [];
    } else {
      CacheRunSnoc(Do(c, actions[0]), actions[1..], end, a);
      assert more[1..] == actions[1..] + [a];
    }
  }

  lemma Then(actions: seq<Action>, c: Cache, a: Action, direct: bool) returns (more: seq<Action>, next: Cache)
    requires CacheRun(Empty(direct), actions, c) && CanDo(c, a)
    ensures more == actions + [a] && next == Do(c, a) && CacheRun(Empty(direct), more, next)
    ensures CalmRun(Empty(direct), actions) && CalmlyDone(c, a) ==> CalmRun(Empty(direct), more)
  {
    CacheRunSnoc(Empty(direct), actions, c, a);
    more, next := actions + [a], Do(c, a);
  }

  lemma IndirectCacheLosesLease(p: Path, name: LockName) returns (actions: seq<Action>, c: Cache)
    ensures CacheRun(Empty(false), actions, c) && CalmRun(Empty(false), actions)
    ensures OneLockPerPath(c) && CanDo(c, Evict(p))
    ensures 0 in c.validated && InsideWith(c, 0) && PathOf(c, 0) == p
  {
    actions, c := [], Empty(false);
    actions, c := Then(actions, c, LockStep(Join(0, 10, name, Some(p))), false);
    actions, c := Then(actions, c, LockStep(Create(0)), false);
    actions, c := Then(actions, c, PutCopy(p), false);
    actions, c := Then(actions, c, FindValid(0), false);
  }

  function Lifted(steps: seq<Step>): seq<Action> {
    seq(|steps|, i requires 0 <= i < |steps| => LockStep(steps[i]))
  }

  lemma {:induction false} LocksOnly(c: Cache, steps: seq<Step>, s: State)
    requires Run(c.locks, steps, s)
    ensures CacheRun(c, Lifted(steps), c.(locks := s))
    ensures Calm(c.locks, steps) ==> CalmRun(c, Lifted(steps))
    decreases |steps|
  {
    if steps != [] {
      assert Lifted(steps)[0] == LockStep(steps[0]) && Lifted(steps)[1..] == Lifted(steps[1..]);
      LocksOnly(Do(c, LockStep(steps[0])), steps[1..], s);
    }
  }

  lemma LocksOnlyIn(direct: bool, steps: seq<Step>, s: State) returns (actions: seq<Action>, c: Cache)
    requires Run(LockProtocol.INIT, steps, s)
    ensures CacheRun(Empty(direct), actions, c) && c == Empty(direct).(locks := s)
    ensures Calm(LockProtocol.INIT, steps) ==> CalmRun(Empty(direct), actions)
    ensures Undamaged(actions) && Unevicted(actions)
  {
    LocksOnly(Empty(direct), steps, s);
    actions, c := Lifted(steps), Empty(direct).(locks := s);
  }

  /** A live process leases the artifact; another still has its reading of the stale lock before. */
  lemma LeaseBesideStaleReading(p: Path, name: LockName) returns (actions: seq<Action>, c: Cache)
    ensures CacheRun(Empty(true), actions, c) && CalmRun(Empty(true), actions) && Undamaged(actions) && Unevicted(actions)
    ensures c.stored == map[p := true] && c.validated == {2} && c.direct
    ensures c.locks == LeaseAndStaleReading(name, p)
  {
    var steps, s := StaleCondemnation(name, Some(p));
    steps, s := Go(steps, s, Create(2));
    actions, c := LocksOnlyIn(true, steps, s);
    actions, c := Then(actions, c, PutCopy(p), true);
    actions, c := Then(actions, c, FindValid(2), true);
  }

  function LeaseAndStaleReading(name: LockName, p: Path): State {
    State({10}, map[name := Lock(2, 12, Some(p))], map[
      0 := Contender(10, name, Some(p), Inside),
      1 := Contender(11, name, Some(p), Condemned(0)),
      2 := Contender(12, name, Some(p), Inside)])
  }

  /** Nothing protects a leased file from damage by others than the cache. */
  lemma DamageLosesLease(p: Path, name: LockName) returns (actions: seq<Action>, c: Cache)
    ensures CacheRun(Empty(true), actions, c) && CalmRun(Empty(true), actions) && EvictsSettled(Empty(true), actions)
    ensures 2 in c.validated && InsideWith(c, 2) && PathOf(c, 2) == p && !Valid(c, p)
  {
    actions, c := LeaseBesideStaleReading(p, name);
    SettledWithoutEviction(Empty(true), actions);
    var a := Damage(p, Some(false));
    SettledWithoutEviction(Empty(true), actions + [a]);
    actions, c := Then(actions, c, a, true);
  }

  lemma {:induction false} SettledWithoutEviction(c: Cache, actions: seq<Action>)
    requires Unevicted(actions)
    ensures EvictsSettled(c, actions)
    decreases |actions|
  {
    if actions != [] && CanDo(c, actions[0]) { SettledWithoutEviction(Do(c, actions[0]), actions[1..]); }
  }

  /** A reclaimer moves the lock of a live lease aside, and a prune removes the leased file. */
  lemma MovedLockLosesLease(p: Path, name: LockName) returns (actions: seq<Action>, c: Cache)
    ensures CacheRun(Empty(true), actions, c) && CalmRun(Empty(true), actions)
    ensures OneLockPerPath(c) && Undamaged(actions)
    ensures 2 in c.validated && InsideWith(c, 2) && PathOf(c, 2) == p && p !in c.stored
  {
    actions, c := LeaseBesideStaleReading(p, name);
    actions, c := Then(actions, c, LockStep(Rename(1)), true);
    assert c.locks.files == map[];
    actions, c := Then(actions, c, Evict(p), true);
  }

  lemma BothMissUnderOneLock(p: Path, name: LockName) returns (actions: seq<Action>, c: Cache)
    ensures CacheRun(Empty(true), actions, c) && Undamaged(actions) && Unevicted(actions) && OneLockPerPath(c)
    ensures InsideWith(c, 2) && InsideWith(c, 3) && PathOf(c, 2) == PathOf(c, 3) == p
    ensures {2, 3} <= c.missed && c.validated == {} && c.downloads == multiset{}
  {
    var steps, s := TwoInside(name, Some(p));
    actions, c := LocksOnlyIn(true, steps, s);
    actions, c := Then(actions, c, FindMissing(2), true);
    actions, c := Then(actions, c, FindMissing(3), true);
  }

  /** When a lock is created in the window, one path can be downloaded twice under one lock name. */
  lemma OneLockTwoDownloads(p: Path, name: LockName) returns (actions: seq<Action>, c: Cache)
    ensures CacheRun(Empty(true), actions, c) && Undamaged(actions) && Unevicted(actions) && OneLockPerPath(c)
    ensures c.downloads[p] == 2
  {
    actions, c := BothMissUnderOneLock(p, name);
    actions, c := Then(actions, c, Download(2), true);
    actions, c := Then(actions, c, Download(3), true);
  }

  /** A dead holder's lock under `first`, and a live one under `second`, for one path. */
  ghost predicate TwoLocksOnePath(c: Cache, p: Path, first: LockName, second: LockName) {
    && 1 !in c.validated && InsideWith(c, 1) && PathOf(c, 1) == p
    && Protects(c.locks, first, p) && MayLookUnleased(c.locks, c.direct, p)
  }

  function DeadHolder(p: Path, name: LockName): Cache {
    Empty(true).(locks := State({10}, map[name := Lock(0, 10, Some(p))], map[0 := Contender(10, name, Some(p), Inside)]))
  }

  lemma HolderDies(p: Path, name: LockName) returns (actions: seq<Action>)
    ensures CacheRun(Empty(true), actions, DeadHolder(p, name)) && Undamaged(actions)
  {
    var c := Empty(true);
    actions := [];
    actions, c := Then(actions, c, LockStep(Join(0, 10, name, Some(p))), true);
    actions, c := Then(actions, c, LockStep(Create(0)), true);
    actions, c := Then(actions, c, LockStep(Die(10)), true);
    assert c == DeadHolder(p, name);
  }

  lemma StaleLockBesideLiveOne(p: Path, first: LockName, second: LockName) returns (actions: seq<Action>, c: Cache)
    requires first != second
    ensures CacheRun(Empty(true), actions, c) && TwoLocksOnePath(c, p, first, second) && Undamaged(actions)
  {
    actions := HolderDies(p, first);
    c := DeadHolder(p, first);
    actions, c := Then(actions, c, LockStep(Join(1, 11, second, Some(p))), true);
    actions, c := Then(actions, c, LockStep(Create(1)), true);
    assert Protects(c.locks, first, p);
  }

  /**
   * One lock name per path is needed too: when two lock names protect one path, a stale lock under the
   * first name hides the live lease under the second, and the leased file can be evicted.
   */
  lemma LeaseHiddenByStaleLock(p: Path, first: LockName, second: LockName) returns (actions: seq<Action>, c: Cache)
    requires first != second
    ensures CacheRun(Empty(true), actions, c)
    ensures 1 in c.validated && InsideWith(c, 1) && PathOf(c, 1) == p && p !in c.stored
    ensures Undamaged(actions)
  {
    actions, c := StaleLockBesideLiveOne(p, first, second);
    actions, c := Then(actions, c, PutCopy(p), true);
    actions, c := Then(actions, c, FindValid(1), true);
    actions, c := Then(actions, c, Evict(p), true);
  }

  lemma TwoInsideOnePath(p: Path, first: LockName, second: LockName) returns (actions: seq<Action>, c: Cache)
    requires first != second
    ensures CacheRun(Empty(true), actions, c) && Undamaged(actions) && Unevicted(actions)
    ensures InsideWith(c, 0) && InsideWith(c, 1) && PathOf(c, 0) == PathOf(c, 1) == p
    ensures c.stored == map[] && c.validated == c.missed == {} && c.downloads == multiset{}
  {
    actions, c := [], Empty(true);
    actions, c := Then(actions, c, LockStep(Join(0, 10, first, Some(p))), true);
    actions, c := Then(actions, c, LockStep(Create(0)), true);
    actions, c := Then(actions, c, LockStep(Join(1, 11, second, Some(p))), true);
    actions, c := Then(actions, c, LockStep(Create(1)), true);
  }

  /** ... and with two lock names one path can be downloaded twice. */
  lemma TwoLocksTwoDownloads(p: Path, first: LockName, second: LockName) returns (actions: seq<Action>, c: Cache)
    requires first != second
    ensures CacheRun(Empty(true), actions, c) && Undamaged(actions) && Unevicted(actions)
    ensures c.downloads[p] == 2
  {
    actions, c := TwoInsideOnePath(p, first, second);
    actions, c := Then(actions, c, FindMissing(0), true);
    actions, c := Then(actions, c, FindMissing(1), true);
    actions, c := Then(actions, c, Download(0), true);
    actions, c := Then(actions, c, Download(1), true);
  }
}
