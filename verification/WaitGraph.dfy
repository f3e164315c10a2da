/**
 * Who waits for whom over the artifact locks and the global cache lock. A process runs one task at a
 * time, a list of acquisitions and releases, the latter always of the lock taken last; it may stop
 * anywhere and unwind, and processes may die.
 */
module WaitGraph {
  import opened Common
  import opened Ordering
  import opened ArtifactNames

  type Pid = nat

  datatype Resource = ArtifactLock(name: string) | GlobalLock

  datatype Op = Acquire(r: Resource) | Drop

  datatype FetchOutcome = Cached | FoundUnderLock | Downloaded

  /** Leasing a dependency set, fetching one, or putting into, clearing or opening the cache. */
  datatype Task =
    | Lease(dependencies: map<string, ArtifactKey>)
    | Fetch(items: seq<(ArtifactKey, FetchOutcome)>)
    | GlobalOnly

  // Programs --------------------------------------------------------------------------------------

  function LockOf(k: ArtifactKey): Resource {
    ArtifactLock(LockFileName(k))
  }

  function Drops(n: nat): seq<Op> {
    if n == 0 then [] else [Drop] + Drops(n - 1)
  }

  /** Take all, keep them for the whole build, release all. */
  function HoldAll(resources: seq<Resource>, taken: nat): seq<Op> {
    if resources == [] then Drops(taken) else [Acquire(resources[0])] + HoldAll(resources[1..], taken + 1)
  }

  /** The lock files of a dependency set, in the order of the sorted ids. */
  function LeaseOrder(dependencies: map<string, ArtifactKey>): seq<Resource> {
    var ids := SortedList(dependencies.Keys);
    seq(|ids|, i requires 0 <= i < |ids| => assert ids[i] in ids; LockOf(dependencies[ids[i]]))
  }

  function FetchAll(items: seq<(ArtifactKey, FetchOutcome)>): seq<Op> {
    if items == [] then []
    else match items[0].1
      case Cached => FetchAll(items[1..])
      case FoundUnderLock => [Acquire(LockOf(items[0].0)), Drop] + FetchAll(items[1..])
      case Downloaded => [Acquire(LockOf(items[0].0)), Acquire(GlobalLock), Drop, Drop] + FetchAll(items[1..])
  }

  function Program(task: Task): seq<Op> {
    match task
    case Lease(dependencies) => HoldAll(LeaseOrder(dependencies), 0)
    case Fetch(items) => FetchAll(items)
    case GlobalOnly => [Acquire(GlobalLock), Drop]
  }

  lemma {:induction false} DropsOnly(n: nat)
    ensures |Drops(n)| == n && forall i :: 0 <= i < n ==> Drops(n)[i] == Drop
  {
    if n > 0 { DropsOnly(n - 1); }
  }

  /** All locks are acquired, in this order, before the first release; then as many are released. */
  lemma {:induction false} HoldAllExactly(resources: seq<Resource>, taken: nat)
    ensures var ops := HoldAll(resources, taken);
      && |ops| == 2 * |resources| + taken
      && (forall i :: 0 <= i < |resources| ==> ops[i] == Acquire(resources[i]))
      && forall i :: |resources| <= i < |ops| ==> ops[i] == Drop
  {
    if resources == [] {
      DropsOnly(taken);
    } else {
      HoldAllExactly(resources[1..], taken + 1);
    }
  }

  /** What a lease does: the lock of every dependency, by increasing id, then all the releases. */
  lemma LeaseTakesEveryLock(dependencies: map<string, ArtifactKey>, ids: seq<string>)
    requires Increasing(ids) && forall id :: id in ids <==> id in dependencies
    ensures var ops := Program(Lease(dependencies));
      && |ops| == 2 * |ids|
      && (forall i :: 0 <= i < |ids| ==> ops[i] == Acquire(ArtifactLock(LockFileName(dependencies[ids[i]]))))
      && forall i :: |ids| <= i < |ops| ==> ops[i] == Drop
  {
    SameMembersSameList(ids, SortedList(dependencies.Keys));
    HoldAllExactly(LeaseOrder(dependencies), 0);
  }

  /**
   * What a fetch does for one item after the other: nothing for a cached one; else its own lock is taken
   * and released, around the global one if the artifact is downloaded.
   */
  lemma FetchTakesLocksInTurn(key: ArtifactKey, rest: seq<(ArtifactKey, FetchOutcome)>)
    ensures Program(Fetch([])) == []
    ensures Program(Fetch([(key, Cached)] + rest)) == Program(Fetch(rest))
    ensures Program(Fetch([(key, FoundUnderLock)] + rest))
         == [Acquire(ArtifactLock(LockFileName(key))), Drop] + Program(Fetch(rest))
    ensures Program(Fetch([(key, Downloaded)] + rest))
         == [Acquire(ArtifactLock(LockFileName(key))), Acquire(GlobalLock), Drop, Drop] + Program(Fetch(rest))
    ensures Program(GlobalOnly) == [Acquire(GlobalLock), Drop]
  {
    assert ([(key, Cached)] + rest)[1..] == rest && ([(key, FoundUnderLock)] + rest)[1..] == rest;
    assert ([(key, Downloaded)] + rest)[1..] == rest;
  }

  /** A leased set maps each id to its artifact, and ids follow the catalog schema. */
  ghost predicate FromCatalog(task: Task) {
    task.Lease? ==> forall id :: id in task.dependencies ==> SchemaId(id) && task.dependencies[id].id == id
  }

  // The machine -----------------------------------------------------------------------------------

  datatype Process = Process(alive: bool, held: seq<Resource>, ops: seq<Op>)

  datatype State = State(processes: map<Pid, Process>, owners: map<Resource, Pid>)

  datatype Step =
    | Start(p: Pid, task: Task)
    | Advance(p: Pid)
    | LeaveBehind(p: Pid)         // a release that finds its lock moved aside; it is put back afterwards
    | Stop(p: Pid)
    | Die(p: Pid)
    | Reclaim(r: Resource)

  const INIT := State(map[], map[])

  function Proc(s: State, p: Pid): Process {
    if p in s.processes then s.processes[p] else Process(true, [], [])
  }

  predicate Enabled(s: State, step: Step) {
    match step
    case Start(p, task) => Proc(s, p).alive && Proc(s, p).held == [] && Proc(s, p).ops == []
    case Advance(p) =>
      var proc := Proc(s, p);
      && proc.alive && proc.ops != []
      && (match proc.ops[0] case Acquire(r) => r !in s.owners case Drop => proc.held != [])
    case LeaveBehind(p) => Proc(s, p).alive && Proc(s, p).ops != [] && Proc(s, p).ops[0].Drop? && Proc(s, p).held != []
    case Stop(p) => Proc(s, p).alive
    case Die(p) => true
    case Reclaim(r) => r in s.owners && !Proc(s, s.owners[r]).alive
  }

  function Apply(s: State, step: Step): State
    requires Enabled(s, step)
  {
    match step
    case Start(p, task) => s.(processes := s.processes[p := Process(true, [], Program(task))])
    case Advance(p) =>
      var Process(_, held, ops) := Proc(s, p);
      (match ops[0]
       case Acquire(r) => State(s.processes[p := Process(true, held + [r], ops[1..])], s.owners[r := p])
       case Drop =>
         var top := |held| - 1;
         State(s.processes[p := Process(true, held[..top], ops[1..])], s.owners - {held[top]}))
    case LeaveBehind(p) =>
      var Process(_, held, ops) := Proc(s, p);
      s.(processes := s.processes[p := Process(true, held[..|held| - 1], ops[1..])])
    case Stop(p) => s.(processes := s.processes[p := Proc(s, p).(ops := Drops(|Proc(s, p).held|))])
    case Die(p) => s.(processes := s.processes[p := Proc(s, p).(alive := false)])
    case Reclaim(r) => s.(owners := s.owners - {r})
  }

  ghost predicate Run(s: State, steps: seq<Step>, end: State)
    decreases |steps|
  {
    if steps == [] then s == end
    else
      && Enabled(s, steps[0])
      && (steps[0].Start? ==> FromCatalog(steps[0].task))
      && Run(Apply(s, steps[0]), steps[1..], end)
  }

  // Waiting ---------------------------------------------------------------------------------------

  ghost predicate Wants(s: State, p: Pid, r: Resource) {
    Proc(s, p).alive && Proc(s, p).ops != [] && Proc(s, p).ops[0] == Acquire(r)
  }

  /** `p` cannot go on because `q`, which may be `p` itself, has the lock it needs next. */
  ghost predicate WaitsFor(s: State, p: Pid, q: Pid) {
    exists r :: Wants(s, p, r) && r in s.owners && s.owners[r] == q
  }

  /** The owner of this lock lives and has released it, but the lock file is still there. */
  predicate LeftBehind(s: State, r: Resource) {
    r in s.owners && Proc(s, s.owners[r]).alive && r !in Proc(s, s.owners[r]).held
  }

  /** `p` waits for `q` on such a lock. */
  ghost predicate WaitsForLeftover(s: State, p: Pid, q: Pid) {
    exists r :: Wants(s, p, r) && r in s.owners && s.owners[r] == q && LeftBehind(s, r)
  }

  ghost predicate WaitChain(s: State, chain: seq<Pid>) {
    |chain| >= 2 && forall i :: 0 <= i < |chain| - 1 ==> WaitsFor(s, chain[i], chain[i + 1])
  }

  // The order on locks ----------------------------------------------------------------------------

  function UpTo(s: string, stop: char): string {
    if s == "" || s[0] == stop then "" else [s[0]] + UpTo(s[1..], stop)
  }

  /** The dependency id that a lock file name starts with. */
  function IdOf(name: string): string {
    if |name| < 6 then "" else UpTo(name[6..], '.')
  }

  lemma {:induction false} UpToFirst(x: string, rest: string, stop: char)
    requires stop !in x
    ensures UpTo(x + [stop] + rest, stop) == x
  {
    var s := x + [stop] + rest;
    if x != "" {
      assert s[1..] == x[1..] + [stop] + rest;
      UpToFirst(x[1..], rest, stop);
    }
  }

  lemma IdOfLockFile(k: ArtifactKey)
    requires SchemaId(k.id)
    ensures IdOf(LockFileName(k)) == k.id
  {
    SchemaIdIsClean(k.id);
    var tail := Sanitize(k.version) + "." + VariantText(k.variant);
    assert LockFileName(k)[6..] == k.id + "." + tail;
    UpToFirst(k.id, tail, '.');
  }

  predicate Less(a: Resource, b: Resource) {
    match (a, b)
    case (ArtifactLock(x), ArtifactLock(y)) => Before(IdOf(x), IdOf(y))
    case (ArtifactLock(_), GlobalLock) => true
    case (GlobalLock, _) => false
  }

  lemma LessTransitive(a: Resource, b: Resource, c: Resource)
    requires Less(a, b) && Less(b, c)
    ensures Less(a, c)
  {
    if a.ArtifactLock? && b.ArtifactLock? && c.ArtifactLock? {
      BeforeTransitive(IdOf(a.name), IdOf(b.name), IdOf(c.name));
    }
  }

  /** Every acquisition still to come asks for a lock above all that are held by then. */
  ghost predicate Ascending(held: seq<Resource>, ops: seq<Op>)
    decreases |ops|
  {
    if ops == [] then true
    else match ops[0]
      case Acquire(r) => (forall h :: h in held ==> Less(h, r)) && Ascending(held + [r], ops[1..])
      case Drop => held != [] && Ascending(held[..|held| - 1], ops[1..])
  }

  lemma {:induction false} DropsAscend(held: seq<Resource>)
    ensures Ascending(held, Drops(|held|))
  {
    if held != [] {
      assert Drops(|held|)[1..] == Drops(|held| - 1);
      DropsAscend(held[..|held| - 1]);
    }
  }

  lemma {:induction false} HoldAllAscends(held: seq<Resource>, resources: seq<Resource>)
    requires forall i, j :: 0 <= i < j < |held + resources| ==> Less((held + resources)[i], (held + resources)[j])
    ensures Ascending(held, HoldAll(resources, |held|))
    decreases |resources|
  {
    var all := held + resources;
    if resources == [] {
      DropsAscend(held);
    } else {
      forall h | h in held ensures Less(h, resources[0]) {
        var i :| 0 <= i < |held| && held[i] == h;
        assert all[i] == h && all[|held|] == resources[0];
      }
      assert (held + [resources[0]]) + resources[1..] == all;
      HoldAllAscends(held + [resources[0]], resources[1..]);
      var ops := HoldAll(resources, |held|);
      assert ops[1..] == HoldAll(resources[1..], |held| + 1);
    }
  }

  lemma AcquireAscends(held: seq<Resource>, r: Resource, rest: seq<Op>)
    requires forall h :: h in held ==> Less(h, r)
    requires Ascending(held + [r], rest)
    ensures Ascending(held, [Acquire(r)] + rest)
  {
    assert ([Acquire(r)] + rest)[1..] == rest;
  }

  lemma DropAscends(held: seq<Resource>, top: Resource, rest: seq<Op>)
    requires Ascending(held, rest)
    ensures Ascending(held + [top], [Drop] + rest)
  {
    assert ([Drop] + rest)[1..] == rest && (held + [top])[..|held|] == held;
  }

  lemma {:induction false} FetchAllAscends(items: seq<(ArtifactKey, FetchOutcome)>)
    ensures Ascending([], FetchAll(items))
  {
    if items != [] {
      var rest, lock := FetchAll(items[1..]), LockOf(items[0].0);
      FetchAllAscends(items[1..]);
      DropAscends([], lock, rest);
      assert [] + [lock] == [lock];
      match items[0].1
      case Cached =>
      case FoundUnderLock =>
        AcquireAscends([], lock, [Drop] + rest);
        assert [Acquire(lock)] + ([Drop] + rest) == FetchAll(items);
      case Downloaded =>
        DropAscends([lock], GlobalLock, [Drop] + rest);
        AcquireAscends([lock], GlobalLock, [Drop] + ([Drop] + rest));
        AcquireAscends([], lock, [Acquire(GlobalLock)] + ([Drop] + ([Drop] + rest)));
        assert [Acquire(lock)] + ([Acquire(GlobalLock)] + ([Drop] + ([Drop] + rest))) == FetchAll(items);
    }
  }

  lemma ProgramAscends(task: Task)
    requires FromCatalog(task)
    ensures Ascending([], Program(task))
  {
    match task
    case Lease(dependencies) =>
      var ids, order := SortedList(dependencies.Keys), LeaseOrder(dependencies);
      forall i, j | 0 <= i < j < |order| ensures Less(order[i], order[j]) {
        assert ids[i] in ids && ids[j] in ids;
        IdOfLockFile(dependencies[ids[i]]);
        IdOfLockFile(dependencies[ids[j]]);
      }
      assert [] + order == order;
      HoldAllAscends([], order);
    case Fetch(items) => FetchAllAscends(items);
    case GlobalOnly =>
      var ops := Program(task);
      assert ops[1..] == [Drop] && ops[1..][1..] == [];
      assert [GlobalLock][..0] == [];
      assert Ascending([GlobalLock], ops[1..]);
  }

  // Safety ----------------------------------------------------------------------------------------

  /** A task that is stopped goes on to release everything it holds, and does nothing else. */
  lemma StoppedTaskUnwinds(s: State, p: Pid)
    requires Enabled(s, Stop(p))
    ensures var before, after := Proc(s, p), Proc(Apply(s, Stop(p)), p);
      && after.alive && after.held == before.held && |after.ops| == |before.held|
      && forall i :: 0 <= i < |after.ops| ==> after.ops[i] == Drop
  {
    DropsOnly(|Proc(s, p).held|);
  }

  ghost predicate Owns(s: State, p: Pid) {
    var held := Proc(s, p).held;
    && (forall i :: 0 <= i < |held| ==> held[i] in s.owners && s.owners[held[i]] == p)
    && (forall i, j :: 0 <= i < j < |held| ==> held[i] != held[j])
  }

  ghost predicate Inv(s: State) {
    forall p :: Proc(s, p).alive ==> Owns(s, p) && Ascending(Proc(s, p).held, Proc(s, p).ops)
  }

  lemma StepKeepsInv(s: State, step: Step)
    requires Inv(s) && Enabled(s, step)
    requires step.Start? ==> FromCatalog(step.task)
    ensures Inv(Apply(s, step))
  {
    var s' := Apply(s, step);
    match step
    case Start(p, task) =>
      ProgramAscends(task);
      assert Proc(s', p) == Process(true, [], Program(task));
      assert forall q :: q != p ==> Proc(s', q) == Proc(s, q);
    case Advance(p) =>
      assert forall q :: q != p ==> Proc(s', q) == Proc(s, q);
      AdvanceKeepsInv(s, p);
    case LeaveBehind(p) =>
      assert forall q :: q != p ==> Proc(s', q) == Proc(s, q);
      assert Owns(s, p) && Owns(s', p);
    case Stop(p) =>
      assert forall q :: q != p ==> Proc(s', q) == Proc(s, q);
      DropsAscend(Proc(s, p).held);
    case Die(p) => assert forall q :: q != p ==> Proc(s', q) == Proc(s, q);
    case Reclaim(r) => assert forall q :: Proc(s', q) == Proc(s, q);
  }

  lemma AdvanceKeepsInv(s: State, p: Pid)
    requires Inv(s) && Enabled(s, Advance(p))
    ensures Inv(Apply(s, Advance(p)))
  {
    var s' := Apply(s, Advance(p));
    forall q | Proc(s', q).alive ensures Owns(s', q) && Ascending(Proc(s', q).held, Proc(s', q).ops) {
      assert q != p ==> Proc(s', q) == Proc(s, q);
      assert Owns(s, p);
    }
  }

  lemma {:induction false} RunKeepsInv(s: State, steps: seq<Step>, end: State)
    requires Inv(s) && Run(s, steps, end)
    ensures Inv(end)
    decreases |steps|
  {
    if steps != [] {
      StepKeepsInv(s, steps[0]);
      RunKeepsInv(Apply(s, steps[0]), steps[1..], end);
    }
  }

  lemma HolderHolds(s: State, p: Pid, q: Pid, r: Resource)
    requires WaitsFor(s, p, q) && !WaitsForLeftover(s, p, q) && Wants(s, p, r) && Proc(s, q).alive
    ensures r in Proc(s, q).held
  {
  }

  /** Along a wait chain without leftovers the wanted locks ascend. */
  lemma {:induction false} WantsAscend(s: State, chain: seq<Pid>, first: Resource, last: Resource)
    requires Inv(s) && WaitChain(s, chain)
    requires forall i :: 0 <= i < |chain| - 1 ==> !WaitsForLeftover(s, chain[i], chain[i + 1])
    requires Wants(s, chain[0], first) && Wants(s, chain[|chain| - 1], last)
    ensures Less(first, last)
    decreases |chain|
  {
    assert WaitsFor(s, chain[0], chain[1]);
    var q := chain[1];
    if |chain| == 2 {
      HolderHolds(s, chain[0], q, first);
    } else {
      assert WaitsFor(s, chain[1], chain[2]);
      var next :| Wants(s, q, next) && next in s.owners && s.owners[next] == chain[2];
      HolderHolds(s, chain[0], q, first);
      assert Less(first, next);
      var rest := chain[1..];
      forall i | 0 <= i < |rest| - 1
        ensures WaitsFor(s, rest[i], rest[i + 1]) && !WaitsForLeftover(s, rest[i], rest[i + 1])
      {
        assert WaitsFor(s, chain[i + 1], chain[i + 2]) && !WaitsForLeftover(s, chain[i + 1], chain[i + 2]);
      }
      WantsAscend(s, rest, next, last);
      LessTransitive(first, next, last);
    }
  }

  /**
   * In every reachable state of any number of processes, every closed wait chain has a process in it
   * that waits on a leftover: a lock file that a release left behind.
   */
  lemma CircularWaitNeedsLeftover(steps: seq<Step>, s: State, chain: seq<Pid>)
    requires Run(INIT, steps, s) && WaitChain(s, chain) && chain[0] == chain[|chain| - 1]
    ensures exists i :: 0 <= i < |chain| - 1 && WaitsForLeftover(s, chain[i], chain[i + 1])
  {
    RunKeepsInv(INIT, steps, s);
    assert WaitsFor(s, chain[0], chain[1]);
    var first :| Wants(s, chain[0], first) && first in s.owners && s.owners[first] == chain[1];
    if forall i :: 0 <= i < |chain| - 1 ==> !WaitsForLeftover(s, chain[i], chain[i + 1]) {
      WantsAscend(s, chain, first, first);
      assert false;
    }
  }

  /** A process waits for itself exactly on a leftover of its own. */
  lemma SelfWaitExactly(steps: seq<Step>, s: State, p: Pid)
    requires Run(INIT, steps, s)
    ensures WaitsFor(s, p, p) <==> WaitsForLeftover(s, p, p)
  {
    if WaitsFor(s, p, p) {
      var chain := [p, p];
      CircularWaitNeedsLeftover(steps, s, chain);
      assert chain[0] == p && chain[1] == p;
    }
  }

  ghost predicate ReleasesFree(steps: seq<Step>) {
    forall i :: 0 <= i < |steps| ==> !steps[i].LeaveBehind?
  }

  lemma StepLeavesNothing(s: State, step: Step)
    requires Inv(s) && Enabled(s, step) && !step.LeaveBehind? && forall r :: !LeftBehind(s, r)
    ensures forall r :: !LeftBehind(Apply(s, step), r)
  {
    var s' := Apply(s, step);
    forall r | r in s'.owners && Proc(s', s'.owners[r]).alive ensures r in Proc(s', s'.owners[r]).held {
      if step.Advance? {
        AdvanceLeavesNothing(s, step.p, r);
      } else {
        assert !LeftBehind(s, r);
      }
    }
  }

  lemma AdvanceLeavesNothing(s: State, p: Pid, r: Resource)
    requires Enabled(s, Advance(p)) && !LeftBehind(s, r)
    ensures !LeftBehind(Apply(s, Advance(p)), r)
  {
    var Process(_, held, ops) := Proc(s, p);
    if ops[0].Acquire? {
      assert (held + [ops[0].r])[|held|] == ops[0].r;
      assert forall h :: h in held ==> h in held + [ops[0].r];
    } else {
      assert held == held[..|held| - 1] + [held[|held| - 1]];
    }
  }

  lemma {:induction false} RunLeavesNothing(s: State, steps: seq<Step>, end: State)
    requires Inv(s) && Run(s, steps, end) && ReleasesFree(steps) && forall r :: !LeftBehind(s, r)
    ensures forall r :: !LeftBehind(end, r)
    decreases |steps|
  {
    if steps != [] {
      StepKeepsInv(s, steps[0]);
      StepLeavesNothing(s, steps[0]);
      RunLeavesNothing(Apply(s, steps[0]), steps[1..], end);
    }
  }

  /** Where every release frees its lock the wait-for graph is acyclic; no process waits for itself. */
  lemma NoCircularWait(steps: seq<Step>, s: State, chain: seq<Pid>)
    requires Run(INIT, steps, s) && ReleasesFree(steps) && WaitChain(s, chain)
    ensures chain[0] != chain[|chain| - 1]
  {
    RunLeavesNothing(INIT, steps, s);
    if chain[0] == chain[|chain| - 1] { CircularWaitNeedsLeftover(steps, s, chain); }
  }

  /** A process that left the global lock behind waits for itself when it needs it again. */
  lemma LeftoverBlocksItself(p: Pid) returns (steps: seq<Step>, s: State)
    ensures Run(INIT, steps, s) && WaitsFor(s, p, p)
  {
    var ops := [Acquire(GlobalLock), Drop];
    var s1 := Apply(INIT, Start(p, GlobalOnly));
    assert ops[1..] == [Drop] && [Drop][1..] == [];
    var s2 := Apply(s1, Advance(p));
    assert Proc(s2, p) == Process(true, [GlobalLock], [Drop]);
    var s3 := Apply(s2, LeaveBehind(p));
    assert Proc(s3, p) == Process(true, [], []);
    s := Apply(s3, Start(p, GlobalOnly));
    assert Wants(s, p, GlobalLock);
    steps := [Start(p, GlobalOnly), Advance(p), LeaveBehind(p), Start(p, GlobalOnly)];
    assert steps[1..] == [Advance(p), LeaveBehind(p), Start(p, GlobalOnly)];
    assert steps[1..][1..] == [LeaveBehind(p), Start(p, GlobalOnly)];
    assert steps[1..][1..][1..] == [Start(p, GlobalOnly)] && steps[1..][1..][1..][1..] == [];
    assert Run(s, [], s) && Run(s3, steps[1..][1..][1..], s);
    assert Run(s2, steps[1..][1..], s) && Run(s1, steps[1..], s);
  }

  // Where the schema and the duplicate-free list matter -------------------------------------------

  /** Running alone, a list of operations comes to an acquisition of a lock it already holds. */
  ghost predicate WaitsForItself(held: seq<Resource>, ops: seq<Op>)
    decreases |ops|
  {
    if ops == [] then false
    else match ops[0]
      case Acquire(r) => r in held || WaitsForItself(held + [r], ops[1..])
      case Drop => held != [] && WaitsForItself(held[..|held| - 1], ops[1..])
  }

  lemma {:induction false} DropsNeverWait(held: seq<Resource>, n: nat)
    ensures !WaitsForItself(held, Drops(n))
    decreases n
  {
    if n > 0 && held != [] {
      assert Drops(n)[1..] == Drops(n - 1);
      DropsNeverWait(held[..|held| - 1], n - 1);
    }
  }

  lemma {:induction false} HoldAllWaitsExactly(held: seq<Resource>, resources: seq<Resource>)
    requires Distinct(held)
    ensures WaitsForItself(held, HoldAll(resources, |held|)) <==> !Distinct(held + resources)
    decreases |resources|
  {
    if resources == [] {
      assert held + resources == held;
      DropsNeverWait(held, |held|);
    } else {
      var r := resources[0];
      var ops, all := HoldAll(resources, |held|), held + resources;
      assert ops[1..] == HoldAll(resources[1..], |held| + 1);
      if r in held {
        var i :| 0 <= i < |held| && held[i] == r;
        assert all[i] == all[|held|];
      } else {
        assert (held + [r]) + resources[1..] == all;
        HoldAllWaitsExactly(held + [r], resources[1..]);
      }
    }
  }

  /** A lease over any list of artifacts blocks on itself exactly when two of them share a lock file. */
  lemma LeaseBlocksItselfExactly(locks: seq<Resource>)
    ensures WaitsForItself([], HoldAll(locks, 0)) <==> !Distinct(locks)
  {
    assert [] + locks == locks;
    HoldAllWaitsExactly([], locks);
  }

  /** Two ids outside the schema, with a dot in one of them, are enough for that. */
  lemma DottedIdsBlock()
    ensures
      var a, b := ArtifactKey("a", "1.2", Variant.Release, ""), ArtifactKey("a.1", "2", Variant.Release, "");
      WaitsForItself([], HoldAll([LockOf(a), LockOf(b)], 0))
  {
    DottedIdsCollide();
    var a, b := ArtifactKey("a", "1.2", Variant.Release, ""), ArtifactKey("a.1", "2", Variant.Release, "");
    var locks := [LockOf(a), LockOf(b)];
    assert locks[0] == locks[1];
    LeaseBlocksItselfExactly(locks);
  }
}
