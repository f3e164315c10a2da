/**
 * Leases, concurrent acquisition and eviction on top of the lock files. The files of the downloads
 * directory are shared by all processes; eviction by any process is one lease check and one unlink.
 */
module CacheProtocol {
  import opened Common
  import opened LockProtocol
  import ArtifactNames

  /**
   * `stored` maps each cache path that exists to whether its bytes are the cataloged ones;
   * `validated` and `missed` remember what a contender found (or published) under its lock;
   * `downloads` counts the downloads that succeeded for each path. The cache directory is reached
   * directly when making its path absolute and resolving it give the same: no symbolic link, no "..".
   */
  datatype Cache = Cache(
    locks: State, stored: map<Path, bool>, validated: set<Token>, missed: set<Token>, downloads: multiset<Path>,
    direct: bool)

  datatype Action =
    | LockStep(step: Step)
    | FindValid(token: Token)
    | FindMissing(token: Token)
    | Download(token: Token)
    | PutCopy(cachePath: Path)
    | Evict(cachePath: Path)
    | Damage(cachePath: Path, left: Option<bool>)

  function Empty(direct: bool): Cache {
    Cache(LockProtocol.INIT, map[], {}, {}, multiset{}, direct)
  }

  predicate Valid(c: Cache, p: Path) {
    p in c.stored && c.stored[p]
  }

  predicate InsideWith(c: Cache, t: Token) {
    Live(c.locks, t) && c.locks.contenders[t].phase.Inside? && c.locks.contenders[t].path.Some?
  }

  function PathOf(c: Cache, t: Token): Path
    requires InsideWith(c, t)
  {
    c.locks.contenders[t].path.value
  }

  predicate Protects(s: State, name: LockName, p: Path) {
    name in s.files && s.files[name].path == Some(p)
  }

  /**
   * The lease check may answer "no lease": it looks only at the first lock file, in directory order,
   * whose metadata names this path, and asks whether its owner is alive. The metadata holds the resolved
   * path and is compared with the absolute one, so it names a path only where the two are the same.
   */
  ghost predicate MayLookUnleased(s: State, direct: bool, p: Path) {
    || !direct
    || (forall name :: !Protects(s, name, p))
    || (exists name :: Protects(s, name, p) && s.files[name].owner in s.dead)
  }

  ghost predicate CanDo(c: Cache, a: Action) {
    match a
    case LockStep(step) => Enabled(c.locks, step)
    case FindValid(t) => InsideWith(c, t) && Valid(c, PathOf(c, t))
    case FindMissing(t) => InsideWith(c, t) && !Valid(c, PathOf(c, t)) && t !in c.validated
    case Download(t) => InsideWith(c, t) && t in c.missed && t !in c.validated
    case PutCopy(p) => true
    case Evict(p) => p in c.stored && MayLookUnleased(c.locks, c.direct, p)
    case Damage(p, _) => p in c.stored
  }

  ghost function Do(c: Cache, a: Action): Cache
    requires CanDo(c, a)
  {
    match a
    case LockStep(step) => c.(locks := Apply(c.locks, step))
    case FindValid(t) => c.(validated := c.validated + {t})
    case FindMissing(t) => c.(missed := c.missed + {t})
    case Download(t) =>
      var p := PathOf(c, t);
      c.(stored := c.stored[p := true], validated := c.validated + {t}, downloads := c.downloads + multiset{p})
    case PutCopy(p) => c.(stored := c.stored[p := true])
    case Evict(p) => c.(stored := c.stored - {p})
    case Damage(p, left) =>
      c.(stored := match left case None => c.stored - {p} case Some(valid) => c.stored[p := valid])
  }

  ghost predicate CacheRun(c: Cache, actions: seq<Action>, end: Cache)
    decreases |actions|
  {
    if actions == [] then c == end
    else CanDo(c, actions[0]) && CacheRun(Do(c, actions[0]), actions[1..], end)
  }

  /** Locks are created outside the window only, in which a foreign lock of their name is pending. */
  ghost predicate CalmlyDone(c: Cache, a: Action) {
    a.LockStep? ==> Allowed(c.locks, a.step)
  }

  ghost predicate CalmRun(c: Cache, actions: seq<Action>)
    decreases |actions|
  {
    actions != [] && CanDo(c, actions[0]) ==> CalmlyDone(c, actions[0]) && CalmRun(Do(c, actions[0]), actions[1..])
  }

  /** Some reclaimer has moved aside a lock that protects `p` and that it did not condemn. */
  ghost predicate MovedAside(s: State, p: Path) {
    exists d :: Foreign(s, d) && s.contenders[d].phase.taken.path == Some(p)
  }

  /** No file is evicted while a lock that protects it is moved aside. */
  ghost predicate EvictsSettled(c: Cache, actions: seq<Action>)
    decreases |actions|
  {
    actions != [] && CanDo(c, actions[0]) ==>
      && (actions[0].Evict? ==> !MovedAside(c.locks, actions[0].cachePath))
      && EvictsSettled(Do(c, actions[0]), actions[1..])
  }

  /** Each cache path is protected by one lock file name only. */
  ghost predicate OneLockPerPath(c: Cache) {
    forall t, u :: t in c.locks.contenders && u in c.locks.contenders
      && c.locks.contenders[t].path.Some? && c.locks.contenders[t].path == c.locks.contenders[u].path
      ==> c.locks.contenders[t].name == c.locks.contenders[u].name
  }

  lemma KeepsNames(c: Cache, a: Action, t: Token)
    requires CanDo(c, a) && t in c.locks.contenders
    ensures t in Do(c, a).locks.contenders
    ensures Do(c, a).locks.contenders[t].name == c.locks.contenders[t].name
    ensures Do(c, a).locks.contenders[t].path == c.locks.contenders[t].path
    ensures Do(c, a).locks.contenders[t].pid == c.locks.contenders[t].pid
  {
    if a.LockStep? { StepKeepsIdentity(c.locks, a.step, t); }
  }

  lemma OneLockPerPathBefore(c: Cache, a: Action)
    requires CanDo(c, a) && OneLockPerPath(Do(c, a))
    ensures OneLockPerPath(c)
  {
    forall t | t in c.locks.contenders
      ensures t in Do(c, a).locks.contenders
        && Do(c, a).locks.contenders[t].name == c.locks.contenders[t].name
        && Do(c, a).locks.contenders[t].path == c.locks.contenders[t].path
    {
      KeepsNames(c, a, t);
    }
  }

  /** Contenders that have found something under their lock have been inside, and do not start over. */
  ghost predicate Entered(c: Cache) {
    forall t :: t in c.validated || t in c.missed ==>
      t in c.locks.contenders && HasEntered(c.locks.contenders[t].phase)
  }

  predicate HasEntered(phase: Phase) {
    phase.Inside? || phase.Leaving? || phase.Gone?
  }

  lemma LockStepKeepsEntered(s: State, step: Step, t: Token)
    requires Enabled(s, step) && t in s.contenders && HasEntered(s.contenders[t].phase)
    ensures HasEntered(Apply(s, step).contenders[t].phase)
    ensures Holds(Apply(s, step), t) ==> Holds(s, t)
    ensures Apply(s, step).contenders[t] == s.contenders[t].(phase := Apply(s, step).contenders[t].phase)
  {
  }

  // Leases ----------------------------------------------------------------------------------------

  /** A lock file of this name, in its place, protects `p` for a live owner. */
  predicate LeaseOnFile(s: State, name: LockName, p: Path) {
    Protects(s, name, p) && s.files[name].owner !in s.dead
  }

  lemma UnleasedExactly(c: Cache, t: Token)
    requires Sound(c.locks) && OneLockPerPath(c) && InsideWith(c, t)
    ensures MayLookUnleased(c.locks, c.direct, PathOf(c, t))
       <==> !c.direct || !LeaseOnFile(c.locks, c.locks.contenders[t].name, PathOf(c, t))
  {
    var s, p := c.locks, PathOf(c, t);
    forall other | Protects(s, other, p) ensures other == s.contenders[t].name {
      assert Issued(s, other, s.files[other]);
    }
  }

  lemma LeaseOnFileExactly(c: Cache, t: Token)
    requires Inv(c.locks) && InsideWith(c, t)
    ensures LeaseOnFile(c.locks, c.locks.contenders[t].name, PathOf(c, t)) <==> OnFile(c.locks, t)
    ensures OnFile(c.locks, t) <==> !exists d :: InHand(c.locks, t, d)
  {
    var s, name := c.locks, c.locks.contenders[t].name;
    assert Claims(s, t);
    if name in s.files { assert Issued(s, name, s.files[name]); }
  }

  lemma InHandIsMovedAside(c: Cache, t: Token, d: Token)
    requires Inv(c.locks) && InsideWith(c, t) && InHand(c.locks, t, d)
    ensures MovedAside(c.locks, PathOf(c, t))
  {
    assert SoundKnowledge(c.locks, c.locks.contenders[d]);
  }

  /** What a process found valid, or published, under its lock is still there while it is inside. */
  ghost predicate LeasesHold(c: Cache) {
    forall t :: t in c.validated && InsideWith(c, t) ==> Valid(c, PathOf(c, t))
  }

  ghost predicate CacheInv(c: Cache) {
    Inv(c.locks) && Entered(c)
  }

  lemma ActionKeepsInv(c: Cache, a: Action)
    requires CacheInv(c) && CanDo(c, a) && CalmlyDone(c, a)
    ensures CacheInv(Do(c, a))
  {
    if a.LockStep? {
      StepKeepsInv(c.locks, a.step);
      forall t | t in c.validated || t in c.missed
        ensures t in Do(c, a).locks.contenders && HasEntered(Do(c, a).locks.contenders[t].phase)
      {
        LockStepKeepsEntered(c.locks, a.step, t);
      }
    }
  }

  lemma ActionKeepsLeases(c: Cache, a: Action)
    requires CacheInv(c) && OneLockPerPath(c) && c.direct && LeasesHold(c)
    requires CanDo(c, a) && !a.Damage? && (a.Evict? ==> !MovedAside(c.locks, a.cachePath))
    ensures LeasesHold(Do(c, a))
  {
    var next := Do(c, a);
    forall t | t in next.validated && InsideWith(next, t) ensures Valid(next, PathOf(next, t)) {
      if a.LockStep? { LockStepKeepsEntered(c.locks, a.step, t); }
      if a.Evict? && InsideWith(c, t) && PathOf(c, t) == a.cachePath {
        UnleasedExactly(c, t);
        LeaseOnFileExactly(c, t);
        var d :| InHand(c.locks, t, d);
        InHandIsMovedAside(c, t, d);
        assert false;
      }
    }
  }

  ghost predicate Undamaged(actions: seq<Action>) {
    forall i :: 0 <= i < |actions| ==> !actions[i].Damage?
  }

  lemma {:induction false} RunKeepsLeases(c: Cache, actions: seq<Action>, end: Cache)
    requires CacheRun(c, actions, end) && OneLockPerPath(end)
    requires CacheInv(c) && c.direct && LeasesHold(c)
    requires CalmRun(c, actions) && EvictsSettled(c, actions) && Undamaged(actions)
    ensures LeasesHold(end)
    decreases |actions|
  {
    if actions != [] {
      var next := Do(c, actions[0]);
      RunNamesBefore(next, actions[1..], end);
      OneLockPerPathBefore(c, actions[0]);
      ActionKeepsInv(c, actions[0]);
      ActionKeepsLeases(c, actions[0]);
      RunKeepsLeases(next, actions[1..], end);
    }
  }

  lemma {:induction false} RunNamesBefore(c: Cache, actions: seq<Action>, end: Cache)
    requires CacheRun(c, actions, end) && OneLockPerPath(end)
    ensures OneLockPerPath(c)
    decreases |actions|
  {
    if actions != [] {
      RunNamesBefore(Do(c, actions[0]), actions[1..], end);
      OneLockPerPathBefore(c, actions[0]);
    }
  }

  lemma {:induction false} RunKeepsInv(c: Cache, actions: seq<Action>, end: Cache)
    requires CacheRun(c, actions, end) && CalmRun(c, actions) && CacheInv(c)
    ensures CacheInv(end)
    decreases |actions|
  {
    if actions != [] {
      ActionKeepsInv(c, actions[0]);
      RunKeepsInv(Do(c, actions[0]), actions[1..], end);
    }
  }

  lemma {:induction false} RunKeepsSound(c: Cache, actions: seq<Action>, end: Cache)
    requires CacheRun(c, actions, end) && Sound(c.locks)
    ensures Sound(end.locks) && end.direct == c.direct
    decreases |actions|
  {
    if actions != [] {
      if actions[0].LockStep? { StepKeepsSound(c.locks, actions[0].step); }
      RunKeepsSound(Do(c, actions[0]), actions[1..], end);
    }
  }

  lemma EmptyInv(direct: bool)
    ensures CacheInv(Empty(direct))
  {
    InitInv();
  }

  /**
   * In every run, the file of an artifact whose lock a live process is inside can be evicted exactly
   * when the cache directory is not reached directly, or no lock file in its place protects the path
   * for a live owner.
   */
  lemma HeldFilesAreSparedExactly(actions: seq<Action>, direct: bool, c: Cache, t: Token)
    requires CacheRun(Empty(direct), actions, c) && OneLockPerPath(c)
    requires InsideWith(c, t) && PathOf(c, t) in c.stored
    ensures CanDo(c, Evict(PathOf(c, t))) <==> !direct || !LeaseOnFile(c.locks, c.locks.contenders[t].name, PathOf(c, t))
  {
    EmptyInv(direct);
    RunKeepsSound(Empty(direct), actions, c);
    UnleasedExactly(c, t);
  }

  /**
   * In calm runs that is: while a reclaimer that did not condemn the lock of the holder has it in hand.
   * At all other moments no prune or clear step of any process removes the file: neither a lease nor an
   * acquisition loses it, not even to the prune that follows its own publication.
   */
  lemma EvictionSparesHeldArtifacts(actions: seq<Action>, direct: bool, c: Cache, t: Token)
    requires CacheRun(Empty(direct), actions, c) && CalmRun(Empty(direct), actions) && OneLockPerPath(c)
    requires InsideWith(c, t) && PathOf(c, t) in c.stored
    ensures CanDo(c, Evict(PathOf(c, t))) <==> !direct || exists d :: InHand(c.locks, t, d)
    ensures OnFile(c.locks, t) <==> !exists d :: InHand(c.locks, t, d)
  {
    EmptyInv(direct);
    RunKeepsInv(Empty(direct), actions, c);
    HeldFilesAreSparedExactly(actions, direct, c, t);
    LeaseOnFileExactly(c, t);
  }

  /**
   * From its validation to its release a leased file stays valid, unless something outside damages it
   * or it is evicted while a lock that protects it is moved aside.
   */
  lemma LeasedFilesStay(actions: seq<Action>, c: Cache, t: Token)
    requires CacheRun(Empty(true), actions, c) && CalmRun(Empty(true), actions) && OneLockPerPath(c)
    requires Undamaged(actions) && EvictsSettled(Empty(true), actions)
    requires t in c.validated && InsideWith(c, t)
    ensures Valid(c, PathOf(c, t))
  {
    EmptyInv(true);
    RunKeepsLeases(Empty(true), actions, c);
  }

  // Concurrent misses -----------------------------------------------------------------------------

  ghost predicate Unevicted(actions: seq<Action>) {
    forall i :: 0 <= i < |actions| ==> !actions[i].Evict?
  }

  ghost predicate DownloadedOnce(c: Cache) {
    && (forall p :: c.downloads[p] <= 1)
    && (forall p :: c.downloads[p] > 0 ==> Valid(c, p))
    && (forall t :: t in c.missed && t !in c.validated && InsideWith(c, t) ==> c.downloads[PathOf(c, t)] == 0)
  }

  lemma ActionKeepsDownloadedOnce(c: Cache, a: Action)
    requires CacheInv(c) && OneLockPerPath(c) && DownloadedOnce(c)
    requires CanDo(c, a) && !a.Damage? && !a.Evict?
    ensures DownloadedOnce(Do(c, a))
  {
    var next := Do(c, a);
    forall t | t in next.missed && t !in next.validated && InsideWith(next, t)
      ensures next.downloads[PathOf(next, t)] == 0
    {
      if a.LockStep? { LockStepKeepsEntered(c.locks, a.step, t); }
      if a.Download? {
        InvIsSafe(c.locks);
        assert Holds(c.locks, t) && Holds(c.locks, a.token);
      }
    }
  }

  lemma {:induction false} RunKeepsDownloadedOnce(c: Cache, actions: seq<Action>, end: Cache)
    requires CacheRun(c, actions, end) && OneLockPerPath(end)
    requires CacheInv(c) && DownloadedOnce(c) && CalmRun(c, actions) && Undamaged(actions) && Unevicted(actions)
    ensures DownloadedOnce(end)
    decreases |actions|
  {
    if actions != [] {
      var next := Do(c, actions[0]);
      RunNamesBefore(next, actions[1..], end);
      OneLockPerPathBefore(c, actions[0]);
      ActionKeepsInv(c, actions[0]);
      ActionKeepsDownloadedOnce(c, actions[0]);
      RunKeepsDownloadedOnce(next, actions[1..], end);
    }
  }

  /**
   * However many processes miss an artifact at once and whoever of them dies, at most one download of
   * it ever succeeds while nothing is evicted or damaged and no lock is created in the window.
   */
  lemma AtMostOneDownload(actions: seq<Action>, direct: bool, c: Cache, p: Path)
    requires CacheRun(Empty(direct), actions, c) && CalmRun(Empty(direct), actions) && OneLockPerPath(c)
    requires Undamaged(actions) && Unevicted(actions)
    ensures c.downloads[p] <= 1
    ensures c.downloads[p] == 1 ==> Valid(c, p)
  {
    EmptyInv(direct);
    RunKeepsDownloadedOnce(Empty(direct), actions, c);
  }

  /** Another live process inside has missed the artifact that `t` is about to download. */
  ghost predicate AlsoMissed(c: Cache, t: Token, u: Token)
    requires InsideWith(c, t)
  {
    u != t && InsideWith(c, u) && PathOf(c, u) == PathOf(c, t) && u in c.missed && u !in c.validated
  }

  /** Where nothing was downloaded twice yet, a second download can follow exactly in that case. */
  lemma SecondDownloadExactly(c: Cache, t: Token)
    requires DownloadedOnce(c) && CanDo(c, Download(t))
    ensures (exists u :: CanDo(Do(c, Download(t)), Download(u))
                         && Do(Do(c, Download(t)), Download(u)).downloads[PathOf(c, t)] == 2)
       <==> exists u :: AlsoMissed(c, t, u)
  {
    var next := Do(c, Download(t));
    assert next.downloads[PathOf(c, t)] == 1;
    forall u ensures CanDo(next, Download(u)) && PathOf(next, u) == PathOf(c, t) <==> AlsoMissed(c, t, u) {}
    forall u | CanDo(next, Download(u)) && PathOf(next, u) != PathOf(c, t)
      ensures Do(next, Download(u)).downloads[PathOf(c, t)] == 1 {}
    if u :| AlsoMissed(c, t, u) {
      assert CanDo(next, Download(u)) && Do(next, Download(u)).downloads[PathOf(c, t)] == 2;
    }
  }

  // Names -----------------------------------------------------------------------------------------

  predicate NamedAfter(contender: Contender, key: ArtifactNames.ArtifactKey) {
    && |key.sha256| >= 12
    && contender.path == Some(ArtifactNames.CacheFileName(key))
    && contender.name == ArtifactNames.LockFileName(key)
  }

  /** Artifact locks carry the names of artifacts whose versions have no underscore. */
  ghost predicate NamedByArtifacts(c: Cache) {
    forall t :: t in c.locks.contenders && c.locks.contenders[t].path.Some? ==>
      exists key :: NamedAfter(c.locks.contenders[t], key) && '_' !in key.version
  }

  lemma ArtifactNamesGiveOneLockPerPath(c: Cache)
    requires NamedByArtifacts(c)
    ensures OneLockPerPath(c)
  {
    forall t, u | t in c.locks.contenders && u in c.locks.contenders
      && c.locks.contenders[t].path.Some? && c.locks.contenders[t].path == c.locks.contenders[u].path
      ensures c.locks.contenders[t].name == c.locks.contenders[u].name
    {
      var a :| NamedAfter(c.locks.contenders[t], a) && '_' !in a.version;
      var b :| NamedAfter(c.locks.contenders[u], b) && '_' !in b.version;
      ArtifactNames.CacheNameDetermines(a, b);
    }
  }

  /** `keys` gives each artifact lock the artifact it is named after, with an id of the catalog schema. */
  ghost predicate NamedByKeys(c: Cache, keys: map<Token, ArtifactNames.ArtifactKey>) {
    forall t :: t in c.locks.contenders && c.locks.contenders[t].path.Some? ==>
      t in keys && ArtifactNames.SchemaId(keys[t].id) && NamedAfter(c.locks.contenders[t], keys[t])
  }

  /** Whatever the versions, each path has one lock name exactly when no two artifacts in use share a file. */
  lemma OneLockPerPathExactly(c: Cache, keys: map<Token, ArtifactNames.ArtifactKey>)
    requires NamedByKeys(c, keys)
    ensures OneLockPerPath(c) <==>
            forall t, u :: t in c.locks.contenders && u in c.locks.contenders
              && c.locks.contenders[t].path.Some? && c.locks.contenders[u].path.Some?
              ==> !ArtifactNames.OneFileTwoIds(keys[t], keys[u])
  {
    var cs := c.locks.contenders;
    forall t, u | t in cs && u in cs && cs[t].path.Some? && cs[u].path.Some?
      ensures cs[t].path == cs[u].path && cs[t].name != cs[u].name <==> ArtifactNames.OneFileTwoIds(keys[t], keys[u])
    {
      ArtifactNames.OneFileTwoLocksExactly(keys[t], keys[u]);
    }
  }
}
