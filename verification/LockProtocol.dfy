/**
 * The lock files of the dependency cache as a step machine. Reclaiming a stale lock is two steps, a
 * rename and a comparison of tokens; the results say exactly when the window between them matters.
 */
module LockProtocol {
  import opened Common

  type Pid = nat
  type Token = nat
  type LockName = string
  type Path = string

  /** The metadata in a lock file; `path` is the cache path that an artifact lock protects. */
  datatype Lock = Lock(token: Token, owner: Pid, path: Option<Path>)

  datatype Phase =
    | Trying
    | Saw(seen: Token, owner: Pid)               // read the metadata of the lock in its way
    | Condemned(stale: Token)                    // found that owner dead
    | Moved(expected: Token, taken: Lock)        // renamed the lock file away, token not yet compared
    | Inside
    | Leaving                                    // read its own token back, about to unlink
    | Gone

  datatype Contender = Contender(pid: Pid, name: LockName, path: Option<Path>, phase: Phase)

  datatype State = State(dead: set<Pid>, files: map<LockName, Lock>, contenders: map<Token, Contender>)

  datatype Step =
    | Join(token: Token, pid: Pid, name: LockName, path: Option<Path>)
    | Create(token: Token)
    | Look(token: Token)
    | Judge(token: Token)
    | Rename(token: Token)
    | Settle(token: Token)
    | ReadBack(token: Token)
    | Unlink(token: Token)
    | GiveUp(token: Token)
    | Die(pid: Pid)

  const INIT := State({}, map[], map[])

  predicate Live(s: State, t: Token) {
    t in s.contenders && s.contenders[t].pid !in s.dead
  }

  predicate Enabled(s: State, step: Step) {
    match step
    case Join(t, pid, _, _) => t !in s.contenders && pid !in s.dead
    case Create(t) => Live(s, t) && s.contenders[t].phase.Trying? && s.contenders[t].name !in s.files
    case Look(t) => Live(s, t) && s.contenders[t].phase.Trying? && s.contenders[t].name in s.files
    case Judge(t) => Live(s, t) && s.contenders[t].phase.Saw?
    case Rename(t) => Live(s, t) && s.contenders[t].phase.Condemned?
    case Settle(t) => Live(s, t) && s.contenders[t].phase.Moved?
    case ReadBack(t) => Live(s, t) && s.contenders[t].phase.Inside?
    case Unlink(t) => Live(s, t) && s.contenders[t].phase.Leaving?
    case GiveUp(t) => Live(s, t) && s.contenders[t].phase.Trying?
    case Die(_) => true
  }

  function Without(files: map<LockName, Lock>, name: LockName): map<LockName, Lock> {
    files - {name}
  }

  function Advance(s: State, t: Token, phase: Phase): State
    requires t in s.contenders
  {
    s.(contenders := s.contenders[t := s.contenders[t].(phase := phase)])
  }

  function Apply(s: State, step: Step): State
    requires Enabled(s, step)
  {
    match step
    case Join(t, pid, name, path) => s.(contenders := s.contenders[t := Contender(pid, name, path, Trying)])
    case Create(t) =>
      var c := s.contenders[t];
      Advance(s, t, Inside).(files := s.files[c.name := Lock(t, c.pid, c.path)])
    case Look(t) =>
      var found := s.files[s.contenders[t].name];
      Advance(s, t, Saw(found.token, found.owner))
    case Judge(t) =>
      var Saw(seen, owner) := s.contenders[t].phase;
      Advance(s, t, if owner in s.dead then Condemned(seen) else Trying)
    case Rename(t) =>
      var c := s.contenders[t];
      if c.name in s.files then
        Advance(s, t, Moved(c.phase.stale, s.files[c.name])).(files := Without(s.files, c.name))
      else
        Advance(s, t, Trying)
    case Settle(t) =>
      var c := s.contenders[t];
      var Moved(expected, taken) := c.phase;
      if taken.token == expected then Advance(s, t, Trying)
      else Advance(s, t, Trying).(files := s.files[c.name := taken])
    case ReadBack(t) =>
      var c := s.contenders[t];
      Advance(s, t, if c.name in s.files && s.files[c.name].token == t then Leaving else Gone)
    case Unlink(t) => Advance(s, t, Gone).(files := Without(s.files, s.contenders[t].name))
    case GiveUp(t) => Advance(s, t, Gone)
    case Die(pid) => s.(dead := s.dead + {pid})
  }

  /** A step changes nothing of a contender but its phase. */
  lemma StepKeepsIdentity(s: State, step: Step, t: Token)
    requires Enabled(s, step) && t in s.contenders
    ensures t in Apply(s, step).contenders
    ensures Apply(s, step).contenders[t] == s.contenders[t].(phase := Apply(s, step).contenders[t].phase)
  {
  }

  /** Only live processes act, each with the acquisitions it has begun. */
  lemma OnlyTheLiveAct(s: State, step: Step)
    requires Enabled(s, step)
    ensures step.Join? ==> step.pid !in s.dead && step.token !in s.contenders
    ensures !step.Join? && !step.Die? ==> step.token in s.contenders && s.contenders[step.token].pid !in s.dead
    ensures !step.Die? ==> Apply(s, step).dead == s.dead
    ensures forall t :: t in s.contenders && (step.Die? || t != step.token) ==> Apply(s, step).contenders[t] == s.contenders[t]
  {
  }

  ghost predicate Run(s: State, steps: seq<Step>, end: State)
    decreases |steps|
  {
    if steps == [] then s == end
    else Enabled(s, steps[0]) && Run(Apply(s, steps[0]), steps[1..], end)
  }

  // Safety ----------------------------------------------------------------------------------------

  /** A live process is in the critical section of its lock. */
  ghost predicate Holds(s: State, t: Token) {
    Live(s, t) && s.contenders[t].phase.Inside?
  }

  /** A live process is in the critical section or still has to remove its lock file. */
  ghost predicate Claims(s: State, t: Token) {
    Live(s, t) && (s.contenders[t].phase.Inside? || s.contenders[t].phase.Leaving?)
  }

  ghost predicate MutualExclusion(s: State) {
    forall t, u :: Holds(s, t) && Holds(s, u) && s.contenders[t].name == s.contenders[u].name ==> t == u
  }

  ghost predicate OnFile(s: State, t: Token)
  {
    && t in s.contenders
    && s.contenders[t].name in s.files && s.files[s.contenders[t].name].token == t
  }

  /** `d` has renamed away a lock that is not the one it condemned. */
  ghost predicate Foreign(s: State, d: Token) {
    d in s.contenders && s.contenders[d].phase.Moved? && s.contenders[d].phase.taken.token != s.contenders[d].phase.expected
  }

  /** The lock of `t` is in the hand of `d`, and its name is free. */
  ghost predicate InHand(s: State, t: Token, d: Token)
  {
    && t in s.contenders
    && Foreign(s, d) && s.contenders[d].phase.taken.token == t
    && s.contenders[d].name == s.contenders[t].name && s.contenders[t].name !in s.files
  }

  ghost predicate Protected(s: State, t: Token)
  {
    && t in s.contenders
    && (OnFile(s, t) || exists d :: InHand(s, t, d))
  }

  /** Two live holders of one lock, or a live holder whose lock file is lost to it. */
  ghost predicate Broken(s: State) {
    !MutualExclusion(s) || exists t :: Holds(s, t) && !Protected(s, t)
  }

  /** Some foreign lock of this name is still to be put back, or still has a live owner. */
  ghost predicate Pending(s: State, name: LockName, d: Token) {
    && Foreign(s, d) && s.contenders[d].name == name
    && (Live(s, d) || Claims(s, s.contenders[d].phase.taken.token))
  }

  ghost predicate Hazard(s: State, name: LockName) {
    exists d :: Pending(s, name, d)
  }

  /** No lock is created while a foreign lock of that name is pending. */
  ghost predicate Calm(s: State, steps: seq<Step>)
    decreases |steps|
  {
    steps != [] && Enabled(s, steps[0]) ==>
      && (steps[0].Create? ==> !Hazard(s, s.contenders[steps[0].token].name))
      && Calm(Apply(s, steps[0]), steps[1..])
  }

  // The invariant ---------------------------------------------------------------------------------

  ghost predicate Issued(s: State, name: LockName, l: Lock) {
    && l.token in s.contenders
    && s.contenders[l.token].name == name && s.contenders[l.token].pid == l.owner && s.contenders[l.token].path == l.path
    && (s.contenders[l.token].phase.Inside? || s.contenders[l.token].phase.Leaving? || s.contenders[l.token].phase.Gone?)
  }

  ghost predicate OwnerDead(s: State, t: Token) {
    t in s.contenders && s.contenders[t].pid in s.dead
  }

  ghost predicate SoundKnowledge(s: State, c: Contender) {
    match c.phase
    case Saw(seen, owner) => seen in s.contenders && s.contenders[seen].pid == owner
    case Condemned(stale) => OwnerDead(s, stale)
    case Moved(expected, taken) => OwnerDead(s, expected) && Issued(s, c.name, taken)
    case _ => true
  }

  ghost predicate FilesIssued(s: State) {
    forall name :: name in s.files ==> Issued(s, name, s.files[name])
  }

  ghost predicate KnowledgeSound(s: State) {
    forall t :: t in s.contenders ==> SoundKnowledge(s, s.contenders[t])
  }

  ghost predicate ClaimsProtected(s: State) {
    forall t :: Claims(s, t) ==> Protected(s, t)
  }

  ghost predicate PendingIsSole(s: State) {
    && (forall name, d :: Pending(s, name, d) ==> name !in s.files)
    && (forall name, d, e :: Pending(s, name, d) && Pending(s, name, e) ==> d == e)
  }

  /** What files and contenders say of other acquisitions is true; every run keeps this. */
  ghost predicate Sound(s: State) {
    FilesIssued(s) && KnowledgeSound(s)
  }

  ghost predicate Inv(s: State) {
    Sound(s) && ClaimsProtected(s) && PendingIsSole(s)
  }

  lemma InitInv()
    ensures Inv(INIT)
  {
  }

  lemma InvIsSafe(s: State)
    requires Inv(s)
    ensures !Broken(s)
  {
    forall t, u | Holds(s, t) && Holds(s, u) && s.contenders[t].name == s.contenders[u].name ensures t == u {
      assert Claims(s, t) && Claims(s, u);
      if !OnFile(s, t) && !OnFile(s, u) {
        var d :| InHand(s, t, d);
        var e :| InHand(s, u, e);
        assert Pending(s, s.contenders[t].name, d) && Pending(s, s.contenders[t].name, e);
      }
    }
  }

  /** Nothing becomes pending except by the rename itself. */
  lemma PendingBackwards(s: State, step: Step, name: LockName, d: Token)
    requires Inv(s) && Enabled(s, step) && Pending(Apply(s, step), name, d) && step != Rename(d)
    ensures Pending(s, name, d)
  {
    assert SoundKnowledge(s, s.contenders[d]);
  }

  ghost predicate Allowed(s: State, step: Step) {
    Enabled(s, step) && (step.Create? ==> !Hazard(s, s.contenders[step.token].name))
  }

  lemma StepKeepsPending(s: State, step: Step)
    requires Inv(s) && Allowed(s, step)
    ensures PendingIsSole(Apply(s, step))
  {
    var s' := Apply(s, step);
    forall name, d | Pending(s', name, d) ensures name !in s'.files {
      if step != Rename(d) {
        PendingBackwards(s, step, name, d);
        if step.Settle? && s.contenders[step.token].name == name && Foreign(s, step.token) {
          assert Pending(s, name, step.token);
        }
      }
    }
    forall name, d, e | Pending(s', name, d) && Pending(s', name, e) ensures d == e {
      if step != Rename(d) { PendingBackwards(s, step, name, d); }
      if step != Rename(e) { PendingBackwards(s, step, name, e); }
    }
  }

  lemma StepKeepsOnFile(s: State, step: Step, t: Token)
    requires Inv(s) && Allowed(s, step) && Claims(s, t) && Claims(Apply(s, step), t) && OnFile(s, t)
    ensures Protected(Apply(s, step), t)
  {
    var s', name := Apply(s, step), s.contenders[t].name;
    match step
    case Rename(r) =>
      assert SoundKnowledge(s, s.contenders[r]);
      if s.contenders[r].name == name { assert InHand(s', t, r); }
    case Settle(r) =>
      if s.contenders[r].name == name && Foreign(s, r) { assert Pending(s, name, r); }
      assert OnFile(s', t);
    case Unlink(u) =>
      assert Claims(s, u);
      assert OnFile(s', t);
    case _ => assert OnFile(s', t);
  }

  lemma SettleIsSole(s: State, name: LockName, d: Token, r: Token)
    requires Inv(s) && Pending(s, name, d) && Live(s, r) && s.contenders[r].name == name && Foreign(s, r)
    ensures r == d
  {
    assert Pending(s, name, r);
  }

  lemma StepKeepsInHand(s: State, step: Step, t: Token, d: Token)
    requires Inv(s) && Allowed(s, step) && Claims(s, t) && Claims(Apply(s, step), t) && InHand(s, t, d)
    ensures Protected(Apply(s, step), t)
  {
    var s', name := Apply(s, step), s.contenders[t].name;
    assert Pending(s, name, d);
    forall r | step == Settle(r) && s.contenders[r].name == name && Foreign(s, r) ensures r == d {
      SettleIsSole(s, name, d, r);
    }
    if step == Settle(d) {
      assert OnFile(s', t);
    } else {
      assert InHand(s', t, d);
    }
  }

  lemma StepKeepsClaims(s: State, step: Step)
    requires Inv(s) && Allowed(s, step)
    ensures ClaimsProtected(Apply(s, step))
  {
    var s' := Apply(s, step);
    forall t | Claims(s', t) ensures Protected(s', t) {
      if step == Create(t) {
        assert OnFile(s', t);
      } else {
        assert Claims(s, t);
        if OnFile(s, t) {
          StepKeepsOnFile(s, step, t);
        } else {
          var d :| InHand(s, t, d);
          StepKeepsInHand(s, step, t, d);
        }
      }
    }
  }

  lemma StepKeepsIssued(s: State, step: Step, name: LockName, l: Lock)
    requires Enabled(s, step) && Issued(s, name, l)
    ensures Issued(Apply(s, step), name, l)
  {
  }

  lemma StepKeepsFiles(s: State, step: Step)
    requires Sound(s) && Enabled(s, step)
    ensures FilesIssued(Apply(s, step))
  {
    var s' := Apply(s, step);
    forall name | name in s'.files ensures Issued(s', name, s'.files[name]) {
      if name in s.files && s'.files[name] == s.files[name] {
        StepKeepsIssued(s, step, name, s.files[name]);
      } else if step.Settle? {
        assert SoundKnowledge(s, s.contenders[step.token]);
        StepKeepsIssued(s, step, name, s'.files[name]);
      }
    }
  }

  lemma StepKeepsKnowledge(s: State, step: Step)
    requires Sound(s) && Enabled(s, step)
    ensures KnowledgeSound(Apply(s, step))
  {
    var s' := Apply(s, step);
    forall t | t in s'.contenders ensures SoundKnowledge(s', s'.contenders[t]) {
      if t in s.contenders {
        assert SoundKnowledge(s, s.contenders[t]);
        if s.contenders[t].phase.Moved? {
          StepKeepsIssued(s, step, s.contenders[t].name, s.contenders[t].phase.taken);
        }
        if step == Rename(t) && s.contenders[t].name in s.files {
          StepKeepsIssued(s, step, s.contenders[t].name, s.files[s.contenders[t].name]);
        }
      }
    }
  }

  lemma StepKeepsInv(s: State, step: Step)
    requires Inv(s) && Allowed(s, step)
    ensures Inv(Apply(s, step))
  {
    StepKeepsFiles(s, step);
    StepKeepsKnowledge(s, step);
    StepKeepsPending(s, step);
    StepKeepsClaims(s, step);
  }

  lemma StepKeepsSound(s: State, step: Step)
    requires Sound(s) && Enabled(s, step)
    ensures Sound(Apply(s, step))
  {
    StepKeepsFiles(s, step);
    StepKeepsKnowledge(s, step);
  }

  // Results ---------------------------------------------------------------------------------------

  lemma {:induction false} CalmRunKeepsInv(s: State, steps: seq<Step>, end: State)
    requires Inv(s) && Run(s, steps, end) && Calm(s, steps)
    ensures Inv(end)
    decreases |steps|
  {
    if steps != [] {
      StepKeepsInv(s, steps[0]);
      CalmRunKeepsInv(Apply(s, steps[0]), steps[1..], end);
    }
  }

  /**
   * In every state of every run in which no lock is created while a foreign lock of that name is
   * pending, at most one live process is inside each lock, and each has its lock on file or in the
   * hand of a reclaimer that will put it back.
   */
  lemma CalmRunsAreSafe(steps: seq<Step>, end: State)
    requires Run(INIT, steps, end) && Calm(INIT, steps)
    ensures !Broken(end)
  {
    InitInv();
    CalmRunKeepsInv(INIT, steps, end);
    InvIsSafe(end);
  }

  /** In these runs releasing never removes another owner's lock. */
  lemma ReleaseRemovesOwnLock(steps: seq<Step>, s: State, t: Token)
    requires Run(INIT, steps, s) && Calm(INIT, steps) && Enabled(s, Unlink(t))
    ensures !ReleasesForeign(s, t)
  {
    InitInv();
    CalmRunKeepsInv(INIT, steps, s);
    InvReleasesOwn(s, t);
  }

  /** The next step of `t` would remove the lock file of another acquisition. */
  ghost predicate ReleasesForeign(s: State, t: Token) {
    Enabled(s, Unlink(t)) && s.contenders[t].name in s.files && s.files[s.contenders[t].name].token != t
  }

  lemma InvReleasesOwn(s: State, t: Token)
    requires Inv(s) && Enabled(s, Unlink(t))
    ensures !ReleasesForeign(s, t)
  {
    assert Claims(s, t);
  }

  ghost predicate CalmlyBreaks(s: State, steps: seq<Step>, end: State) {
    Calm(s, steps) && Run(s, steps, end) && Broken(end)
  }

  /** A creation in the window leads, in at most one further step, to a broken state. */
  lemma HazardBreaks(s: State, c: Token) returns (more: seq<Step>, end: State)
    requires Inv(s) && Enabled(s, Create(c)) && Hazard(s, s.contenders[c].name)
    ensures |more| <= 1 && CalmlyBreaks(Apply(s, Create(c)), more, end)
  {
    var name := s.contenders[c].name;
    var d :| Pending(s, name, d);
    var owner := s.contenders[d].phase.taken.token;
    var s1 := Apply(s, Create(c));
    assert SoundKnowledge(s, s.contenders[d]);
    assert Holds(s1, c);
    if Claims(s, owner) && s.contenders[owner].phase.Inside? {
      more, end := [], s1;
      assert Holds(s1, owner);
    } else {
      var step := if Claims(s, owner) then Unlink(owner) else Settle(d);
      more, end := [step], Apply(s1, step);
      assert more[1..] == [];
      assert Run(end, more[1..], end);
      assert Calm(end, more[1..]);
      assert Holds(end, c) && !OnFile(end, c);
      forall e ensures !InHand(end, c, e) {
        if e in s.contenders { assert SoundKnowledge(s, s.contenders[e]); }
      }
    }
  }

  /** Creating a lock is safe in every calm continuation exactly when no foreign lock of its name is pending. */
  lemma CreateIsSafeExactly(s: State, c: Token)
    requires Inv(s) && Enabled(s, Create(c))
    ensures (exists more, end :: CalmlyBreaks(Apply(s, Create(c)), more, end)) <==> Hazard(s, s.contenders[c].name)
  {
    var s1 := Apply(s, Create(c));
    if Hazard(s, s.contenders[c].name) {
      var more, end := HazardBreaks(s, c);
      assert CalmlyBreaks(s1, more, end);
    } else {
      StepKeepsInv(s, Create(c));
      forall more, end ensures !CalmlyBreaks(s1, more, end) {
        if CalmlyBreaks(s1, more, end) {
          CalmRunKeepsInv(s1, more, end);
          InvIsSafe(end);
        }
      }
    }
  }
}
