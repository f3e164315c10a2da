/**
 * When releasing a lock can hit another owner's lock, and when a released lock can come back. The owner
 * reads its token back and unlinks the name in two steps; a reclaimer may have its lock in hand.
 */
module LockRelease {
  import opened Common
  import opened LockProtocol

  ghost predicate CalmlyReleasesForeign(s: State, steps: seq<Step>, end: State, t: Token) {
    Calm(s, steps) && Run(s, steps, end) && ReleasesForeign(end, t)
  }

  /** A foreign lock is moved aside by a live process, or its owner has already read its token back. */
  ghost predicate ReleaseHazard(s: State, name: LockName) {
    exists d :: Pending(s, name, d) && (Live(s, d) || s.contenders[s.contenders[d].phase.taken.token].phase.Leaving?)
  }

  /** The mover puts the old lock over the new one after the new owner has read its token back. */
  lemma LiveMoverBreaks(s: State, c: Token, d: Token) returns (more: seq<Step>, end: State)
    requires Inv(s) && Enabled(s, Create(c)) && Pending(s, s.contenders[c].name, d) && Live(s, d)
    ensures CalmlyReleasesForeign(Apply(s, Create(c)), more, end, c)
  {
    var s2 := Apply(Apply(s, Create(c)), ReadBack(c));
    assert SoundKnowledge(s, s.contenders[d]);
    more, end := [ReadBack(c), Settle(d)], Apply(s2, Settle(d));
    assert more[1..] == [Settle(d)] && more[1..][1..] == [];
    assert Run(end, [], end) && Run(s2, more[1..], end) && Calm(end, []) && Calm(s2, more[1..]);
  }

  lemma ReleaseHazardBreaks(s: State, c: Token) returns (more: seq<Step>, end: State, t: Token)
    requires Inv(s) && Enabled(s, Create(c)) && ReleaseHazard(s, s.contenders[c].name)
    ensures CalmlyReleasesForeign(Apply(s, Create(c)), more, end, t)
  {
    var name := s.contenders[c].name;
    var d :| Pending(s, name, d) && (Live(s, d) || s.contenders[s.contenders[d].phase.taken.token].phase.Leaving?);
    if Live(s, d) {
      more, end := LiveMoverBreaks(s, c, d);
      t := c;
    } else {
      assert SoundKnowledge(s, s.contenders[d]);
      more, end, t := [], Apply(s, Create(c)), s.contenders[d].phase.taken.token;
    }
  }

  /** The state as if `o` had finished. */
  ghost function Retired(s: State, o: Token): State
    requires o in s.contenders
  {
    Advance(s, o, Gone)
  }

  /** No lock file has the token `o` any more, nor does any live process hold one to put back. */
  ghost predicate TokenLost(s: State, o: Token) {
    && o in s.contenders && (s.contenders[o].phase.Inside? || s.contenders[o].phase.Gone?)
    && (forall name :: name in s.files ==> s.files[name].token != o)
    && (forall e :: Live(s, e) && s.contenders[e].phase.Moved? ==> s.contenders[e].phase.taken.token != o)
  }

  ghost predicate Orphan(s: State, o: Token) {
    TokenLost(s, o) && Inv(Retired(s, o))
  }

  lemma PendingOfRetired(s: State, o: Token, name: LockName, d: Token)
    requires o in s.contenders && Pending(Retired(s, o), name, d)
    ensures Pending(s, name, d)
  {
    assert Retired(s, o).contenders[d] == s.contenders[d];
  }

  lemma StepKeepsTokenLost(s: State, step: Step, o: Token)
    requires TokenLost(s, o) && Enabled(s, step)
    ensures TokenLost(Apply(s, step), o)
  {
  }

  lemma OnlyReadsBack(s: State, step: Step, o: Token)
    requires TokenLost(s, o) && Enabled(s, step) && step != ReadBack(o)
    ensures step.Die? || step.token != o
  {
  }

  lemma RetiredFileStep(s: State, step: Step, o: Token)
    requires TokenLost(s, o) && Enabled(s, step) && (step.Create? || step.Unlink?)
    ensures Enabled(Retired(s, o), step) && Retired(Apply(s, step), o) == Apply(Retired(s, o), step)
  {
    OnlyReadsBack(s, step, o);
  }

  lemma RetiredReclaimStep(s: State, step: Step, o: Token)
    requires TokenLost(s, o) && Enabled(s, step) && (step.Rename? || step.Settle?)
    ensures Enabled(Retired(s, o), step) && Retired(Apply(s, step), o) == Apply(Retired(s, o), step)
  {
    OnlyReadsBack(s, step, o);
  }

  lemma RetiredWaitStep(s: State, step: Step, o: Token)
    requires TokenLost(s, o) && Enabled(s, step) && (step.Look? || step.Judge? || step.GiveUp?)
    ensures Enabled(Retired(s, o), step) && Retired(Apply(s, step), o) == Apply(Retired(s, o), step)
  {
    OnlyReadsBack(s, step, o);
  }

  lemma RetiredOtherStep(s: State, step: Step, o: Token)
    requires TokenLost(s, o) && Enabled(s, step) && step != ReadBack(o) && (step.Join? || step.ReadBack? || step.Die?)
    ensures Enabled(Retired(s, o), step) && Retired(Apply(s, step), o) == Apply(Retired(s, o), step)
  {
    OnlyReadsBack(s, step, o);
  }

  lemma RetiredCommutes(s: State, step: Step, o: Token)
    requires TokenLost(s, o) && Enabled(s, step) && step != ReadBack(o)
    ensures Enabled(Retired(s, o), step) && Retired(Apply(s, step), o) == Apply(Retired(s, o), step)
  {
    if step.Create? || step.Unlink? {
      RetiredFileStep(s, step, o);
    } else if step.Rename? || step.Settle? {
      RetiredReclaimStep(s, step, o);
    } else if step.Look? || step.Judge? || step.GiveUp? {
      RetiredWaitStep(s, step, o);
    } else {
      RetiredOtherStep(s, step, o);
    }
  }

  lemma StepKeepsOrphan(s: State, step: Step, o: Token)
    requires Orphan(s, o) && Allowed(s, step)
    ensures Orphan(Apply(s, step), o)
  {
    StepKeepsTokenLost(s, step, o);
    if step == ReadBack(o) {
      assert Retired(Apply(s, step), o) == Retired(s, o);
    } else {
      if step.Create? && Hazard(Retired(s, o), s.contenders[step.token].name) {
        var d :| Pending(Retired(s, o), s.contenders[step.token].name, d);
        PendingOfRetired(s, o, s.contenders[step.token].name, d);
      }
      RetiredCommutes(s, step, o);
      StepKeepsInv(Retired(s, o), step);
    }
  }

  lemma {:induction false} CalmRunKeepsOrphan(s: State, steps: seq<Step>, end: State, o: Token)
    requires Orphan(s, o) && Run(s, steps, end) && Calm(s, steps)
    ensures Orphan(end, o)
    decreases |steps|
  {
    if steps != [] {
      StepKeepsOrphan(s, steps[0], o);
      CalmRunKeepsOrphan(Apply(s, steps[0]), steps[1..], end, o);
    }
  }

  lemma RetiredKeepsInv(s: State, o: Token)
    requires o in s.contenders && s.contenders[o].phase.Inside?
    ensures Inv(s) ==> Inv(Retired(s, o))
  {
    if Inv(s) {
      var r := Retired(s, o);
      forall t | Claims(r, t) ensures Protected(r, t) {
        assert Claims(s, t);
        if !OnFile(s, t) {
          var d :| InHand(s, t, d);
          assert InHand(r, t, d);
        }
      }
      forall name, d | Pending(r, name, d) ensures Pending(s, name, d) { PendingOfRetired(s, o, name, d); }
      assert forall t :: t in r.contenders ==> SoundKnowledge(s, s.contenders[t]);
    }
  }

  /** The lock of `o`, who is still inside, was moved aside by `d`, who is dead. */
  ghost predicate Stranded(s: State, name: LockName, d: Token, o: Token) {
    Pending(s, name, d) && s.contenders[d].phase.taken.token == o && !Live(s, d) && o in s.contenders && s.contenders[o].phase.Inside?
  }

  lemma StrandedIsLost(s: State, name: LockName, d: Token, o: Token)
    requires Stranded(s, name, d, o) && FilesIssued(s) && KnowledgeSound(s) && PendingIsSole(s)
    ensures TokenLost(s, o)
  {
    assert SoundKnowledge(s, s.contenders[d]);
    forall other | other in s.files ensures s.files[other].token != o { assert Issued(s, other, s.files[other]); }
    forall e | Live(s, e) && s.contenders[e].phase.Moved? ensures s.contenders[e].phase.taken.token != o {
      assert SoundKnowledge(s, s.contenders[e]);
      if s.contenders[e].phase.taken.token == o { assert Pending(s, name, e); }
    }
  }

  lemma StrandedIsNoHazard(s: State, name: LockName, d: Token, o: Token)
    requires Stranded(s, name, d, o) && PendingIsSole(s)
    ensures !Hazard(Retired(s, o), name)
  {
    if Hazard(Retired(s, o), name) {
      var e :| Pending(Retired(s, o), name, e);
      PendingOfRetired(s, o, name, e);
    }
  }

  /** A lock whose mover is dead and whose owner is still inside does no harm to releases. */
  lemma StrandedStaysOrphan(s: State, c: Token, d: Token, o: Token)
    requires Inv(s) && Enabled(s, Create(c)) && Stranded(s, s.contenders[c].name, d, o)
    ensures Orphan(Apply(s, Create(c)), o)
  {
    var name := s.contenders[c].name;
    StrandedIsLost(s, name, d, o);
    RetiredKeepsInv(s, o);
    StrandedIsNoHazard(s, name, d, o);
    RetiredCommutes(s, Create(c), o);
    StepKeepsTokenLost(s, Create(c), o);
    StepKeepsInv(Retired(s, o), Create(c));
  }

  /**
   * Creating a lock can lead, in a calm continuation, to a release of another owner's lock exactly
   * when a foreign lock of its name is moved aside by a live process or its owner is about to unlink.
   */
  lemma ReleaseIsSafeExactly(s: State, c: Token)
    requires Inv(s) && Enabled(s, Create(c))
    ensures (exists more, end, t :: CalmlyReleasesForeign(Apply(s, Create(c)), more, end, t))
       <==> ReleaseHazard(s, s.contenders[c].name)
  {
    var s1, name := Apply(s, Create(c)), s.contenders[c].name;
    if ReleaseHazard(s, name) {
      var more, end, t := ReleaseHazardBreaks(s, c);
    } else {
      forall more, end, t ensures !CalmlyReleasesForeign(s1, more, end, t) {
        NoForeignRelease(s, c, more, end, t);
      }
    }
  }

  lemma NoForeignRelease(s: State, c: Token, more: seq<Step>, end: State, t: Token)
    requires Enabled(s, Create(c))
    ensures Inv(s) && !ReleaseHazard(s, s.contenders[c].name) ==> !CalmlyReleasesForeign(Apply(s, Create(c)), more, end, t)
  {
    var s1 := Apply(s, Create(c));
    if Inv(s) && !ReleaseHazard(s, s.contenders[c].name) && CalmlyReleasesForeign(s1, more, end, t) {
      if d :| Pending(s, s.contenders[c].name, d) {
        var o := s.contenders[d].phase.taken.token;
        StrandedStaysOrphan(s, c, d, o);
        CalmRunKeepsOrphan(s1, more, end, o);
        InvReleasesOwn(Retired(end, o), t);
      } else {
        StepKeepsInv(s, Create(c));
        CalmRunKeepsInv(s1, more, end);
        InvReleasesOwn(end, t);
      }
    }
  }

  // What a release leaves behind -------------------------------------------------------------------

  /** The last step of the acquisition `t`: it unlinks, or it reads back and does not find its lock. */
  ghost predicate Ends(s: State, step: Step, t: Token) {
    Enabled(s, step) && (step == Unlink(t) || (step == ReadBack(t) && !OnFile(s, t)))
  }

  ghost predicate Resurfaces(s: State, more: seq<Step>, end: State, t: Token) {
    Run(s, more, end) && exists name :: name in end.files && end.files[name].token == t
  }

  lemma EndedIsLost(s: State, step: Step, t: Token)
    requires Inv(s) && Ends(s, step, t) && !exists d :: Live(s, d) && InHand(s, t, d)
    ensures TokenLost(Apply(s, step), t)
  {
    var s' := Apply(s, step);
    forall name | name in s.files && s.files[name].token == t ensures name == s.contenders[t].name {
      assert Issued(s, name, s.files[name]);
    }
    assert Claims(s, t);
    forall e | Live(s', e) && s'.contenders[e].phase.Moved? ensures s'.contenders[e].phase.taken.token != t {
      assert SoundKnowledge(s, s.contenders[e]);
      if s.contenders[e].phase.taken.token == t {
        assert Pending(s, s.contenders[e].name, e);
        assert InHand(s, t, e);
      }
    }
  }

  lemma {:induction false} RunKeepsTokenLost(s: State, more: seq<Step>, end: State, o: Token)
    requires TokenLost(s, o) && Run(s, more, end)
    ensures TokenLost(end, o)
    decreases |more|
  {
    if more != [] {
      StepKeepsTokenLost(s, more[0], o);
      RunKeepsTokenLost(Apply(s, more[0]), more[1..], end, o);
    }
  }

  lemma SettleBringsBack(s: State, step: Step, t: Token, d: Token) returns (more: seq<Step>, end: State)
    requires Ends(s, step, t) && Live(s, d) && InHand(s, t, d)
    ensures Resurfaces(Apply(s, step), more, end, t) && Calm(Apply(s, step), more)
  {
    var s' := Apply(s, step);
    more, end := [Settle(d)], Apply(s', Settle(d));
    assert more[1..] == [] && Run(end, [], end) && Calm(end, []);
    assert end.files[s.contenders[t].name].token == t;
  }

  /**
   * When an acquisition has ended its lock can come back, in some continuation or in a calm one,
   * exactly when a live reclaimer has it in hand at that moment.
   */
  lemma ReleasedLockReturnsExactly(s: State, step: Step, t: Token)
    requires Inv(s) && Ends(s, step, t)
    ensures (exists more, end :: Resurfaces(Apply(s, step), more, end, t)) <==> exists d :: Live(s, d) && InHand(s, t, d)
    ensures (exists more, end :: Resurfaces(Apply(s, step), more, end, t) && Calm(Apply(s, step), more))
       <==> exists d :: Live(s, d) && InHand(s, t, d)
  {
    if d :| Live(s, d) && InHand(s, t, d) {
      var more, end := SettleBringsBack(s, step, t, d);
    } else {
      EndedIsLost(s, step, t);
      forall more, end ensures !Resurfaces(Apply(s, step), more, end, t) {
        if Run(Apply(s, step), more, end) { RunKeepsTokenLost(Apply(s, step), more, end, t); }
      }
    }
  }

  predicate Harmless(phase: Phase, owner: Pid) {
    phase.Trying? || phase.Inside? || phase.Gone? || (phase.Saw? && phase.owner == owner)
  }

  /** The lock of `t`, which has ended, is in place, its process lives, and no stale reading of it is about. */
  ghost predicate LeftBehind(s: State, t: Token) {
    && Live(s, t) && s.contenders[t].phase.Gone?
    && OnFile(s, t) && s.files[s.contenders[t].name].owner == s.contenders[t].pid
    && forall u :: Live(s, u) && s.contenders[u].name == s.contenders[t].name
         ==> Harmless(s.contenders[u].phase, s.contenders[t].pid)
  }

  /** `u` wants the lock and does not have it; it may give up. */
  predicate Outside(s: State, t: Token, u: Token) {
    && t in s.contenders && u in s.contenders && s.contenders[u].name == s.contenders[t].name
    && (s.contenders[u].phase.Trying? || s.contenders[u].phase.Saw? || s.contenders[u].phase.Gone?)
  }

  lemma StepKeepsLeftBehind(s: State, t: Token, step: Step)
    requires LeftBehind(s, t) && Enabled(s, step) && step != Die(s.contenders[t].pid)
    ensures LeftBehind(Apply(s, step), t)
  {
  }

  lemma StepKeepsOutside(s: State, t: Token, u: Token, step: Step)
    requires LeftBehind(s, t) && Outside(s, t, u) && Enabled(s, step)
    ensures Outside(Apply(s, step), t, u)
  {
  }

  /** While that process lives nobody gets the lock any more, the process itself included. */
  lemma {:induction false} LeftBehindBlocks(s: State, t: Token, u: Token, more: seq<Step>, end: State)
    requires LeftBehind(s, t) && Outside(s, t, u) && Run(s, more, end)
    ensures s.contenders[t].pid in end.dead || (LeftBehind(end, t) && Outside(end, t, u))
    decreases |more|
  {
    if more != [] {
      var next := Apply(s, more[0]);
      if more[0] == Die(s.contenders[t].pid) {
        RunKeepsDead(next, more[1..], end, s.contenders[t].pid);
      } else {
        StepKeepsIdentity(s, more[0], t);
        StepKeepsLeftBehind(s, t, more[0]);
        StepKeepsOutside(s, t, u, more[0]);
        LeftBehindBlocks(next, t, u, more[1..], end);
      }
    }
  }

  lemma {:induction false} RunKeepsDead(s: State, more: seq<Step>, end: State, pid: Pid)
    requires Run(s, more, end) && pid in s.dead
    ensures pid in end.dead
    decreases |more|
  {
    if more != [] { RunKeepsDead(Apply(s, more[0]), more[1..], end, pid); }
  }
}
