/**
 * Publication of a verified toolchain: every staged file is moved into the tool directory, the file
 * it replaces first being moved aside; when a step raises an error the moves are undone. Which step
 * raises what is the parameter `trouble`, indexed by the steps made so far.
 */
module ToolchainPublication {
  import opened Common

  type Contents = seq<byte>

  type Directory = map<string, Contents>

  datatype StagingName = Verified(name: string) | Previous(name: string)

  type Staging = map<StagingName, Contents>

  /** An `Interrupt` is an exception outside Python's `Exception`, such as `KeyboardInterrupt`. */
  datatype Trouble = Fine | Error | Interrupt

  datatype Outcome = Published | RolledBack | Abandoned

  ghost predicate FineBetween(trouble: nat -> Trouble, from: nat, to: nat) {
    forall s :: from <= s < to ==> trouble(s).Fine?
  }

  /** The steps of the first `k` turns: a check, the move of an older file where there is one, the placing. */
  ghost function StepsOfTurns(prior: Directory, names: seq<string>, k: nat): nat
    requires k <= |names|
  {
    2 * k + |NameSet(names[..k]) * prior.Keys|
  }

  /** The index of the last step, the verification of the published tools. */
  ghost function LastStep(prior: Directory, names: seq<string>): nat {
    StepsOfTurns(prior, names, |names|)
  }

  /**
   * `steps` is the number of steps made when `k` files are placed, each after a check and, where there
   * was one, the move of an older file, and the next turn is unfinished.
   */
  ghost predicate StepsMade(prior: Directory, names: seq<string>, k: nat, moved: bool, steps: int)
  {
    && k <= |names|
    && var extra := steps - StepsOfTurns(prior, names, k);
    if k == |names| then extra == 0 else PartOfTurn(names[k] in prior, extra, moved)
  }

  /** An unfinished turn of the loop has made `extra` steps. */
  predicate PartOfTurn(existed: bool, extra: int, moved: bool) {
    if existed then 0 <= extra <= 2 && (moved <==> extra == 2) else 0 <= extra <= 1 && !moved
  }

  lemma NameSetSnoc(names: seq<string>, k: nat)
    requires Distinct(names) && k < |names|
    ensures NameSet(names[..k + 1]) == NameSet(names[..k]) + {names[k]}
    ensures names[k] !in NameSet(names[..k])
  {
    assert names[..k + 1] == names[..k] + [names[k]];
  }

  /** The directory `prior` with the staged files `placed` in it and the files `aside` taken out. */
  ghost function Layout(prior: Directory, staged: Directory, placed: set<string>, aside: set<string>): Directory
    requires placed <= staged.Keys
  {
    (prior - aside) + map n | n in placed :: staged[n]
  }

  ghost function Restrict(prior: Directory, names: set<string>): Directory {
    map n | n in names && n in prior :: prior[n]
  }

  /** The published files are the staged ones, and every other file is as before. */
  ghost predicate AllInPlace(prior: Directory, staged: Directory, names: seq<string>, tools: Directory) {
    && (forall n :: n in tools <==> n in prior || n in names)
    && (forall n :: n in names ==> n in staged && n in tools && tools[n] == staged[n])
    && (forall n :: n in prior && n !in names ==> n in tools && tools[n] == prior[n])
  }

  lemma AllPlacedExactly(prior: Directory, staged: Directory, names: seq<string>)
    requires NameSet(names) <= staged.Keys
    ensures AllInPlace(prior, staged, names, Layout(prior, staged, NameSet(names), {}))
  {
    assert forall n :: n in names ==> n in NameSet(names);
  }

  lemma LayoutOfNothing(prior: Directory, staged: Directory)
    ensures Layout(prior, staged, {}, {}) == prior
  {
  }

  lemma MovedAside(prior: Directory, staged: Directory, placed: set<string>, name: string)
    requires placed <= staged.Keys && name !in placed
    ensures Layout(prior, staged, placed, {}) - {name} == Layout(prior, staged, placed, {name})
  {
  }

  lemma Placed(prior: Directory, staged: Directory, placed: set<string>, aside: set<string>, name: string)
    requires placed <= staged.Keys && name in staged && aside <= {name}
    ensures Layout(prior, staged, placed, aside)[name := staged[name]] == Layout(prior, staged, placed + {name}, {})
  {
  }

  /** Removing what was placed and restoring what was moved aside gives the prior directory back. */
  lemma Undone(prior: Directory, staged: Directory, placed: set<string>, aside: set<string>)
    requires placed <= staged.Keys && aside <= prior.Keys
    ensures Layout(prior, staged, placed, aside) - placed + Restrict(prior, placed + aside) == prior
  {
  }

  ghost predicate BackedUp(prior: Directory, staging: Staging, backups: seq<string>) {
    && Distinct(backups)
    && forall n :: n in backups ==> n in prior && Previous(n) in staging && staging[Previous(n)] == prior[n]
  }

  ghost predicate StillStaged(staged: Directory, staging: Staging, names: seq<string>, k: nat)
  {
    && k <= |names|
    && forall i :: k <= i < |names| ==>
      names[i] in staged && Verified(names[i]) in staging && staging[Verified(names[i])] == staged[names[i]]
  }

  /** `k` files are in place; if `moved`, the file the next one replaces is moved aside. */
  ghost predicate Midway(
    prior: Directory, staged: Directory, names: seq<string>, k: nat, moved: bool, tools: Directory)
  {
    && Distinct(names) && NameSet(names) <= staged.Keys
    && k <= |names| && (moved ==> k < |names| && names[k] in prior)
    && NameSet(names[..k]) <= staged.Keys
    && tools == Layout(prior, staged, NameSet(names[..k]), if moved then {names[k]} else {})
  }

  /** `backups` lists the replaced files among the first `k` (and the one moved aside). */
  ghost predicate BackupsAre(prior: Directory, names: seq<string>, k: nat, moved: bool, backups: seq<string>)
  {
    && k <= |names| && (moved ==> k < |names|)
    && NameSet(backups) == (NameSet(names[..k]) + if moved then {names[k]} else {}) * prior.Keys
  }

  /** The state of the publication between two of its moves. */
  ghost predicate InProgress(
    prior: Directory, staged: Directory, names: seq<string>, k: nat, moved: bool,
    tools: Directory, staging: Staging, backups: seq<string>)
  {
    && Midway(prior, staged, names, k, moved, tools)
    && StillStaged(staged, staging, names, k)
    && BackedUp(prior, staging, backups)
    && BackupsAre(prior, names, k, moved, backups)
  }

  lemma NextIsUntouched(
    prior: Directory, staged: Directory, names: seq<string>, k: nat, tools: Directory, staging: Staging, backups: seq<string>)
    requires k < |names| && InProgress(prior, staged, names, k, false, tools, staging, backups)
    ensures names[k] in staged && Verified(names[k]) in staging && staging[Verified(names[k])] == staged[names[k]]
    ensures names[k] !in backups
    ensures names[k] in tools <==> names[k] in prior
    ensures names[k] in prior ==> tools[names[k]] == prior[names[k]]
  {
    NameSetSnoc(names, k);
    assert NameSet(backups) <= NameSet(names[..k]);
    assert forall n :: n in backups ==> n in NameSet(backups);
  }

  lemma AfterMoveAside(
    prior: Directory, staged: Directory, names: seq<string>, k: nat, tools: Directory, staging: Staging, backups: seq<string>)
    requires k < |names| && InProgress(prior, staged, names, k, false, tools, staging, backups)
    requires names[k] in tools
    ensures InProgress(prior, staged, names, k, true, tools - {names[k]},
                       staging[Previous(names[k]) := tools[names[k]]], backups + [names[k]])
  {
    var name := names[k];
    NextIsUntouched(prior, staged, names, k, tools, staging, backups);
    NameSetSnoc(names, k);
    MovedAside(prior, staged, NameSet(names[..k]), name);
    assert NameSet(backups + [name]) == NameSet(backups) + {name};
  }

  lemma AfterPlace(
    prior: Directory, staged: Directory, names: seq<string>, k: nat, moved: bool,
    tools: Directory, staging: Staging, backups: seq<string>)
    requires k < |names| && InProgress(prior, staged, names, k, moved, tools, staging, backups)
    requires !moved ==> names[k] !in tools
    ensures Verified(names[k]) in staging
    ensures InProgress(prior, staged, names, k + 1, false, tools[names[k] := staging[Verified(names[k])]],
                       staging - {Verified(names[k])}, backups)
  {
    var name := names[k];
    NameSetSnoc(names, k);
    assert names[k] in NameSet(names);
    Placed(prior, staged, NameSet(names[..k]), if moved then {name} else {}, name);
    assert moved <==> name in prior;
  }

  lemma AddOne(s: set<string>, n: string)
    requires n !in s
    ensures |s + {n}| == |s| + 1
  {
  }

  lemma {:induction false} DistinctSize(names: seq<string>)
    requires Distinct(names)
    ensures |NameSet(names)| == |names|
  {
    if names != [] {
      var last := |names| - 1;
      DistinctSize(names[..last]);
      NameSetSnoc(names, last);
      AddOne(NameSet(names[..last]), names[last]);
      assert names[..last + 1] == names;
    } else {
      assert NameSet(names) == {};
    }
  }

  /** Backups are as many as the files replaced. */
  lemma BackupCount(prior: Directory, names: seq<string>, k: nat, moved: bool, backups: seq<string>)
    requires Distinct(names) && Distinct(backups) && k <= |names| && (moved ==> k < |names| && names[k] in prior)
    requires BackupsAre(prior, names, k, moved, backups)
    ensures |backups| == |NameSet(names[..k]) * prior.Keys| + if moved then 1 else 0
  {
    var replaced := NameSet(names[..k]) * prior.Keys;
    DistinctSize(backups);
    if moved {
      NameSetSnoc(names, k);
      assert NameSet(backups) == replaced + {names[k]};
      AddOne(replaced, names[k]);
    } else {
      assert NameSet(backups) == replaced;
    }
  }

  /** Steps, troubles and bookkeeping so far; `before` counts the steps of the finished turns. */
  ghost predicate Accounted(
    prior: Directory, names: seq<string>, k: nat, moved: bool, raised: Trouble, published: seq<string>,
    backups: seq<string>, before: int, steps: nat, trouble: nat -> Trouble)
  {
    && k <= |names| && published == names[..k] && FineBetween(trouble, 0, steps)
    && before == 2 * k + |backups| - (if moved then 1 else 0)
    && (if raised.Fine? then !moved && steps == before
        else k < |names| && raised == trouble(steps) && PartOfTurn(names[k] in prior, steps - before, moved))
  }

  /** The steps made are tied to the prior directory. */
  lemma CountSteps(
    prior: Directory, staged: Directory, names: seq<string>, k: nat, moved: bool, tools: Directory, staging: Staging,
    raised: Trouble, published: seq<string>, backups: seq<string>, before: int, steps: nat, trouble: nat -> Trouble)
    requires InProgress(prior, staged, names, k, moved, tools, staging, backups)
    requires Accounted(prior, names, k, moved, raised, published, backups, before, steps, trouble)
    requires raised.Fine? ==> k == |names|
    ensures StepsMade(prior, names, k, moved, steps)
  {
    BackupCount(prior, names, k, moved, backups);
  }

  lemma SubsetSize(a: set<string>, b: set<string>)
    requires a <= b
    ensures |a| <= |b|
  {
    assert b == a + (b - a);
  }

  lemma TurnSteps(prior: Directory, names: seq<string>, k: nat)
    requires Distinct(names) && k < |names|
    ensures StepsOfTurns(prior, names, k + 1) == StepsOfTurns(prior, names, k) + if names[k] in prior then 3 else 2
  {
    var before, after := NameSet(names[..k]) * prior.Keys, NameSet(names[..k + 1]) * prior.Keys;
    NameSetSnoc(names, k);
    if names[k] in prior {
      assert after == before + {names[k]};
      AddOne(before, names[k]);
    } else {
      assert after == before;
    }
  }

  lemma TurnsTakeSteps(prior: Directory, names: seq<string>, j: nat, k: nat)
    requires j <= k <= |names|
    ensures StepsOfTurns(prior, names, j) <= StepsOfTurns(prior, names, k)
  {
    assert forall n :: n in names[..j] ==> n in names[..k];
    SubsetSize(NameSet(names[..j]) * prior.Keys, NameSet(names[..k]) * prior.Keys);
  }

  /** The verification is the last step, and no step before it comes after the loop. */
  lemma StepsAreBounded(prior: Directory, names: seq<string>, k: nat, moved: bool, steps: nat)
    requires Distinct(names) && k <= |names| && StepsMade(prior, names, k, moved, steps)
    ensures steps <= LastStep(prior, names)
    ensures steps == LastStep(prior, names) <==> k == |names|
    ensures k < |names| ==> steps < StepsOfTurns(prior, names, k + 1)
  {
    if k < |names| {
      TurnSteps(prior, names, k);
      TurnsTakeSteps(prior, names, k + 1, |names|);
    }
  }

  /** The number of steps made tells how far the publication has come. */
  lemma StepsDetermine(prior: Directory, names: seq<string>, j: nat, moved: bool, k: nat, aside: bool, steps: nat)
    requires Distinct(names) && j <= k <= |names| && (j == |names| ==> !moved) && (k == |names| ==> !aside)
    requires StepsMade(prior, names, j, moved, steps) && StepsMade(prior, names, k, aside, steps)
    ensures j == k && moved == aside
  {
    StepsAreBounded(prior, names, j, moved, steps);
    if j < k { TurnsTakeSteps(prior, names, j + 1, k); }
  }

  /** The first step that is not fine is the one the publication ended with. */
  lemma FirstTrouble(prior: Directory, names: seq<string>, trouble: nat -> Trouble, k: nat, moved: bool, steps: nat, s: nat)
    requires Distinct(names) && k <= |names| && StepsMade(prior, names, k, moved, steps)
    requires FineBetween(trouble, 0, steps) && (trouble(steps).Fine? ==> k == |names|)
    requires s <= LastStep(prior, names) && FineBetween(trouble, 0, s) && !trouble(s).Fine?
    ensures s == steps
  {
    StepsAreBounded(prior, names, k, moved, steps);
  }

  lemma Restored(base: Directory, prior: Directory, names: seq<string>, j: nat)
    requires Distinct(names) && j < |names| && names[j] in prior
    ensures (base + Restrict(prior, NameSet(names[..j])))[names[j] := prior[names[j]]]
         == base + Restrict(prior, NameSet(names[..j + 1]))
  {
    NameSetSnoc(names, j);
  }

  lemma NextBackup(prior: Directory, staging: Staging, backups: seq<string>, j: nat)
    requires Distinct(backups) && j < |backups| && BackedUp(prior, staging, backups[j..])
    ensures backups[j] in prior && Previous(backups[j]) in staging && staging[Previous(backups[j])] == prior[backups[j]]
    ensures BackedUp(prior, staging - {Previous(backups[j])}, backups[j + 1..])
  {
    assert backups[j] in backups[j..];
    assert forall m :: m in backups[j + 1..] ==> m in backups[j..] && m != backups[j];
  }

  ghost predicate LeavesAt(
    prior: Directory, staged: Directory, names: seq<string>, k: nat, moved: bool, steps: nat, tools: Directory)
  {
    Midway(prior, staged, names, k, moved, tools) && StepsMade(prior, names, k, moved, steps)
  }

  /** An interrupt at step `steps` leaves the directory `tools`. */
  ghost predicate MayLeave(prior: Directory, staged: Directory, names: seq<string>, steps: nat, tools: Directory) {
    exists k: nat, moved :: LeavesAt(prior, staged, names, k, moved, steps, tools)
  }

  class ToolDirectory {
    var tools: Directory
    var staging: Staging

    constructor (tools: Directory, staging: Staging)
      ensures this.tools == tools && this.staging == staging
    {
      this.tools, this.staging := tools, staging;
    }

    /** `os.replace(tool, backup)` for the file that `names[k]` is about to replace. */
    method MoveAside(
      ghost prior: Directory, ghost staged: Directory, names: seq<string>, k: nat, backups: seq<string>)
      returns (backups': seq<string>)
      requires k < |names| && InProgress(prior, staged, names, k, false, tools, staging, backups)
      requires names[k] in tools
      modifies this
      ensures tools == old(tools) - {names[k]}
      ensures InProgress(prior, staged, names, k, true, tools, staging, backups') && |backups'| == |backups| + 1
    {
      AfterMoveAside(prior, staged, names, k, tools, staging, backups);
      var name := names[k];
      staging := staging[Previous(name) := tools[name]];
      tools := tools - {name};
      backups' := backups + [name];
    }

    /** `os.replace(temporary, tool)` for `names[k]`. */
    method Place(
      ghost prior: Directory, ghost staged: Directory, names: seq<string>, k: nat, ghost moved: bool, ghost backups: seq<string>)
      requires k < |names| && InProgress(prior, staged, names, k, moved, tools, staging, backups)
      requires !moved ==> names[k] !in tools
      modifies this
      ensures InProgress(prior, staged, names, k + 1, false, tools, staging, backups)
    {
      AfterPlace(prior, staged, names, k, moved, tools, staging, backups);
      var name := names[k];
      tools := tools[name := staging[Verified(name)]];
      staging := staging - {Verified(name)};
    }

    method RemovePublished(published: seq<string>)
      modifies this`tools
      ensures tools == old(tools) - NameSet(published)
    {
      var i := |published|;
      while i > 0
        invariant 0 <= i <= |published|
        invariant tools == old(tools) - NameSet(published[i..])
      {
        i := i - 1;
        assert published[i..] == [published[i]] + published[i + 1..];
        assert NameSet(published[i..]) == NameSet(published[i + 1..]) + {published[i]};
        tools := tools - {published[i]};
      }
      assert published[0..] == published;
    }

    method RestoreBackups(ghost prior: Directory, backups: seq<string>)
      requires BackedUp(prior, staging, backups)
      modifies this
      ensures tools == old(tools) + Restrict(prior, NameSet(backups))
    {
      var j := 0;
      assert Restrict(prior, NameSet(backups[..0])) == map[];
      while j < |backups|
        invariant 0 <= j <= |backups|
        invariant tools == old(tools) + Restrict(prior, NameSet(backups[..j]))
        invariant BackedUp(prior, staging, backups[j..])
      {
        var n := backups[j];
        NextBackup(prior, staging, backups, j);
        Restored(old(tools), prior, backups, j);
        tools := tools[n := staging[Previous(n)]];
        staging := staging - {Previous(n)};
        j := j + 1;
      }
      assert backups[..j] == backups;
    }

    /** The symlink check of `names[k]`, and the move of an existing file out of its way. */
    method MakeRoom(
      ghost prior: Directory, ghost staged: Directory, names: seq<string>, k: nat, backups: seq<string>,
      trouble: nat -> Trouble, steps: nat)
      returns (raised: Trouble, moved: bool, backups': seq<string>, steps': nat)
      requires k < |names| && InProgress(prior, staged, names, k, false, tools, staging, backups)
      modifies this
      ensures InProgress(prior, staged, names, k, moved, tools, staging, backups')
      ensures raised.Fine? && !moved ==> names[k] !in tools
      ensures |backups'| == |backups| + if moved then 1 else 0
      ensures steps <= steps' && FineBetween(trouble, steps, steps')
      ensures var extra := steps' - steps;
              if names[k] in old(tools) then extra <= 2 && (moved <==> extra == 2) && (raised.Fine? <==> moved)
              else extra <= 1 && !moved && (raised.Fine? <==> extra == 1)
      ensures raised != Fine ==> raised == trouble(steps')
    {
      moved, backups', steps' := false, backups, steps;
      raised := trouble(steps');
      if raised != Fine { return; }
      steps' := steps' + 1;
      if names[k] in tools {
        raised := trouble(steps');
        if raised == Fine {
          backups' := MoveAside(prior, staged, names, k, backups);
          steps', moved := steps' + 1, true;
        }
      }
    }

    /** One turn of the publication loop. */
    method PlaceNext(
      ghost prior: Directory, ghost staged: Directory, names: seq<string>, k: nat, backups: seq<string>,
      trouble: nat -> Trouble, steps: nat)
      returns (raised: Trouble, moved: bool, backups': seq<string>, steps': nat)
      requires k < |names| && InProgress(prior, staged, names, k, false, tools, staging, backups)
      modifies this
      ensures raised.Fine? ==> !moved && steps' - steps == 2 + |backups'| - |backups|
      ensures !raised.Fine? ==> PartOfTurn(names[k] in prior, steps' - steps, moved) && |backups'| == |backups| + if moved then 1 else 0
      ensures raised.Fine? ==> InProgress(prior, staged, names, k + 1, false, tools, staging, backups')
      ensures !raised.Fine? ==> InProgress(prior, staged, names, k, moved, tools, staging, backups')
      ensures steps <= steps' && FineBetween(trouble, steps, steps')
      ensures raised != Fine ==> raised == trouble(steps')
    {
      NextIsUntouched(prior, staged, names, k, tools, staging, backups);
      raised, moved, backups', steps' := MakeRoom(prior, staged, names, k, backups, trouble, steps);
      if raised != Fine { return; }
      raised := trouble(steps');
      if raised != Fine { return; }
      steps' := steps' + 1;
      Place(prior, staged, names, k, moved, backups');
      moved := false;
    }

    /** A turn of the loop with its bookkeeping. */
    method Turn(
      ghost prior: Directory, ghost staged: Directory, names: seq<string>, k: nat, published: seq<string>,
      backups: seq<string>, ghost before: int, steps: nat, trouble: nat -> Trouble)
      returns (raised: Trouble, k': nat, moved: bool, published': seq<string>, backups': seq<string>, ghost before': int, steps': nat)
      requires k < |names| && InProgress(prior, staged, names, k, false, tools, staging, backups)
      requires Accounted(prior, names, k, false, Fine, published, backups, before, steps, trouble)
      modifies this
      ensures InProgress(prior, staged, names, k', moved, tools, staging, backups')
      ensures Accounted(prior, names, k', moved, raised, published', backups', before', steps', trouble)
      ensures k' == if raised.Fine? then k + 1 else k
    {
      ghost var grown := published + [names[k]];
      assert grown == names[..k + 1];
      raised, moved, backups', steps' := PlaceNext(prior, staged, names, k, backups, trouble, steps);
      if raised.Fine? {
        k', published', before' := k + 1, published + [names[k]], steps';
      } else {
        k', published', before' := k, published, steps;
      }
    }

    /** Places `names` until the first step that is not fine. */
    method PlaceAll(ghost staged: Directory, names: seq<string>, trouble: nat -> Trouble)
      returns (raised: Trouble, k: nat, moved: bool, published: seq<string>, backups: seq<string>, steps: nat)
      requires Distinct(names) && StillStaged(staged, staging, names, 0)
      modifies this
      ensures InProgress(old(tools), staged, names, k, moved, tools, staging, backups)
      ensures published == names[..k]
      ensures raised.Fine? <==> k == |names|
      ensures StepsMade(old(tools), names, k, moved, steps)
      ensures FineBetween(trouble, 0, steps)
      ensures raised != Fine ==> raised == trouble(steps)
    {
      raised, k, moved, published, backups, steps := Fine, 0, false, [], [], 0;
      Started(tools, staged, names, staging);
      ghost var prior := tools;
      ghost var before: int := 0;
      while k < |names| && raised.Fine?
        invariant InProgress(prior, staged, names, k, moved, tools, staging, backups)
        invariant Accounted(prior, names, k, moved, raised, published, backups, before, steps, trouble)
        decreases |names| - k, raised.Fine?
      {
        raised, k, moved, published, backups, before, steps :=
          Turn(prior, staged, names, k, published, backups, before, steps, trouble);
      }
      CountSteps(prior, staged, names, k, moved, tools, staging, raised, published, backups, before, steps, trouble);
    }

    /** The rollback: remove what was placed, latest first, then bring the previous files back. */
    method RollBack(
      ghost prior: Directory, ghost staged: Directory, ghost names: seq<string>, ghost k: nat, ghost moved: bool,
      published: seq<string>, backups: seq<string>)
      requires InProgress(prior, staged, names, k, moved, tools, staging, backups) && published == names[..k]
      modifies this
      ensures tools == prior
    {
      ghost var aside := if moved then {names[k]} else {};
      Undone(prior, staged, NameSet(published), aside);
      assert Restrict(prior, NameSet(backups)) == Restrict(prior, NameSet(published) + aside);
      RemovePublished(published);
      RestoreBackups(prior, backups);
    }

    /**
     * Publication with its final verification as the last step and the staging directory removed in
     * every case. The first step that is not fine decides: everything that is an error leaves the tool
     * directory exactly as it was, an interrupt leaves it as it then is.
     */
    method Publish(ghost staged: Directory, names: seq<string>, trouble: nat -> Trouble)
      returns (outcome: Outcome, k: nat, moved: bool, steps: nat)
      requires Distinct(names) && StillStaged(staged, staging, names, 0)
      modifies this
      ensures NameSet(names) <= staged.Keys
      ensures outcome.Published? ==> tools == Layout(old(tools), staged, NameSet(names), {})
      ensures outcome.Published? ==> AllInPlace(old(tools), staged, names, tools)
      ensures outcome.RolledBack? ==> tools == old(tools)
      ensures outcome.Abandoned? ==> MayLeave(old(tools), staged, names, steps, tools)
      ensures staging == map[]
      ensures k <= |names| && StepsMade(old(tools), names, k, moved, steps) && FineBetween(trouble, 0, steps)
      ensures trouble(steps).Fine? ==> k == |names|
      ensures outcome == match trouble(steps) case Fine => Published case Error => RolledBack case Interrupt => Abandoned
      ensures outcome.Published? <==> FineBetween(trouble, 0, LastStep(old(tools), names) + 1)
      ensures forall s: nat :: s <= LastStep(old(tools), names) && FineBetween(trouble, 0, s) && !trouble(s).Fine? ==>
                s == steps && outcome == if trouble(s) == Error then RolledBack else Abandoned
    {
      var raised, published, backups;
      ghost var prior := tools;
      raised, k, moved, published, backups, steps := PlaceAll(staged, names, trouble);
      StepsAreBounded(prior, names, k, moved, steps);
      if raised == Fine {
        assert names[..|names|] == names;
        raised := trouble(steps);  // verification of the published tools
      }
      forall s: nat | s <= LastStep(prior, names) && FineBetween(trouble, 0, s) && !trouble(s).Fine? ensures s == steps {
        FirstTrouble(prior, names, trouble, k, moved, steps, s);
      }
      if raised == Fine {
        AllPlacedExactly(prior, staged, names);
        outcome := Published;
      } else if raised == Error {
        RollBack(prior, staged, names, k, moved, published, backups);
        outcome := RolledBack;
      } else {
        assert LeavesAt(prior, staged, names, k, moved, steps, tools);
        outcome := Abandoned;
      }
      staging := map[];
    }
  }

  lemma Started(prior: Directory, staged: Directory, names: seq<string>, staging: Staging)
    requires Distinct(names) && StillStaged(staged, staging, names, 0)
    ensures InProgress(prior, staged, names, 0, false, prior, staging, [])
  {
    LayoutOfNothing(prior, staged);
    assert names[..0] == [] && NameSet([]) == {};
    assert forall n :: n in names ==> exists i :: 0 <= i < |names| && names[i] == n;
  }

  ghost predicate AlreadyIdentical(prior: Directory, staged: Directory, name: string) {
    name in prior && name in staged && prior[name] == staged[name]
  }

  /**
   * An interrupt is not rolled back and the files moved aside are deleted with the staging directory.
   * What is left is all or nothing exactly when no tool is missing and either nothing that was placed
   * so far, or nothing that was still to be placed, changes the directory.
   */
  lemma InterruptTearsExactly(
    prior: Directory, staged: Directory, names: seq<string>, k: nat, moved: bool, tools: Directory)
    requires Midway(prior, staged, names, k, moved, tools)
    ensures AllOrNothing(prior, staged, names, tools)
       <==> !moved && ((forall n :: n in names[..k] ==> AlreadyIdentical(prior, staged, n))
                       || (forall n :: n in names[k..] ==> AlreadyIdentical(prior, staged, n)))
  {
    assert names == names[..k] + names[k..];
    if moved {
      assert names[k] !in names[..k] && names[k] in names[k..];
      assert names[k] !in tools && names[k] in NameSet(names);
    } else {
      LayoutIsPriorExactly(prior, staged, names[..k]);
      LayoutIsAllExactly(prior, staged, names[..k], names[k..]);
      assert NameSet(names) == NameSet(names[..k]) + NameSet(names[k..]);
    }
  }

  ghost predicate AllOrNothing(prior: Directory, staged: Directory, names: seq<string>, tools: Directory)
  {
    && NameSet(names) <= staged.Keys
    && (tools == prior || tools == Layout(prior, staged, NameSet(names), {}))
  }

  /** What an interrupt leaves is determined by the step it hits. */
  lemma InterruptIsDetermined(
    prior: Directory, staged: Directory, names: seq<string>, steps: nat, tools: Directory, other: Directory)
    requires MayLeave(prior, staged, names, steps, tools) && MayLeave(prior, staged, names, steps, other)
    ensures tools == other
  {
    var j: nat, moved :| LeavesAt(prior, staged, names, j, moved, steps, tools);
    var k: nat, aside :| LeavesAt(prior, staged, names, k, aside, steps, other);
    if j <= k {
      StepsDetermine(prior, names, j, moved, k, aside, steps);
    } else {
      StepsDetermine(prior, names, k, aside, j, moved, steps);
    }
  }

  lemma ReplacedToolIsLost(prior: Directory, staged: Directory, names: seq<string>, i: nat)
    returns (steps: nat, tools: Directory)
    requires Distinct(names) && NameSet(names) <= staged.Keys && i < |names| && names[i] in prior
    ensures steps <= LastStep(prior, names)
    ensures MayLeave(prior, staged, names, steps, tools) && !AllOrNothing(prior, staged, names, tools)
  {
    NameSetSnoc(names, i);
    assert forall n :: n in names[..i] ==> n in NameSet(names);
    steps := StepsOfTurns(prior, names, i) + 2;
    tools := Layout(prior, staged, NameSet(names[..i]), {names[i]});
    assert LeavesAt(prior, staged, names, i, true, steps, tools);
    StepsAreBounded(prior, names, i, true, steps);
    assert names[i] !in tools && names[i] in NameSet(names);
  }

  lemma FirstToolIsAlone(prior: Directory, staged: Directory, names: seq<string>) returns (steps: nat, tools: Directory)
    requires Distinct(names) && NameSet(names) <= staged.Keys && |names| > 1
    requires names[0] !in prior && names[1] !in prior
    ensures steps <= LastStep(prior, names)
    ensures MayLeave(prior, staged, names, steps, tools) && !AllOrNothing(prior, staged, names, tools)
  {
    assert names[0] in NameSet(names) && names[1] in NameSet(names);
    steps, tools := StepsOfTurns(prior, names, 1), Layout(prior, staged, {names[0]}, {});
    FirstName(names);
    assert Midway(prior, staged, names, 1, false, tools);
    assert LeavesAt(prior, staged, names, 1, false, steps, tools);
    TurnsTakeSteps(prior, names, 1, |names|);
    OneOfTwo(prior, staged, NameSet(names), names[0], names[1]);
  }

  lemma FirstName(names: seq<string>)
    requires names != []
    ensures NameSet(names[..1]) == {names[0]}
  {
    assert names[..1] == [names[0]];
  }

  lemma OneOfTwo(prior: Directory, staged: Directory, all: set<string>, placed: string, missing: string)
    requires all <= staged.Keys && placed in all && missing in all
    requires placed !in prior && missing !in prior && placed != missing
    ensures Layout(prior, staged, {placed}, {}) != prior && Layout(prior, staged, {placed}, {}) != Layout(prior, staged, all, {})
  {
    assert placed in Layout(prior, staged, {placed}, {}) && missing !in Layout(prior, staged, {placed}, {});
    assert missing in Layout(prior, staged, all, {});
  }

  lemma AtMostOneNewTool(prior: Directory, staged: Directory, names: seq<string>, steps: nat, tools: Directory)
    requires Distinct(names) && NameSet(names) <= staged.Keys && |names| <= 1 && forall n :: n in names ==> n !in prior
    requires MayLeave(prior, staged, names, steps, tools)
    ensures AllOrNothing(prior, staged, names, tools)
  {
    var k: nat, moved :| LeavesAt(prior, staged, names, k, moved, steps, tools);
    if k == |names| {
      assert names[..k] == names;
    } else {
      assert k == 0 && names[0] in names;
      assert names[..0] == [] && NameSet([]) == {};
      LayoutOfNothing(prior, staged);
    }
  }

  /** Whatever step an interrupt hits, the directory is all or nothing. */
  ghost predicate InterruptIsHarmless(prior: Directory, staged: Directory, names: seq<string>)
  {
    && NameSet(names) <= staged.Keys
    && forall s: nat, tools :: s <= LastStep(prior, names) && MayLeave(prior, staged, names, s, tools)
                            ==> AllOrNothing(prior, staged, names, tools)
  }

  /** It is so exactly when the publication places at most one file and replaces none. */
  lemma InterruptIsHarmlessExactly(prior: Directory, staged: Directory, names: seq<string>)
    requires Distinct(names) && NameSet(names) <= staged.Keys
    ensures InterruptIsHarmless(prior, staged, names) <==> |names| <= 1 && forall n :: n in names ==> n !in prior
  {
    if i :| 0 <= i < |names| && names[i] in prior {
      var s, tools := ReplacedToolIsLost(prior, staged, names, i);
      assert names[i] in names;
    } else if |names| > 1 {
      var s, tools := FirstToolIsAlone(prior, staged, names);
    } else {
      forall s: nat, tools | s <= LastStep(prior, names) && MayLeave(prior, staged, names, s, tools)
        ensures AllOrNothing(prior, staged, names, tools)
      {
        AtMostOneNewTool(prior, staged, names, s, tools);
      }
    }
  }

  /** An update of one existing tool, interrupted between the two moves: neither version is left. */
  method InterruptedUpdate(name: string, current: Contents, update: Contents, trouble: nat -> Trouble)
    returns (tools: Directory)
    requires trouble(0) == trouble(1) == Fine && trouble(2) == Interrupt
    ensures tools == map[]
  {
    var directory := new ToolDirectory(map[name := current], map[Verified(name) := update]);
    ghost var prior := directory.tools;
    var outcome, k, moved, steps := directory.Publish(map[name := update], [name], trouble);
    OneUpdate(name, current, update);
    assert FineBetween(trouble, 0, 2);
    assert steps == 2;
    InterruptIsDetermined(prior, map[name := update], [name], 2, directory.tools, map[]);
    tools := directory.tools;
  }

  lemma OneUpdate(name: string, current: Contents, update: Contents)
    ensures LastStep(map[name := current], [name]) == 3
    ensures MayLeave(map[name := current], map[name := update], [name], 2, map[])
  {
    var names, prior, staged := [name], map[name := current], map[name := update];
    assert NameSet(names) == {name} && names[..0] == [] && names[..1] == names;
    assert NameSet([]) == {} && NameSet(names) * prior.Keys == {name} && NameSet([]) * prior.Keys == {};
    assert Layout(prior, staged, {}, {name}) == map[];
    assert LeavesAt(prior, staged, names, 0, true, 2, map[]);
  }

  lemma LayoutIsPriorExactly(prior: Directory, staged: Directory, names: seq<string>)
    requires NameSet(names) <= staged.Keys
    ensures Layout(prior, staged, NameSet(names), {}) == prior <==> forall n :: n in names ==> AlreadyIdentical(prior, staged, n)
  {
    var layout := Layout(prior, staged, NameSet(names), {});
    assert forall n :: n in names ==> n in layout && layout[n] == staged[n];
  }

  lemma LayoutIsAllExactly(prior: Directory, staged: Directory, done: seq<string>, rest: seq<string>)
    requires NameSet(done) <= staged.Keys && NameSet(rest) <= staged.Keys
    requires forall n :: n in rest ==> n !in done
    ensures Layout(prior, staged, NameSet(done), {}) == Layout(prior, staged, NameSet(done) + NameSet(rest), {})
       <==> forall n :: n in rest ==> AlreadyIdentical(prior, staged, n)
  {
    var now := Layout(prior, staged, NameSet(done), {});
    var all := Layout(prior, staged, NameSet(done) + NameSet(rest), {});
    if n :| n in rest && !AlreadyIdentical(prior, staged, n) {
      assert n in all && all[n] == staged[n];
      assert (n in now <==> n in prior) && (n in now ==> now[n] == prior[n]);
    } else {
      forall n ensures (n in now <==> n in all) && (n in now ==> now[n] == all[n]) {
        assert n in rest ==> AlreadyIdentical(prior, staged, n);
      }
    }
  }
}
