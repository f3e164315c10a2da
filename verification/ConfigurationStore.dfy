/**
 * The revision-checked configuration store and its clients. One save is a transaction of small file
 * actions under a lock; the process may stop, by an error or a crash, between any two of them.
 */
module ConfigurationStore {
  import opened Common

  datatype Configuration = Configuration(revision: nat, body: string)

  /** A file is absent, cut short by a crash, or one whole serialized configuration. */
  datatype File = Missing | Partial | Whole(config: Configuration)

  datatype Files = Files(target: File, backup: File, backupCopy: File)

  datatype Refusal = Unreadable | NeedsBaseRevision | RevisionConflict | RevisionNotIncreasing

  /** The test made with the lock held, before anything is written. */
  function Check(target: File, config: Configuration, expected: Option<nat>): Option<Refusal> {
    match target
    case Partial => Some(Unreadable)
    case Missing => if expected.Some? && expected.value != 0 then Some(RevisionConflict) else None
    case Whole(current) =>
      if expected.None? then Some(NeedsBaseRevision)
      else if expected.value != current.revision then Some(RevisionConflict)
      else if config.revision <= current.revision then Some(RevisionNotIncreasing)
      else None
  }

  /** How far a save has come. A stage is left by one file action. */
  datatype Stage = Checked | Staged | CopyStarted | Copied | BackedUp | Published

  function Next(stage: Stage, replacing: bool): Stage {
    match stage
    case Checked => Staged
    case Staged => if replacing then CopyStarted else Published
    case CopyStarted => Copied
    case Copied => BackedUp
    case BackedUp => Published
    case Published => Published
  }

  function Act(files: Files, config: Configuration, replacing: bool, stage: Stage): Files {
    match stage
    case Checked => files  // the new version is written under a fresh temporary name
    case Staged => if replacing then files.(backupCopy := Partial) else files.(target := Whole(config))
    case CopyStarted => files.(backupCopy := files.target)
    case Copied => files.(backup := files.backupCopy, backupCopy := Missing)
    case BackedUp => files.(target := Whole(config))
    case Published => files
  }

  /** The first `actions` file actions of a save that passed its check. */
  function After(files: Files, config: Configuration, replacing: bool, stage: Stage, actions: nat): (Files, Stage)
    decreases actions
  {
    if actions == 0 || stage == Published then (files, stage)
    else After(Act(files, config, replacing, stage), config, replacing, Next(stage, replacing), actions - 1)
  }

  // The store object -------------------------------------------------------------------------------

  datatype Outcome = Refused(reason: Refusal) | Stopped | Saved

  class Store {
    var target: File
    var backup: File
    var backupCopy: File

    ghost function Contents(): Files
      reads this
    {
      Files(target, backup, backupCopy)
    }

    constructor ()
      ensures Contents() == Files(Missing, Missing, Missing)
    {
      target, backup, backupCopy := Missing, Missing, Missing;
    }

    /** Saves `config`; the process stops after `actions` file actions if that is too few. */
    method Save(config: Configuration, expected: Option<nat>, actions: nat) returns (outcome: Outcome)
      modifies this
      ensures match Check(old(target), config, expected)
              case Some(reason) => outcome == Refused(reason) && Contents() == old(Contents())
              case None =>
                var (files, stage) := After(old(Contents()), config, old(target).Whole?, Checked, actions);
                Contents() == files && outcome == if stage == Published then Saved else Stopped
      ensures outcome.Saved? ==> target == Whole(config) && backup == if old(target).Whole? then old(target) else old(backup)
      ensures !outcome.Saved? ==> target == old(target)
      ensures outcome == Refused(Unreadable) <==> old(target) == Partial
      ensures outcome == Refused(NeedsBaseRevision) <==> old(target).Whole? && expected == None
      ensures outcome == Refused(RevisionConflict) <==>
                || (old(target) == Missing && expected.Some? && expected.value != 0)
                || (old(target).Whole? && expected.Some? && expected.value != old(target).config.revision)
      ensures outcome == Refused(RevisionNotIncreasing) <==>
                old(target).Whole? && expected == Some(old(target).config.revision) && config.revision <= old(target).config.revision
    {
      var current := target;
      if current.Partial? { return Refused(Unreadable); }
      var actual := if current.Whole? then current.config.revision else 0;
      if current.Whole? && expected.None? { return Refused(NeedsBaseRevision); }
      if expected.Some? && actual != expected.value { return Refused(RevisionConflict); }
      if current.Whole? && config.revision <= current.config.revision { return Refused(RevisionNotIncreasing); }
      var left := actions;
      ghost var before, replacing := Contents(), current.Whole?;
      if left == 0 { return Stopped; }
      var temporary := Whole(config);
      left := left - 1;
      assert After(before, config, replacing, Checked, actions) == After(Contents(), config, replacing, Staged, left);
      if current.Whole? {
        if left == 0 { return Stopped; }
        backupCopy := Partial;
        left := left - 1;
        assert After(before, config, true, Checked, actions) == After(Contents(), config, true, CopyStarted, left);
        if left == 0 { return Stopped; }
        backupCopy := target;
        left := left - 1;
        assert After(before, config, true, Checked, actions) == After(Contents(), config, true, Copied, left);
        if left == 0 { return Stopped; }
        backup, backupCopy := backupCopy, Missing;
        left := left - 1;
        assert After(before, config, true, Checked, actions) == After(Contents(), config, true, BackedUp, left);
      }
      if left == 0 { return Stopped; }
      target := temporary;
      assert After(before, config, replacing, Checked, actions) == After(Contents(), config, replacing, Published, left - 1);
      return Saved;
    }
  }

  // The clients ------------------------------------------------------------------------------------

  // Any number of clients create, load, import, edit and save, using the same file actions as `Store`.

  /** Where a draft came from decides the base revision it may replace. */
  datatype Origin = Created | Loaded(config: Configuration) | Imported

  function Base(origin: Origin): Option<nat> {
    match origin
    case Created => Some(0)
    case Loaded(config) => Some(config.revision)
    case Imported => None
  }

  datatype Request = Request(config: Configuration, expected: nat)

  datatype SaveKind = AsDrafted | AsNextRevision

  /** What `save` and `save_revision` hand to the store; `None` when they refuse the draft. */
  function RequestFor(origin: Origin, draft: Configuration, kind: SaveKind): Option<Request> {
    var base := Base(origin);
    match kind
    case AsDrafted =>
      if base.Some? then Some(Request(draft, base.value))
      else if draft.revision != 0 then None
      else Some(Request(draft, 0))
    case AsNextRevision =>
      if base.None? then None
      else Some(Request(draft.(revision := base.value + 1), base.value))
  }

  datatype Phase = Idle | Saving(config: Configuration, previous: File, stage: Stage)

  datatype Client = Client(origin: Origin, draft: Configuration, phase: Phase)

  type ClientId = nat

  /**
   * The world of one configuration id. `history` lists every version ever published, oldest first,
   * `sources` where the draft of each came from; `created` is the draft the id was created with.
   */
  datatype World = World(
    files: Files, owner: Option<ClientId>, clients: map<ClientId, Client>, history: seq<Configuration>,
    sources: seq<Origin>, created: Option<Configuration>)

  datatype Step =
    | Create(c: ClientId, body: string)
    | Load(c: ClientId)
    | Import(c: ClientId, config: Configuration)
    | Edit(c: ClientId, body: string)
    | Share(c: ClientId, with: ClientId)
    | Begin(c: ClientId, kind: SaveKind)
    | Advance(c: ClientId)
    | Leave(c: ClientId)

  predicate IdleClient(w: World, c: ClientId) {
    c in w.clients && w.clients[c].phase.Idle?
  }

  predicate MayBegin(w: World, c: ClientId, kind: SaveKind) {
    && IdleClient(w, c) && w.owner.None?
    && var request := RequestFor(w.clients[c].origin, w.clients[c].draft, kind);
       request.Some? && Check(w.files.target, request.value.config, Some(request.value.expected)).None?
  }

  predicate MayStart(w: World, c: ClientId) {
    c in w.clients ==> IdleClient(w, c)
  }

  /**
   * `Create` draws a fresh id, so it can only be the first thing that happens to it. `Import` keeps the
   * id of the imported file. `Share` copies a draft, which is an immutable value, base revision included.
   * `Leave` ends a save at any stage: normally, by an error or by a crash, which frees the
   * lock too.
   */
  predicate Enabled(w: World, step: Step) {
    match step
    case Create(_, _) => w.clients == map[]
    case Import(c, _) => MayStart(w, c)
    case Load(c) => MayStart(w, c) && w.files.target.Whole?
    case Edit(c, _) => IdleClient(w, c)
    case Share(c, d) => IdleClient(w, c) && MayStart(w, d)
    case Begin(c, kind) => MayBegin(w, c, kind)
    case Advance(c) => c in w.clients && w.clients[c].phase.Saving? && w.clients[c].phase.stage != Published
    case Leave(c) => c in w.clients && w.clients[c].phase.Saving?
  }

  predicate Publishes(w: World, c: ClientId) {
    && Enabled(w, Advance(c))
    && Next(w.clients[c].phase.stage, w.clients[c].phase.previous.Whole?) == Published
  }

  function Apply(w: World, step: Step): World
    requires Enabled(w, step)
  {
    match step
    case Create(c, body) =>
      var draft := Configuration(0, body);
      w.(clients := w.clients[c := Client(Created, draft, Idle)], created := Some(draft))
    case Import(c, config) => w.(clients := w.clients[c := Client(Imported, config, Idle)])
    case Load(c) =>
      var config := w.files.target.config;
      w.(clients := w.clients[c := Client(Loaded(config), config, Idle)])
    case Edit(c, body) =>
      var client := w.clients[c];
      w.(clients := w.clients[c := client.(draft := Configuration(client.draft.revision + 1, body))])
    case Share(c, d) => w.(clients := w.clients[d := w.clients[c]])
    case Begin(c, kind) =>
      var client := w.clients[c];
      var request := RequestFor(client.origin, client.draft, kind).value;
      w.(owner := Some(c), clients := w.clients[c := client.(phase := Saving(request.config, w.files.target, Checked))])
    case Advance(c) =>
      var client := w.clients[c];
      var p := client.phase;
      var replacing := p.previous.Whole?;
      w.(files := Act(w.files, p.config, replacing, p.stage),
         clients := w.clients[c := client.(phase := p.(stage := Next(p.stage, replacing)))],
         history := if Publishes(w, c) then w.history + [p.config] else w.history,
         sources := if Publishes(w, c) then w.sources + [client.origin] else w.sources)
    case Leave(c) => w.(owner := None, clients := w.clients[c := w.clients[c].(phase := Idle)])
  }

  const EMPTY := World(Files(Missing, Missing, Missing), None, map[], [], [], None)

  ghost predicate Run(w: World, steps: seq<Step>, end: World)
    decreases |steps|
  {
    if steps == [] then end == w
    else Enabled(w, steps[0]) && Run(Apply(w, steps[0]), steps[1..], end)
  }

  ghost function AdvanceMany(w: World, c: ClientId, actions: nat): World
    requires c in w.clients && w.clients[c].phase.Saving?
    decreases actions
  {
    if actions == 0 || w.clients[c].phase.stage == Published then w
    else AdvanceMany(Apply(w, Advance(c)), c, actions - 1)
  }

  /** A stopped `Store.Save` leaves the files as the machine does after as many `Advance` steps. */
  lemma {:induction false} SaveIsTheMachine(w: World, c: ClientId, actions: nat)
    requires c in w.clients && w.clients[c].phase.Saving?
    ensures var p := w.clients[c].phase;
            var w' := AdvanceMany(w, c, actions);
            c in w'.clients && w'.clients[c].phase.Saving?
            && After(w.files, p.config, p.previous.Whole?, p.stage, actions) == (w'.files, w'.clients[c].phase.stage)
    decreases actions
  {
    if actions != 0 && w.clients[c].phase.stage != Published {
      SaveIsTheMachine(Apply(w, Advance(c)), c, actions - 1);
    }
  }

  // Invariants -------------------------------------------------------------------------------------

  ghost predicate Increasing(history: seq<Configuration>) {
    forall i, j :: 0 <= i < j < |history| ==> history[i].revision < history[j].revision
  }

  function Last(history: seq<Configuration>): Configuration
    requires history != []
  {
    history[|history| - 1]
  }

  /** At every moment the target is the newest version and the backup that one or its predecessor. */
  ghost predicate CrashConsistent(files: Files, history: seq<Configuration>) {
    && Increasing(history)
    && files.target == (if history == [] then Missing else Whole(Last(history)))
    && (match files.backup
        case Missing => |history| <= 1
        case Partial => false
        case Whole(kept) => history != [] && (kept == Last(history) || (|history| >= 2 && kept == history[|history| - 2])))
  }

  ghost predicate KnowsOnlyPublished(client: Client, history: seq<Configuration>) {
    client.origin.Loaded? ==> client.origin.config in history
  }

  /** What holds of the save in progress, by stage. */
  ghost predicate SaveOk(client: Client, files: Files, history: seq<Configuration>)
  {
    && client.phase.Saving?
    && var p := client.phase;
    && !p.previous.Partial?
    && (p.stage != Published ==>
          && files.target == p.previous
          && (p.previous.Whole? ==> p.previous.config.revision < p.config.revision)
          && (p.previous.Whole? && client.origin.Loaded? ==> p.previous.config == client.origin.config))
    && (p.stage in {CopyStarted, Copied, BackedUp} ==> p.previous.Whole?)
    && (p.stage == Copied ==> files.backupCopy == files.target)
    && (p.stage == BackedUp ==> files.backup == files.target)
    && (p.stage == Published ==> files.target == Whole(p.config) && (p.previous.Whole? ==> files.backup == p.previous))
  }

  ghost predicate Inv(w: World) {
    && CrashConsistent(w.files, w.history)
    && (forall c :: c in w.clients ==> KnowsOnlyPublished(w.clients[c], w.history))
    && (forall c :: c in w.clients && w.clients[c].phase.Saving? ==> w.owner == Some(c))
    && (forall c :: c in w.clients && w.clients[c].phase.Saving? ==> SaveOk(w.clients[c], w.files, w.history))
  }

  lemma SameRevisionSameVersion(history: seq<Configuration>, a: Configuration, b: Configuration)
    requires Increasing(history) && a in history && b in history && a.revision == b.revision
    ensures a == b
  {
  }

  lemma BeginKeepsInv(w: World, c: ClientId, kind: SaveKind)
    requires Inv(w) && Enabled(w, Begin(c, kind))
    ensures Inv(Apply(w, Begin(c, kind)))
  {
    var client := w.clients[c];
    if w.files.target.Whole? && client.origin.Loaded? {
      SameRevisionSameVersion(w.history, w.files.target.config, client.origin.config);
    }
  }

  lemma AdvanceKeepsInv(w: World, c: ClientId)
    requires Inv(w) && Enabled(w, Advance(c))
    ensures Inv(Apply(w, Advance(c)))
  {
    var p := w.clients[c].phase;
    if Publishes(w, c) {
      PublishKeepsConsistency(w, c);
    }
  }

  lemma PublishKeepsConsistency(w: World, c: ClientId)
    requires Inv(w) && Publishes(w, c)
    ensures var w' := Apply(w, Advance(c)); CrashConsistent(w'.files, w'.history)
  {
    var p := w.clients[c].phase;
    var more := w.history + [p.config];
    assert Last(more) == p.config;
    if p.previous.Whole? {
      assert more[|more| - 2] == Last(w.history);
    }
  }

  lemma StepKeepsInv(w: World, step: Step)
    requires Inv(w) && Enabled(w, step)
    ensures Inv(Apply(w, step))
  {
    match step
    case Begin(c, kind) => BeginKeepsInv(w, c, kind);
    case Advance(c) => AdvanceKeepsInv(w, c);
    case _ =>
  }

  lemma {:induction false} RunKeepsInv(w: World, steps: seq<Step>, end: World)
    requires Inv(w) && Run(w, steps, end)
    ensures Inv(end)
    decreases |steps|
  {
    if steps != [] {
      StepKeepsInv(w, steps[0]);
      RunKeepsInv(Apply(w, steps[0]), steps[1..], end);
    }
  }

  // Provenance -------------------------------------------------------------------------------------

  /** `config` comes from the created draft: it is that draft, or an edit of it, which has a later revision. */
  ghost predicate FromCreated(w: World, config: Configuration) {
    w.created.Some? && (config.revision == 0 ==> config == w.created.value)
  }

  ghost predicate ClientTraced(w: World, client: Client) {
    client.origin.Created? ==> FromCreated(w, client.draft) && (client.phase.Saving? ==> FromCreated(w, client.phase.config))
  }

  ghost predicate Traced(w: World) {
    && |w.sources| == |w.history|
    && (w.clients == map[] ==> w.history == [])
    && (w.history != [] ==> !w.sources[0].Loaded?)
    && (forall i :: 0 <= i < |w.sources| && w.sources[i].Created? ==> FromCreated(w, w.history[i]))
    && (forall c :: c in w.clients ==> ClientTraced(w, w.clients[c]))
  }

  lemma StepKeepsTraced(w: World, step: Step)
    requires Inv(w) && Traced(w) && Enabled(w, step)
    ensures Traced(Apply(w, step))
  {
    var w' := Apply(w, step);
    if step.Advance? && Publishes(w, step.c) {
      assert KnowsOnlyPublished(w.clients[step.c], w.history);
      assert ClientTraced(w, w.clients[step.c]);
    }
    forall c | c in w'.clients ensures ClientTraced(w', w'.clients[c]) {
      if step.Share? && c == step.with {
        assert ClientTraced(w, w.clients[step.c]);
      } else if c in w.clients {
        assert ClientTraced(w, w.clients[c]);
      }
    }
  }

  lemma {:induction false} RunKeepsTraced(w: World, steps: seq<Step>, end: World)
    requires Inv(w) && Traced(w) && Run(w, steps, end)
    ensures Traced(end)
    decreases |steps|
  {
    if steps != [] {
      StepKeepsInv(w, steps[0]);
      StepKeepsTraced(w, steps[0]);
      RunKeepsTraced(Apply(w, steps[0]), steps[1..], end);
    }
  }

  // Results ----------------------------------------------------------------------------------------

  /** Whatever was interrupted where, both files hold whole published versions, the backup no newer. */
  lemma FilesAreAlwaysWhole(steps: seq<Step>, w: World)
    requires Run(EMPTY, steps, w)
    ensures Increasing(w.history)
    ensures w.files.target == if w.history == [] then Missing else Whole(Last(w.history))
    ensures w.files.backup.Missing? || (w.files.backup.Whole? && w.files.backup.config in w.history)
    ensures w.files.backup.Whole? ==> w.files.target.Whole? && w.files.backup.config.revision <= w.files.target.config.revision
  {
    RunKeepsInv(EMPTY, steps, w);
  }

  lemma RevisionDeterminesContent(steps: seq<Step>, w: World, a: Configuration, b: Configuration)
    requires Run(EMPTY, steps, w)
    requires a in w.history && b in w.history && a.revision == b.revision
    ensures a == b
  {
    RunKeepsInv(EMPTY, steps, w);
    SameRevisionSameVersion(w.history, a, b);
  }

  /** A client that loaded replaces exactly the version it loaded. */
  lemma NoLostUpdate(steps: seq<Step>, w: World, c: ClientId)
    requires Run(EMPTY, steps, w)
    requires Publishes(w, c) && w.clients[c].origin.Loaded?
    ensures w.files.target == Whole(w.clients[c].origin.config)
  {
    RunKeepsInv(EMPTY, steps, w);
  }

  /** ... and is refused exactly when somebody published in between, or its draft did not advance. */
  lemma LoadedSaveAcceptedExactly(steps: seq<Step>, w: World, c: ClientId)
    requires Run(EMPTY, steps, w)
    requires IdleClient(w, c) && w.owner.None? && w.clients[c].origin.Loaded?
    ensures MayBegin(w, c, AsDrafted) <==>
            w.files.target == Whole(w.clients[c].origin.config)
            && w.clients[c].draft.revision > w.clients[c].origin.config.revision
    ensures MayBegin(w, c, AsNextRevision) <==> w.files.target == Whole(w.clients[c].origin.config)
  {
    RunKeepsInv(EMPTY, steps, w);
    if w.files.target.config.revision == w.clients[c].origin.config.revision {
      SameRevisionSameVersion(w.history, w.files.target.config, w.clients[c].origin.config);
    }
  }

  /** A finished replacement leaves its immediate predecessor in the backup. */
  lemma ReplacementKeepsPredecessor(steps: seq<Step>, w: World, c: ClientId)
    requires Run(EMPTY, steps, w)
    requires Publishes(w, c) && w.files.target.Whole?
    ensures var w' := Apply(w, Advance(c));
            w'.files.target == Whole(w.clients[c].phase.config) && w'.files.backup == w.files.target
  {
    RunKeepsInv(EMPTY, steps, w);
  }

  /** `end` is reached while the save that `c` began goes on. */
  ghost predicate SaveGoesOn(w: World, c: ClientId, kind: SaveKind, more: seq<Step>, end: World) {
    && Enabled(w, Begin(c, kind)) && Run(Apply(w, Begin(c, kind)), more, end)
    && forall i :: 0 <= i < |more| ==> more[i] != Leave(c)
  }

  lemma {:induction false} SaveKeepsItsVersion(w: World, c: ClientId, more: seq<Step>, end: World)
    requires Run(w, more, end) && (forall i :: 0 <= i < |more| ==> more[i] != Leave(c))
    requires c in w.clients && w.clients[c].phase.Saving?
    ensures c in end.clients && end.clients[c].phase.Saving?
    ensures end.clients[c].phase.config == w.clients[c].phase.config && end.clients[c].phase.previous == w.clients[c].phase.previous
    decreases |more|
  {
    if more != [] {
      var next := Apply(w, more[0]);
      assert more[0] != Leave(c);
      assert forall i :: 0 <= i < |more| - 1 ==> more[1..][i] == more[i + 1];
      SaveKeepsItsVersion(next, c, more[1..], end);
    }
  }

  /** The version a save is begun with: the draft, with its own revision or the next one. */
  lemma BeginsWithTheDraft(w: World, c: ClientId, kind: SaveKind)
    requires Enabled(w, Begin(c, kind))
    ensures var draft, p := w.clients[c].draft, Apply(w, Begin(c, kind)).clients[c].phase;
      && p.Saving? && p.previous == w.files.target && p.config.body == draft.body
      && (kind == AsDrafted ==> p.config.revision == draft.revision)
      && (kind == AsNextRevision ==> p.config.revision == 1 + if p.previous.Whole? then p.previous.config.revision else 0)
  {
  }

  lemma PublishingStep(w: World, c: ClientId)
    requires Inv(w) && Publishes(w, c)
    ensures w.files.target == w.clients[c].phase.previous
    ensures var after := Apply(w, Advance(c));
      after.history == w.history + [w.clients[c].phase.config] && after.files.target == Whole(w.clients[c].phase.config)
  {
    assert SaveOk(w.clients[c], w.files, w.history);
  }

  /**
   * What a save publishes is the draft with which it was begun: its content always, its own revision when
   * it is saved as drafted, and exactly one more than the replaced revision when it is saved as the next
   * one. Whatever others do meanwhile, the publishing step makes it the newest version and the target.
   */
  lemma PublishesTheDraft(steps: seq<Step>, w: World, c: ClientId, kind: SaveKind, more: seq<Step>, end: World)
    requires Run(EMPTY, steps, w) && SaveGoesOn(w, c, kind, more, end) && Publishes(end, c)
    ensures var draft, after := w.clients[c].draft, Apply(end, Advance(c));
      && |after.history| == |end.history| + 1 && after.history[..|end.history|] == end.history
      && after.files.target == Whole(Last(after.history)) && Last(after.history).body == draft.body
      && (kind == AsDrafted ==> Last(after.history).revision == draft.revision)
      && (kind == AsNextRevision ==>
            Last(after.history).revision == 1 + if end.files.target.Whole? then end.files.target.config.revision else 0)
  {
    RunKeepsInv(EMPTY, steps, w);
    BeginKeepsInv(w, c, kind);
    BeginsWithTheDraft(w, c, kind);
    var begun := Apply(w, Begin(c, kind));
    RunKeepsInv(begun, more, end);
    SaveKeepsItsVersion(begun, c, more, end);
    PublishingStep(end, c);
  }

  /** A client that loads gets the newest version; a created or imported draft is what was given. */
  lemma DraftsBeginAsGiven(steps: seq<Step>, w: World, step: Step)
    requires Run(EMPTY, steps, w) && Enabled(w, step)
    ensures step.Load? ==> w.history != [] && Apply(w, step).clients[step.c] == Client(Loaded(Last(w.history)), Last(w.history), Idle)
    ensures step.Create? ==> Apply(w, step).clients[step.c] == Client(Created, Configuration(0, step.body), Idle)
    ensures step.Import? ==> Apply(w, step).clients[step.c] == Client(Imported, step.config, Idle)
    ensures step.Share? ==> Apply(w, step).clients[step.with] == w.clients[step.c]
  {
    RunKeepsInv(EMPTY, steps, w);
  }

  /** An edit changes the content and makes the revision one greater; what the draft is based on stays. */
  lemma EditsAdvance(w: World, c: ClientId, body: string)
    requires Enabled(w, Edit(c, body))
    ensures var before, after := w.clients[c], Apply(w, Edit(c, body)).clients[c];
      after.draft.body == body && after.draft.revision == before.draft.revision + 1 && after.origin == before.origin
    ensures forall d :: d in w.clients && d != c ==> Apply(w, Edit(c, body)).clients[d] == w.clients[d]
  {
  }

  /** A draft that was not loaded is accepted over a stored version only from creation and over revision 0. */
  lemma UnloadedSaveAcceptedExactly(w: World, c: ClientId, kind: SaveKind)
    requires IdleClient(w, c) && w.owner.None? && w.files.target.Whole?
    requires !w.clients[c].origin.Loaded?
    ensures MayBegin(w, c, kind) <==>
            && w.clients[c].origin.Created?
            && w.files.target.config.revision == 0
            && (kind == AsNextRevision || w.clients[c].draft.revision > 0)
  {
  }

  /** Somebody imported this id at revision 0 and saved that, and nothing has been saved since. */
  ghost predicate ImportedZeroStored(w: World) {
    w.sources == [Imported] && w.history != [] && w.history[0].revision == 0
  }

  /**
   * The guarantee of `NoLostUpdate` does not extend to drafts that were never loaded. A stored version
   * other than the draft the id was created with, which the holder of a created draft therefore
   * neither wrote nor saw, is replaced by that holder exactly when it is an imported revision 0 and the
   * revision to be stored is not 0.
   */
  lemma UnseenOverwriteExactly(steps: seq<Step>, w: World, c: ClientId, kind: SaveKind)
    requires Run(EMPTY, steps, w)
    requires IdleClient(w, c) && w.owner.None? && w.clients[c].origin.Created?
    requires w.files.target.Whole? && Some(w.files.target.config) != w.created
    ensures MayBegin(w, c, kind) <==> ImportedZeroStored(w) && (kind == AsNextRevision || w.clients[c].draft.revision > 0)
  {
    RunKeepsInv(EMPTY, steps, w);
    RunKeepsTraced(EMPTY, steps, w);
    UnloadedSaveAcceptedExactly(w, c, kind);
    var stored := w.files.target.config;
    assert stored == Last(w.history);
    if stored.revision == 0 {
      OnlyOneRevisionZero(w.history);
      assert w.sources == [w.sources[0]];
    }
  }

  lemma OnlyOneRevisionZero(history: seq<Configuration>)
    requires Increasing(history) && history != [] && Last(history).revision == 0
    ensures |history| == 1
  {
    assert history[0].revision <= history[|history| - 1].revision;
  }

  /** Without imports the content replaced by a created draft is the draft it was edited from. */
  lemma CreatedReplacesItself(steps: seq<Step>, w: World, c: ClientId, kind: SaveKind)
    requires Run(EMPTY, steps, w)
    requires MayBegin(w, c, kind) && w.clients[c].origin.Created? && w.files.target.Whole?
    ensures ImportedZeroStored(w) || w.created == Some(w.files.target.config)
  {
    if Some(w.files.target.config) != w.created {
      UnseenOverwriteExactly(steps, w, c, kind);
    }
  }

  lemma {:induction false} RunSnoc(w: World, steps: seq<Step>, middle: World, step: Step)
    requires Run(w, steps, middle) && Enabled(middle, step)
    ensures Run(w, steps + [step], Apply(middle, step))
    decreases |steps|
  {
    if steps == [] {
      assert [step][1..] == [];
      assert Run(Apply(w, step), [], Apply(w, step));
    } else {
      assert (steps + [step])[1..] == steps[1..] + [step];
      RunSnoc(Apply(w, steps[0]), steps[1..], middle, step);
    }
  }

  lemma Then(steps: seq<Step>, w: World, step: Step) returns (more: seq<Step>, next: World)
    requires Run(EMPTY, steps, w) && Enabled(w, step)
    ensures next == Apply(w, step) && Run(EMPTY, more, next)
  {
    RunSnoc(EMPTY, steps, w, step);
    more, next := steps + [step], Apply(w, step);
  }

  function ImportSaved(mine: string, theirs: string): World {
    var draft, first := Configuration(0, mine), Configuration(0, theirs);
    World(Files(Whole(first), Missing, Missing), None,
          map[1 := Client(Created, draft, Idle), 0 := Client(Imported, first, Idle)], [first], [Imported], Some(draft))
  }

  function BothDrafts(mine: string, theirs: string): World {
    var draft, first := Configuration(0, mine), Configuration(0, theirs);
    World(Files(Missing, Missing, Missing), None,
          map[1 := Client(Created, draft, Idle), 0 := Client(Imported, first, Idle)], [], [], Some(draft))
  }

  lemma CreatedAndImported(mine: string, theirs: string) returns (steps: seq<Step>)
    ensures Run(EMPTY, steps, BothDrafts(mine, theirs))
  {
    var w := EMPTY;
    steps := [];
    steps, w := Then(steps, w, Create(1, mine));
    steps, w := Then(steps, w, Import(0, Configuration(0, theirs)));
    assert w == BothDrafts(mine, theirs);
  }

  function ImportStaged(mine: string, theirs: string): World {
    var first := Configuration(0, theirs);
    var w := BothDrafts(mine, theirs);
    w.(owner := Some(0), clients := w.clients[0 := Client(Imported, first, Saving(first, Missing, Staged))])
  }

  lemma ImportIsStaged(mine: string, theirs: string) returns (steps: seq<Step>)
    ensures Run(EMPTY, steps, ImportStaged(mine, theirs))
  {
    steps := CreatedAndImported(mine, theirs);
    var w := BothDrafts(mine, theirs);
    steps, w := Then(steps, w, Begin(0, AsDrafted));
    steps, w := Then(steps, w, Advance(0));
    assert w == ImportStaged(mine, theirs);
  }

  lemma ImportIsSaved(mine: string, theirs: string) returns (steps: seq<Step>)
    ensures Run(EMPTY, steps, ImportSaved(mine, theirs))
  {
    steps := ImportIsStaged(mine, theirs);
    var w := ImportStaged(mine, theirs);
    steps, w := Then(steps, w, Advance(0));
    steps, w := Then(steps, w, Leave(0));
    assert w == ImportSaved(mine, theirs);
  }

  /**
   * A configuration is created; before its draft is saved, a file with its id and other content is
   * imported and saved at revision 0; the edited draft then replaces that content unseen.
   */
  lemma UnseenOverwriteHappens(mine: string, edited: string, theirs: string) returns (steps: seq<Step>, w: World)
    ensures Run(EMPTY, steps, w) && Publishes(w, 1)
    ensures w.clients[1].origin == Created && w.created == Some(Configuration(0, mine))
    ensures w.files.target == Whole(Configuration(0, theirs)) && w.clients[1].phase.config == Configuration(1, edited)
  {
    steps := ImportIsSaved(mine, theirs);
    w := ImportSaved(mine, theirs);
    steps, w := Then(steps, w, Edit(1, edited));
    steps, w := Then(steps, w, Begin(1, AsDrafted));
    steps, w := SaveUpToPublication(steps, w, 1);
  }

  lemma SaveUpToPublication(steps: seq<Step>, w: World, c: ClientId) returns (more: seq<Step>, next: World)
    requires Run(EMPTY, steps, w) && c in w.clients && w.clients[c].phase.Saving?
    requires w.clients[c].phase.stage == Checked && w.clients[c].phase.previous.Whole?
    ensures Run(EMPTY, more, next) && Publishes(next, c)
    ensures next.files.target == w.files.target && next.created == w.created
    ensures next.clients[c].origin == w.clients[c].origin && next.clients[c].phase.config == w.clients[c].phase.config
  {
    more, next := Then(steps, w, Advance(c));
    more, next := Then(more, next, Advance(c));
    more, next := Then(more, next, Advance(c));
    more, next := Then(more, next, Advance(c));
  }
}
