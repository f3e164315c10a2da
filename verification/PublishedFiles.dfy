/**
 * Three documents that one save publishes one after the other, each by an atomic replacement, and that
 * readers read one after the other. Any number of writers and readers interleave; one that takes no
 * further step has crashed. What the documents hold is of no concern here; `RecoveryState` says what
 * a reader makes of them.
 */
module PublishedFiles {
  import opened Common

  datatype Files<+D> = Files(state: Option<D>, lock: Option<D>, evidence: Option<D>)

  datatype Save<+D> = Save(state: D, lock: D, evidence: D)

  /** The first `writes` of a save's three replacements. */
  function Written<D>(files: Files<D>, save: Save<D>, writes: nat): Files<D> {
    Files(if writes >= 1 then Some(save.state) else files.state,
          if writes >= 2 then Some(save.lock) else files.lock,
          if writes >= 3 then Some(save.evidence) else files.evidence)
  }

  datatype Writer<+D> = Writer(save: Save<D>, writes: nat)

  type Id = nat

  /** `saves` lists every save that was begun; a reader has the documents it has read so far. */
  datatype World<D> = World(
    files: Files<D>, writers: map<Id, Writer<D>>, readers: map<Id, seq<Option<D>>>, saves: seq<Save<D>>)

  datatype Step<+D> =
    | BeginSave(w: Id, save: Save<D>)
    | WriteNext(w: Id)
    | BeginLoad(r: Id)
    | ReadNext(r: Id)

  predicate Enabled<D>(world: World<D>, step: Step<D>) {
    match step
    case BeginSave(_, _) => true
    case WriteNext(w) => w in world.writers && world.writers[w].writes < 3
    case BeginLoad(_) => true
    case ReadNext(r) => r in world.readers && |world.readers[r]| < 3
  }

  /** Files are written, and read, in the order state, lock, evidence. */
  function WriteOne<D>(files: Files<D>, writer: Writer<D>): Files<D> {
    match writer.writes
    case 0 => files.(state := Some(writer.save.state))
    case 1 => files.(lock := Some(writer.save.lock))
    case _ => files.(evidence := Some(writer.save.evidence))
  }

  function ReadOne<D>(files: Files<D>, already: nat): Option<D> {
    match already
    case 0 => files.state
    case 1 => files.lock
    case _ => files.evidence
  }

  function Apply<D>(world: World<D>, step: Step<D>): World<D>
    requires Enabled(world, step)
  {
    match step
    case BeginSave(w, save) => world.(writers := world.writers[w := Writer(save, 0)], saves := world.saves + [save])
    case WriteNext(w) =>
      var writer := world.writers[w];
      world.(files := WriteOne(world.files, writer), writers := world.writers[w := writer.(writes := writer.writes + 1)])
    case BeginLoad(r) => world.(readers := world.readers[r := []])
    case ReadNext(r) =>
      var got := world.readers[r];
      world.(readers := world.readers[r := got + [ReadOne(world.files, |got|)]])
  }

  function Empty<D>(): World<D> {
    World(Files(None, None, None), map[], map[], [])
  }

  ghost predicate Run<D>(world: World<D>, steps: seq<Step<D>>, end: World<D>)
    decreases |steps|
  {
    if steps == [] then end == world
    else Enabled(world, steps[0]) && Run(Apply(world, steps[0]), steps[1..], end)
  }

  /** Consecutive writes of one undisturbed writer add up to `Written`. */
  lemma WritesAddUp<D>(files: Files<D>, save: Save<D>, writes: nat)
    requires writes < 3
    ensures WriteOne(Written(files, save, writes), Writer(save, writes)) == Written(files, save, writes + 1)
  {
  }

  /** The steps of a save that nothing interrupts, and of a load after it. */
  function SaveThenLoad<D>(w: Id, save: Save<D>, r: Id): seq<Step<D>> {
    [BeginSave(w, save), WriteNext(w), WriteNext(w), WriteNext(w), BeginLoad(r), ReadNext(r), ReadNext(r), ReadNext(r)]
  }

  /** Whatever was there before, such a load reads the three documents of the save, state, lock and evidence. */
  lemma SavedThenRead<D>(world: World<D>, w: Id, save: Save<D>, r: Id) returns (end: World<D>)
    ensures Run(world, SaveThenLoad(w, save, r), end)
    ensures end.files == Files(Some(save.state), Some(save.lock), Some(save.evidence))
    ensures r in end.readers && end.readers[r] == [Some(save.state), Some(save.lock), Some(save.evidence)]
  {
    var steps := SaveThenLoad(w, save, r);
    var a := Apply(world, steps[0]);
    var b := Apply(a, steps[1]);
    var c := Apply(b, steps[2]);
    var d := Apply(c, steps[3]);
    var e := Apply(d, steps[4]);
    var f := Apply(e, steps[5]);
    var g := Apply(f, steps[6]);
    end := Apply(g, steps[7]);
    Chain(world, steps, [world, a, b, c, d, e, f, g, end]);
  }

  /** A list of worlds, each reached from the one before by the step between them, is a run. */
  lemma {:induction false} Chain<D>(world: World<D>, steps: seq<Step<D>>, worlds: seq<World<D>>)
    requires |worlds| == |steps| + 1 && worlds[0] == world
    requires forall i :: 0 <= i < |steps| ==> Enabled(worlds[i], steps[i]) && worlds[i + 1] == Apply(worlds[i], steps[i])
    ensures Run(world, steps, worlds[|steps|])
    decreases |steps|
  {
    if steps != [] { Chain(worlds[1], steps[1..], worlds[1..]); }
  }

  ghost predicate SavedState<D>(document: Option<D>, saves: seq<Save<D>>) {
    document.Some? ==> exists k :: 0 <= k < |saves| && saves[k].state == document.value
  }

  ghost predicate Inv<D>(world: World<D>) {
    && (forall w :: w in world.writers ==> world.writers[w].save in world.saves)
    && SavedState(world.files.state, world.saves)
    && (forall r :: r in world.readers && world.readers[r] != [] ==> SavedState(world.readers[r][0], world.saves))
  }

  lemma SavedStateGrows<D>(document: Option<D>, saves: seq<Save<D>>, save: Save<D>)
    requires SavedState(document, saves)
    ensures SavedState(document, saves + [save])
  {
    if document.Some? {
      var k :| 0 <= k < |saves| && saves[k].state == document.value;
      assert (saves + [save])[k] == saves[k];
    }
  }

  lemma StepKeepsInv<D>(world: World<D>, step: Step<D>)
    requires Inv(world) && Enabled(world, step)
    ensures Inv(Apply(world, step))
  {
    match step
    case BeginSave(w, save) =>
      SavedStateGrows(world.files.state, world.saves, save);
      forall r | r in world.readers && world.readers[r] != [] ensures SavedState(world.readers[r][0], world.saves + [save]) {
        SavedStateGrows(world.readers[r][0], world.saves, save);
      }
    case WriteNext(w) =>
      var save := world.writers[w].save;
      var k :| 0 <= k < |world.saves| && world.saves[k] == save;
      assert SavedState(Some(save.state), world.saves);
    case _ =>
  }

  lemma {:induction false} RunKeepsInv<D>(world: World<D>, steps: seq<Step<D>>, end: World<D>)
    requires Inv(world) && Run(world, steps, end)
    ensures Inv(end)
    decreases |steps|
  {
    if steps != [] {
      StepKeepsInv(world, steps[0]);
      RunKeepsInv(Apply(world, steps[0]), steps[1..], end);
    }
  }

  /** Only saves of `permitted` are begun. */
  ghost predicate Begins<D(!new)>(steps: seq<Step<D>>, permitted: Save<D> -> bool) {
    forall i :: 0 <= i < |steps| && steps[i].BeginSave? ==> permitted(steps[i].save)
  }

  lemma {:induction false} SavesArePermitted<D(!new)>(
    world: World<D>, steps: seq<Step<D>>, end: World<D>, permitted: Save<D> -> bool)
    requires Run(world, steps, end) && Begins(steps, permitted)
    requires forall save :: save in world.saves ==> permitted(save)
    ensures forall save :: save in end.saves ==> permitted(save)
    decreases |steps|
  {
    if steps != [] {
      assert steps[0].BeginSave? ==> permitted(steps[0].save);
      assert forall i :: 0 <= i < |steps| - 1 ==> steps[1..][i] == steps[i + 1];
      SavesArePermitted(Apply(world, steps[0]), steps[1..], end, permitted);
    }
  }

  /** Whatever writers and readers did, the state document a reader has read belongs to a begun save. */
  lemma StateReadWasSaved<D(!new)>(steps: seq<Step<D>>, world: World<D>, r: Id, permitted: Save<D> -> bool)
    returns (save: Option<Save<D>>)
    requires Run(Empty<D>(), steps, world) && Begins(steps, permitted)
    requires r in world.readers && world.readers[r] != []
    ensures match world.readers[r][0]
            case None => save == None
            case Some(document) => save.Some? && save.value.state == document && save.value in world.saves && permitted(save.value)
  {
    RunKeepsInv(Empty<D>(), steps, world);
    SavesArePermitted(Empty<D>(), steps, world, permitted);
    var document := world.readers[r][0];
    assert SavedState(document, world.saves);
    if document.Some? {
      var k :| 0 <= k < |world.saves| && world.saves[k].state == document.value;
      save := Some(world.saves[k]);
    } else {
      save := None;
    }
  }
}
