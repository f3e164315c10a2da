/**
 * The published Recovery state: one authoritative file holding a lock with its evidence, and two
 * compatibility files repeating them. Each file is replaced atomically, the three are not; a reader
 * accepts only three files that agree.
 */
module RecoveryState {
  import opened Common
  import opened JsonLimits
  import opened PublishedFiles
  import opened RecoveryContracts
  import opened RecoveryGrammar
  import Ordering

  const MAX_STATE_BYTES: nat := 4 * 1024 * 1024

  /** The canonical JSON digest, Python's `str` of a value, and the encoded size of a document. */
  datatype Codec = Codec(digest: Json -> string, str: Json -> string, size: Json -> nat)

  function StateEntries(l: Lock, e: Evidence): seq<Entry> {
    [Entry("schema_version", Text("1")), Entry("lock", LockJson(l)), Entry("evidence", EvidenceJson(e))]
  }

  function StateJson(l: Lock, e: Evidence): Json {
    Object(StateEntries(l, e))
  }

  predicate Bound(l: Lock, e: Evidence, codec: Codec) {
    Ordering.Lower(e.lockDigest) == Ordering.Lower(LockDigest(l, codec.digest))
  }

  /** What a save may write: values that exist, of the annotated types, the evidence referring to the lock. */
  predicate Savable(l: Lock, e: Evidence, codec: Codec) {
    ValidLock(l) && ValidEvidence(e) && Typed(e) && Bound(l, e, codec)
  }

  predicate Readable(v: Json, codec: Codec) {
    codec.size(v) <= MAX_STATE_BYTES && WithinLimits(v, RECOVERY)
  }

  /** The check of three documents read as one generation. */
  function Load(files: Files<Json>, codec: Codec): Option<(Lock, Evidence)> {
    if files.state.None? || files.lock.None? || files.evidence.None? then None
    else
      var state, lock, evidence := files.state.value, files.lock.value, files.evidence.value;
      if !Readable(state, codec) || !Readable(lock, codec) || !Readable(evidence, codec) then None
      else if !state.Object? || !lock.Object? || !evidence.Object? then None
      else if Get(state.entries, "schema_version") != Some(Text("1")) then None
      else if Get(state.entries, "lock") != Some(lock) || Get(state.entries, "evidence") != Some(evidence) then None
      else
        var l, e := LockFrom(lock, codec.str), EvidenceFrom(evidence);
        if l.None? || e.None? || !Bound(l.value, e.value, codec) then None
        else Some((l.value, e.value))
  }

  /** At most 4 MiB, 10,000 nodes, 32 levels, and 65,536 characters in a string. */
  predicate Bounded(v: Json, codec: Codec) {
    codec.size(v) <= 4_194_304 && Nodes(v) <= 10_000 && Depth(v) <= 32 && Longest(v) <= 65_536
  }

  /** The state document holds version "1" and the two other documents. */
  predicate Repeats(state: Json, lock: Json, evidence: Json) {
    && state.Object? && Get(state.entries, "schema_version") == Some(Text("1"))
    && Get(state.entries, "lock") == Some(lock) && Get(state.entries, "evidence") == Some(evidence)
  }

  /** Three documents hold this pair, and the evidence names the digest of this lock, in either case. */
  ghost predicate Holds(state: Json, lock: Json, evidence: Json, l: Lock, e: Evidence, codec: Codec) {
    && Bounded(state, codec) && Bounded(lock, codec) && Bounded(evidence, codec)
    && Repeats(state, lock, evidence) && HoldsLock(lock, codec.str, l) && HoldsEvidence(evidence, e)
    && Ordering.Lower(e.lockDigest) == Ordering.Lower(codec.digest(IdentityJson(l)))
  }

  lemma LoadChecks(files: Files<Json>, codec: Codec, l: Lock, e: Evidence)
    requires files.state.Some? && files.lock.Some? && files.evidence.Some?
    ensures Load(files, codec) == Some((l, e)) <==>
      && Readable(files.state.value, codec) && Readable(files.lock.value, codec) && Readable(files.evidence.value, codec)
      && Repeats(files.state.value, files.lock.value, files.evidence.value)
      && files.lock.value.Object? && LockFrom(files.lock.value, codec.str) == Some(l)
      && files.evidence.value.Object? && EvidenceFrom(files.evidence.value) == Some(e) && Bound(l, e, codec)
  {
  }

  lemma ReadableExactly(v: Json, codec: Codec)
    ensures Readable(v, codec) <==> Bounded(v, codec)
  {
  }

  /** Whatever three files are found, they are loaded as a pair exactly when they hold it. */
  lemma LoadsExactly(files: Files<Json>, codec: Codec, l: Lock, e: Evidence)
    ensures Load(files, codec) == Some((l, e)) <==>
      && files.state.Some? && files.lock.Some? && files.evidence.Some?
      && Holds(files.state.value, files.lock.value, files.evidence.value, l, e, codec)
  {
    if files.state.Some? && files.lock.Some? && files.evidence.Some? {
      var state, lock, evidence := files.state.value, files.lock.value, files.evidence.value;
      LoadChecks(files, codec, l, e);
      ReadableExactly(state, codec);
      ReadableExactly(lock, codec);
      ReadableExactly(evidence, codec);
      LockReadExactly(lock, codec.str, l);
      EvidenceReadExactly(evidence, e);
    }
  }

  lemma StateFields(l: Lock, e: Evidence)
    ensures Get(StateEntries(l, e), "schema_version") == Some(Text("1"))
    ensures Get(StateEntries(l, e), "lock") == Some(LockJson(l))
    ensures Get(StateEntries(l, e), "evidence") == Some(EvidenceJson(e))
  {
    var entries := StateEntries(l, e);
    GetAt(entries, 0); GetAt(entries, 1); GetAt(entries, 2);
  }

  /** Whatever the compatibility files hold, a successful load returns the pair of the state file. */
  lemma LoadFollowsState(files: Files<Json>, l: Lock, e: Evidence, codec: Codec)
    requires Savable(l, e, codec) && PrintsText(codec.str)
    requires files.state == Some(StateJson(l, e))
    ensures Load(files, codec).Some? ==> Load(files, codec).value == (Redacted(l), e) && Bound(Redacted(l), e, codec)
  {
    StateFields(l, e);
    LockRoundTrip(l, codec.str);
    EvidenceRoundTrip(e);
  }

  // Which saves can be loaded ----------------------------------------------------------------------

  /** Every string of the pair is within the reader's bound. Digests and keys are shorter anyway. */
  predicate ShortStrings(l: Lock, e: Evidence) {
    var t := l.product.target;
    && |t.productId| <= RECOVERY.length && |t.productName| <= RECOVERY.length && |t.version| <= RECOVERY.length
    && |l.product.imageUrl| <= RECOVERY.length && |l.product.chunklistUrl| <= RECOVERY.length
    && |l.binding.stableModelId| <= RECOVERY.length && Longest(e.tool) <= RECOVERY.length
  }

  lemma TargetLimits(t: Target)
    requires ValidTarget(t)
    ensures Nodes(Object(TargetEntries(t))) <= 9 && Depth(Object(TargetEntries(t))) <= 1
    ensures Longest(Object(TargetEntries(t))) <= RECOVERY.length
       <==> |t.productId| <= RECOVERY.length && |t.productName| <= RECOVERY.length && |t.version| <= RECOVERY.length
  {
    var entries := TargetEntries(t);
    NodesOfEntriesAtMost(entries, 1);
    DepthOfEntriesAtMost(entries, 0);
    LongestOfEntriesExactly(entries, RECOVERY.length);
    assert Longest(entries[0].item) == |t.productId| && Longest(entries[1].item) == |t.productName|;
    assert Longest(entries[2].item) == |t.version| && Longest(entries[3].item) == |t.build|;
  }

  lemma ProductLimits(p: Product)
    requires ValidProduct(p)
    ensures Nodes(Object(ProductEntries(p))) <= 101 && Depth(Object(ProductEntries(p))) <= 2
    ensures Longest(Object(ProductEntries(p))) <= RECOVERY.length
       <==> Longest(Object(TargetEntries(p.target))) <= RECOVERY.length
            && |p.imageUrl| <= RECOVERY.length && |p.chunklistUrl| <= RECOVERY.length
  {
    var entries := ProductEntries(p);
    TargetLimits(p.target);
    NodesOfEntriesAtMost(entries, 9);
    DepthOfEntriesAtMost(entries, 1);
    LongestOfEntriesExactly(entries, RECOVERY.length);
    assert Longest(entries[1].item) == |p.imageUrl| && Longest(entries[4].item) == |p.chunklistUrl|;
    assert entries[0].item == Object(TargetEntries(p.target));
  }

  lemma BindingLimits(b: Binding)
    requires ValidBinding(b)
    ensures Nodes(Object(BindingEntries(b))) <= 17 && Depth(Object(BindingEntries(b))) <= 1
    ensures Longest(Object(BindingEntries(b))) <= RECOVERY.length <==> |b.stableModelId| <= RECOVERY.length
  {
    var entries := BindingEntries(b);
    NodesOfEntriesAtMost(entries, 1);
    DepthOfEntriesAtMost(entries, 0);
    LongestOfEntriesExactly(entries, RECOVERY.length);
    assert Longest(entries[1].item) == |b.stableModelId|;
  }

  lemma LockLimits(l: Lock)
    requires ValidLock(l)
    ensures Nodes(LockJson(l)) <= 613 && Depth(LockJson(l)) <= 3
    ensures Longest(LockJson(l)) <= RECOVERY.length
       <==> Longest(Object(ProductEntries(l.product))) <= RECOVERY.length && |l.binding.stableModelId| <= RECOVERY.length
  {
    var entries := LockEntries(l);
    ProductLimits(l.product);
    BindingLimits(l.binding);
    NodesOfEntriesAtMost(entries, 101);
    DepthOfEntriesAtMost(entries, 2);
    LongestOfEntriesExactly(entries, RECOVERY.length);
    assert entries[2].item == Object(ProductEntries(l.product)) && entries[3].item == Object(BindingEntries(l.binding));
  }

  lemma EvidenceLimits(e: Evidence)
    requires ValidEvidence(e) && Typed(e)
    ensures Nodes(EvidenceJson(e)) <= 15 && Depth(EvidenceJson(e)) <= 1
    ensures Longest(EvidenceJson(e)) <= RECOVERY.length <==> Longest(e.tool) <= RECOVERY.length
  {
    var entries := EvidenceEntries(e);
    NodesOfEntriesAtMost(entries, 1);
    DepthOfEntriesAtMost(entries, 0);
    LongestOfEntriesExactly(entries, RECOVERY.length);
  }

  lemma StateShape(l: Lock, e: Evidence)
    requires ValidLock(l) && ValidEvidence(e) && Typed(e)
    ensures Nodes(StateJson(l, e)) <= 1843 && Depth(StateJson(l, e)) <= 4
    ensures Longest(StateJson(l, e)) <= RECOVERY.length
       <==> Longest(LockJson(l)) <= RECOVERY.length && Longest(EvidenceJson(e)) <= RECOVERY.length
  {
    var entries := StateEntries(l, e);
    LockLimits(l);
    EvidenceLimits(e);
    NodesOfEntriesAtMost(entries, 613);
    DepthOfEntriesAtMost(entries, 3);
    LongestOfEntriesExactly(entries, RECOVERY.length);
    assert entries[1].item == LockJson(l) && entries[2].item == EvidenceJson(e);
  }

  lemma ShortStringsExactly(l: Lock, e: Evidence)
    requires ValidLock(l) && ValidEvidence(e) && Typed(e)
    ensures Longest(LockJson(l)) <= RECOVERY.length && Longest(EvidenceJson(e)) <= RECOVERY.length <==> ShortStrings(l, e)
  {
    LockLimits(l);
    ProductLimits(l.product);
    TargetLimits(l.product.target);
    EvidenceLimits(e);
  }

  /** The node and depth limits never bind on published state; the string limit does. */
  lemma LimitsBindOnStringsOnly(l: Lock, e: Evidence)
    requires ValidLock(l) && ValidEvidence(e) && Typed(e)
    ensures WithinLimits(StateJson(l, e), RECOVERY) <==> ShortStrings(l, e)
    ensures WithinLimits(LockJson(l), RECOVERY) && WithinLimits(EvidenceJson(e), RECOVERY) <==> ShortStrings(l, e)
  {
    StateShape(l, e);
    ShortStringsExactly(l, e);
    LockLimits(l);
    EvidenceLimits(e);
  }

  predicate SmallDocuments(l: Lock, e: Evidence, codec: Codec) {
    && codec.size(StateJson(l, e)) <= MAX_STATE_BYTES && codec.size(LockJson(l)) <= MAX_STATE_BYTES
    && codec.size(EvidenceJson(e)) <= MAX_STATE_BYTES
  }

  /**
   * An undisturbed save can be loaded again, giving the saved pair without its session references,
   * exactly when its strings and encoded documents are within the reader's bounds. The writer does
   * not check these bounds before it writes.
   */
  lemma SavedIsLoadableExactly(l: Lock, e: Evidence, codec: Codec)
    requires Savable(l, e, codec) && PrintsText(codec.str)
    ensures var files := Files(Some(StateJson(l, e)), Some(LockJson(l)), Some(EvidenceJson(e)));
            Load(files, codec) == if ShortStrings(l, e) && SmallDocuments(l, e, codec) then Some((Redacted(l), e)) else None
  {
    StateFields(l, e);
    LockRoundTrip(l, codec.str);
    EvidenceRoundTrip(e);
    LimitsBindOnStringsOnly(l, e);
    DigestIsStable(l, l.state, codec.digest, codec.str);
  }

  /** Every pair that can be saved has a variant that is saved just as well and can never be loaded. */
  lemma LongToolNameIsLost(l: Lock, e: Evidence, codec: Codec)
    requires Savable(l, e, codec) && PrintsText(codec.str)
    ensures var long := e.(tool := Text(seq(65_537, _ => 'x')));
            Savable(l, long, codec) && Load(Files(Some(StateJson(l, long)), Some(LockJson(l)), Some(EvidenceJson(long))), codec) == None
  {
    var long := e.(tool := Text(seq(65_537, _ => 'x')));
    assert ValidEvidence(long) && Bound(l, long, codec);
    SavedIsLoadableExactly(l, long, codec);
  }

  // The directory ----------------------------------------------------------------------------------

  /** `Rejected`: everything was written but the final check of the published state failed. */
  datatype Outcome = Refused | Stopped | Rejected | Saved

  function SaveOf(l: Lock, e: Evidence): Save<Json> {
    Save(StateJson(l, e), LockJson(l), EvidenceJson(e))
  }

  class RecoveryDirectory {
    const codec: Codec
    var state: Option<Json>
    var lock: Option<Json>
    var evidence: Option<Json>

    constructor (codec: Codec)
      ensures this.codec == codec && Contents() == Files(None, None, None)
    {
      this.codec := codec;
      state, lock, evidence := None, None, None;
    }

    ghost function Contents(): Files<Json>
      reads this
    {
      Files(state, lock, evidence)
    }

    /** Saves a pair; the process stops after `writes` replacements if that is fewer than three. */
    method SaveVerifiedBundle(l: Lock, e: Evidence, writes: nat) returns (outcome: Outcome)
      requires ValidLock(l) && ValidEvidence(e) && Typed(e) && PrintsText(codec.str)
      modifies this
      ensures outcome == Refused <==> !Bound(l, e, codec)
      ensures Contents() == if outcome == Refused then old(Contents()) else Written(old(Contents()), SaveOf(l, e), writes)
      ensures outcome != Refused && writes >= 1 ==> state == Some(StateJson(l, e))
      ensures outcome != Refused && writes >= 2 ==> lock == Some(LockJson(l))
      ensures outcome != Refused && writes >= 3 ==> evidence == Some(EvidenceJson(e))
      ensures (writes < 1 ==> state == old(state)) && (writes < 2 ==> lock == old(lock)) && (writes < 3 ==> evidence == old(evidence))
      ensures outcome == Stopped <==> Bound(l, e, codec) && writes < 3
      ensures outcome == Saved <==> Bound(l, e, codec) && writes >= 3 && ShortStrings(l, e) && SmallDocuments(l, e, codec)
    {
      if !Bound(l, e, codec) { return Refused; }
      SavedIsLoadableExactly(l, e, codec);
      if writes == 0 { return Stopped; }
      state := Some(StateJson(l, e));
      if writes == 1 { return Stopped; }
      lock := Some(LockJson(l));
      if writes == 2 { return Stopped; }
      evidence := Some(EvidenceJson(e));
      var loaded := Load(Files(state, lock, evidence), codec);
      outcome := if loaded.Some? then Saved else Rejected;
    }
  }

  // Writers and readers ----------------------------------------------------------------------------

  /** The saves that the writers of a run may begin. */
  ghost predicate IsSave(save: Save<Json>, codec: Codec) {
    exists l, e :: Savable(l, e, codec) && save == SaveOf(l, e)
  }

  /** `loaded` is what one of the saves wrote, session references aside, and its digests agree. */
  ghost predicate OneGeneration(loaded: (Lock, Evidence), saves: seq<Save<Json>>, codec: Codec) {
    && Bound(loaded.0, loaded.1, codec)
    && exists l, e :: Savable(l, e, codec) && SaveOf(l, e) in saves && loaded == (Redacted(l), e)
  }

  /**
   * However writers interleave, crash, and overlap a reader's three reads: a load that succeeds
   * returns a lock and evidence that one save wrote together and that the digest binds.
   */
  lemma LoadsAreNeverTorn(steps: seq<Step<Json>>, world: World<Json>, r: Id, codec: Codec)
    requires Run(Empty<Json>(), steps, world) && Begins(steps, save => IsSave(save, codec))
    requires PrintsText(codec.str) && r in world.readers && |world.readers[r]| == 3
    ensures var got := world.readers[r];
            var loaded := Load(Files(got[0], got[1], got[2]), codec);
            loaded.Some? ==> OneGeneration(loaded.value, world.saves, codec)
  {
    var save := StateReadWasSaved(steps, world, r, save => IsSave(save, codec));
    var got := world.readers[r];
    var files := Files(got[0], got[1], got[2]);
    if save.Some? && Load(files, codec).Some? {
      var l, e :| Savable(l, e, codec) && save.value == SaveOf(l, e);
      LoadFollowsState(files, l, e, codec);
    }
  }
}
