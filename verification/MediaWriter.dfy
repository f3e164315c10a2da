/**
 * The guarded media write. Everything outside the writer, that is the source tree, the device list,
 * the callbacks and the adapter, answers as `Environment` says.
 */
module MediaWriter {
  import opened Common
  import opened Hashing
  import opened MediaPlan

  /** `SystemExit` stands for every exception that is neither an `Exception` nor `KeyboardInterrupt`. */
  datatype Raise = Error | KeyboardInterrupt | SystemExit

  datatype Reply<+T> = Returns(value: T) | Raises(raised: Raise)

  /**
   * Each answer may be any value or any exception, so the source and the devices may change arbitrarily
   * between two steps.
   */
  datatype Environment = Environment(
    now: real,
    cancelAtStart: Reply<bool>,
    sourceAccepted: Reply<bool>,
    sourceManifest: Reply<Option<seq<FileDigest>>>,
    devices: Reply<seq<Device>>,
    snapshot: Reply<Tree>,
    cancelBeforeWrite: Reply<bool>,
    progressAtStart: Reply<()>,
    destruction: Reply<()>,
    cancelAfterWrite: Reply<bool>,
    readback: Reply<bool>,
    invalidation: Reply<()>,
    progressAtEnd: Reply<()>)

  datatype Event = Destroy(plan: Plan, source: Tree) | ReadBack(plan: Plan, source: Tree) | Invalidate(plan: Plan)

  datatype Exit = Done | Refused | Escaped(raised: Raise)

  // The target -------------------------------------------------------------------------------------

  function Matches(devices: seq<Device>, id: string): (m: seq<Device>)
    ensures forall d :: d in m <==> d in devices && d.id == id
  {
    if devices == [] then []
    else
      var rest := Matches(devices[1..], id);
      assert devices == [devices[0]] + devices[1..];
      if devices[0].id == id then [devices[0]] + rest else rest
  }

  /** `d` is listed, once, and no other listed device answers to its id. */
  ghost predicate UniquelyListed(devices: seq<Device>, d: Device) {
    exists i :: 0 <= i < |devices| && devices[i] == d
                && forall j :: 0 <= j < |devices| && j != i ==> devices[j].id != d.id
  }

  lemma {:induction false} NoMatch(devices: seq<Device>, id: string)
    ensures Matches(devices, id) == [] <==> forall j :: 0 <= j < |devices| ==> devices[j].id != id
  {
    if devices != [] {
      NoMatch(devices[1..], id);
      assert forall j :: 0 < j < |devices| ==> devices[j] == devices[1..][j - 1];
    }
  }

  lemma {:induction false} OneMatch(devices: seq<Device>, id: string, d: Device)
    ensures Matches(devices, id) == [d] <==> d.id == id && UniquelyListed(devices, d)
  {
    if devices != [] {
      var first, rest := devices[0], devices[1..];
      NoMatch(rest, id);
      OneMatch(rest, id, d);
      assert forall j :: 0 < j < |devices| ==> devices[j] == rest[j - 1];
      if first.id != id && d.id == id {
        UniqueInRest(devices, d);
      }
    }
  }

  lemma UniqueInRest(devices: seq<Device>, d: Device)
    requires devices != [] && devices[0].id != d.id
    ensures UniquelyListed(devices, d) <==> UniquelyListed(devices[1..], d)
  {
    var rest := devices[1..];
    assert forall j :: 0 < j < |devices| ==> devices[j] == rest[j - 1];
    if UniquelyListed(rest, d) {
      var i :| 0 <= i < |rest| && rest[i] == d && forall j :: 0 <= j < |rest| && j != i ==> rest[j].id != d.id;
      assert devices[i + 1] == d;
    }
    if UniquelyListed(devices, d) {
      var i :| 0 <= i < |devices| && devices[i] == d && forall j :: 0 <= j < |devices| && j != i ==> devices[j].id != d.id;
      assert rest[i - 1] == d;
      assert forall j :: 0 <= j < |rest| ==> rest[j] == devices[j + 1];
    }
  }

  predicate SameIdentity(a: Device, b: Device) {
    && a.id == b.id && a.capacity == b.capacity && a.model == b.model && a.serial == b.serial
    && a.vendor == b.vendor && a.removable == b.removable && a.systemDisk == b.systemDisk
    && a.partitions == b.partitions && a.whole == b.whole
  }

  predicate HasSerial(d: Device) {
    d.serial.Some? && !Blank(d.serial.value)
  }

  predicate Yes(reply: Reply<bool>) {
    reply == Returns(true)
  }

  /** A callback that is absent, or returns false. */
  predicate NotCancelled(present: bool, reply: Reply<bool>) {
    present ==> reply == Returns(false)
  }

  predicate Quiet(present: bool, reply: Reply<()>) {
    present ==> reply.Returns?
  }

  /** How the body of the `try` ends, from the destructive call on: its verdict or an exception. */
  function Attempt(e: Environment, hasCancel: bool): Reply<bool> {
    match e.destruction
    case Raises(r) => Raises(r)
    case Returns(_) =>
      if hasCancel && e.cancelAfterWrite.Raises? then Raises(e.cancelAfterWrite.raised)
      else if hasCancel && e.cancelAfterWrite.value then Raises(Error)
      else e.readback
  }

  predicate ReachesReadback(e: Environment, hasCancel: bool) {
    e.destruction.Returns? && NotCancelled(hasCancel, e.cancelAfterWrite)
  }

  /** The device calls of an authorised write, in order. */
  function DeviceCalls(found: Plan, e: Environment, hasCancel: bool, hasInvalidator: bool): seq<Event>
    requires e.snapshot.Returns?
  {
    [Destroy(found, e.snapshot.value)]
    + (if ReachesReadback(e, hasCancel) then [ReadBack(found, e.snapshot.value)] else [])
    + (if hasInvalidator && Attempt(e, hasCancel) !in {Returns(true), Raises(SystemExit)} then [Invalidate(found)] else [])
  }

  /** How an authorised call ends whose destructive call was made. */
  predicate ReturnsNormally(e: Environment, hasCancel: bool, hasProgress: bool) {
    Attempt(e, hasCancel) == Returns(true) && Quiet(hasProgress, e.progressAtEnd)
  }

  /**
   * Leaving otherwise than normally after the destructive start is followed by no invalidation in two
   * cases: an exception that is neither an `Exception` nor `KeyboardInterrupt`, and a final progress
   * callback that raises although the readback was true.
   */
  predicate LeavesUninvalidated(e: Environment, hasCancel: bool, hasProgress: bool) {
    || Attempt(e, hasCancel) == Raises(SystemExit)
    || (Attempt(e, hasCancel) == Returns(true) && hasProgress && e.progressAtEnd.Raises?)
  }

  ghost predicate DestroysFirstAndOnce(events: seq<Event>) {
    forall i :: 0 <= i < |events| ==> (events[i].Destroy? <==> i == 0)
  }

  ghost predicate OneTarget(events: seq<Event>, plan: Plan) {
    forall i :: 0 <= i < |events| ==> events[i].plan == plan
  }

  /** What a caller can rely on in the device calls of one write. */
  ghost predicate InOrder(events: seq<Event>, found: Plan, e: Environment, hasCancel: bool, hasProgress: bool, hasInvalidator: bool) {
    && DestroysFirstAndOnce(events) && OneTarget(events, found)
    && (events != [] && e.snapshot.Returns? ==>
          && (ReturnsNormally(e, hasCancel, hasProgress)
              ==> events == [Destroy(found, e.snapshot.value), ReadBack(found, e.snapshot.value)])
          && (!ReturnsNormally(e, hasCancel, hasProgress) && hasInvalidator
              ==> (events[|events| - 1].Invalidate? <==> !LeavesUninvalidated(e, hasCancel, hasProgress)))
          && (e.destruction == Raises(SystemExit) ==> events == [Destroy(found, e.snapshot.value)]))
  }

  lemma CallsInOrder(found: Plan, e: Environment, hasCancel: bool, hasProgress: bool, hasInvalidator: bool)
    requires e.snapshot.Returns?
    ensures InOrder(DeviceCalls(found, e, hasCancel, hasInvalidator), found, e, hasCancel, hasProgress, hasInvalidator)
  {
    assert e.destruction == Raises(SystemExit) ==> Attempt(e, hasCancel) == Raises(SystemExit);
  }

  /** The destructive call returned and nothing cancelled: then the medium is read back. */
  predicate ReadBackDone(e: Environment, hasCancel: bool) {
    e.destruction.Returns? && (hasCancel ==> e.cancelAfterWrite == Returns(false))
  }

  /** Something raised the exception from the destructive call on. */
  predicate LeavesBy(r: Raise, e: Environment, hasCancel: bool) {
    || e.destruction == Raises(r)
    || (e.destruction.Returns? && hasCancel && e.cancelAfterWrite == Raises(r))
    || (ReadBackDone(e, hasCancel) && e.readback == Raises(r))
  }

  /** After the destructive call come a readback, if it is due, and an invalidation, if there is one to do. */
  ghost predicate CallsAsAnswered(events: seq<Event>, found: Plan, e: Environment, hasCancel: bool, hasInvalidator: bool) {
    var invalidated := hasInvalidator && !(ReadBackDone(e, hasCancel) && e.readback == Returns(true)) && !LeavesBy(SystemExit, e, hasCancel);
    && |events| == 1 + (if ReadBackDone(e, hasCancel) then 1 else 0) + (if invalidated then 1 else 0)
    && e.snapshot.Returns? && events[0] == Destroy(found, e.snapshot.value)
    && (ReadBackDone(e, hasCancel) ==> events[1] == ReadBack(found, e.snapshot.value))
    && (invalidated ==> events[|events| - 1] == Invalidate(found))
  }

  lemma CallsByAnswers(found: Plan, e: Environment, hasCancel: bool, hasInvalidator: bool)
    requires e.snapshot.Returns?
    ensures CallsAsAnswered(DeviceCalls(found, e, hasCancel, hasInvalidator), found, e, hasCancel, hasInvalidator)
  {
    AttemptByAnswers(e, hasCancel);
  }

  lemma AttemptByAnswers(e: Environment, hasCancel: bool)
    ensures ReachesReadback(e, hasCancel) <==> ReadBackDone(e, hasCancel)
    ensures Attempt(e, hasCancel) == Raises(SystemExit) <==> LeavesBy(SystemExit, e, hasCancel)
    ensures Attempt(e, hasCancel) == Returns(true) <==> ReadBackDone(e, hasCancel) && e.readback == Returns(true)
  {
  }

  class RemovableMediaWriter {
    const hasWrite: bool
    const hasEnumerator: bool
    const hasReadback: bool
    const hasInvalidator: bool
    const id: Identity
    const order: set<string> -> seq<string>
    const hash: Contents -> Digest

    constructor (
      hasWrite: bool, hasEnumerator: bool, hasReadback: bool, hasInvalidator: bool,
      id: Identity, order: set<string> -> seq<string>, hash: Contents -> Digest)
      ensures this.hasWrite == hasWrite && this.hasEnumerator == hasEnumerator
      ensures this.hasReadback == hasReadback && this.hasInvalidator == hasInvalidator
      ensures this.id == id && this.order == order && this.hash == hash
    {
      this.hasWrite, this.hasEnumerator, this.hasReadback, this.hasInvalidator := hasWrite, hasEnumerator, hasReadback, hasInvalidator;
      this.id, this.order, this.hash := id, order, hash;
    }

    /** `found` may be written in place of the plan's target. */
    ghost predicate TargetConfirmed(plan: Plan, e: Environment, found: Device) {
      && Safe(found, plan.required) && HasSerial(found) && SameIdentity(found, plan.target)
      && (if hasEnumerator then e.devices.Returns? && UniquelyListed(e.devices.value, found) else found == plan.target)
      && id.digest(PayloadOf(plan.(target := found), id.reference)) == id.digest(PayloadOf(plan, id.reference))
    }

    /** Everything that must hold before the source is copied, for the target `found`. */
    ghost predicate Authorised(plan: Plan, c: Confirmation, e: Environment, hasCancel: bool, found: Device) {
      && Complete(plan.bindings) && plan.sourceValidated && ValidFor(c, plan, e.now, id)
      && NotCancelled(hasCancel, e.cancelAtStart)
      && Yes(e.sourceAccepted) && e.sourceManifest == Returns(Some(plan.expected))
      && TargetConfirmed(plan, e, found)
      && hasWrite && hasReadback
    }

    lemma WritesWithAuthority(plan: Plan, c: Confirmation, e: Environment, hasCancel: bool, found: Device)
      requires Authorised(plan, c, e, hasCancel, found)
      ensures Writable(found, plan.required) && SixDigests(plan.bindings)
    {
      AuthorisedExactly(this, plan, c, e, hasCancel, found);
    }

    /** Everything that must hold between the copy and the destructive call. */
    ghost predicate SnapshotReady(plan: Plan, e: Environment, hasCancel: bool, hasProgress: bool) {
      && e.snapshot.Returns? && IsManifest(e.snapshot.value, order, hash, plan.expected)
      && NotCancelled(hasCancel, e.cancelBeforeWrite) && Quiet(hasProgress, e.progressAtStart)
    }

    /** Re-enumeration: the one device now answering to the planned id, if it is unaltered and safe. */
    method RecheckDevice(plan: Plan, e: Environment) returns (found: Result<Device, Exit>)
      ensures found.Ok? ==> Safe(found.value, plan.required) && SameIdentity(found.value, plan.target)
      ensures found.Ok? ==>
                if hasEnumerator then e.devices.Returns? && UniquelyListed(e.devices.value, found.value) else found.value == plan.target
      ensures found.Err? ==> found.error != Done && forall d :: !TargetConfirmed(plan, e, d)
      ensures found.Ok? ==> forall d :: TargetConfirmed(plan, e, d) ==> d == found.value
    {
      if !hasEnumerator {
        return if Safe(plan.target, plan.required) then Ok(plan.target) else Err(Refused);
      }
      if e.devices.Raises? {
        return Err(if e.devices.raised == Error then Refused else Escaped(e.devices.raised));
      }
      var matches := Matches(e.devices.value, plan.target.id);
      forall d | TargetConfirmed(plan, e, d) ensures matches == [d] { OneMatch(e.devices.value, plan.target.id, d); }
      if |matches| != 1 { return Err(Refused); }
      var current := matches[0];
      assert matches == [current];
      OneMatch(e.devices.value, plan.target.id, current);
      if !SameIdentity(current, plan.target) || !Safe(current, plan.required) { return Err(Refused); }
      found := Ok(current);
    }

    /** The checks before any copying: the confirmed target, or how the call ends. */
    method Preflight(plan: Plan, c: Confirmation, e: Environment, hasCancel: bool) returns (found: Result<Device, Exit>)
      ensures found.Ok? ==> Authorised(plan, c, e, hasCancel, found.value)
      ensures found.Err? ==> found.error != Done && forall d :: !Authorised(plan, c, e, hasCancel, d)
    {
      if !Complete(plan.bindings) || !plan.sourceValidated || !ValidFor(c, plan, e.now, id) { return Err(Refused); }
      if hasCancel {
        if e.cancelAtStart.Raises? { return Err(Escaped(e.cancelAtStart.raised)); }
        if e.cancelAtStart.value { return Err(Refused); }
      }
      if e.sourceAccepted.Raises? { return Err(Escaped(e.sourceAccepted.raised)); }
      if !e.sourceAccepted.value { return Err(Refused); }
      if e.sourceManifest.Raises? { return Err(Escaped(e.sourceManifest.raised)); }
      if e.sourceManifest.value != Some(plan.expected) { return Err(Refused); }
      found := RecheckDevice(plan, e);
      if found.Err? { return; }
      if !HasSerial(found.value) { return Err(Refused); }
      var freshPlan := plan.(target := found.value);
      if id.digest(PayloadOf(freshPlan, id.reference)) != id.digest(PayloadOf(plan, id.reference)) { return Err(Refused); }
      if !hasWrite || !hasReadback { return Err(Refused); }
    }

    /** The body of the `try`. `started` says whether the destructive call was reached. */
    method WriteSnapshot(plan: Plan, found: Plan, e: Environment, hasCancel: bool, hasProgress: bool)
      returns (verdict: Reply<bool>, started: bool, events: seq<Event>)
      requires Lists(order)
      ensures started <==> SnapshotReady(plan, e, hasCancel, hasProgress)
      ensures !started ==> events == [] && verdict.Raises?
      ensures started ==> verdict == Attempt(e, hasCancel) && events == DeviceCalls(found, e, hasCancel, false)
    {
      started, events := false, [];
      if e.snapshot.Raises? { verdict := Raises(e.snapshot.raised); return; }
      var snapshot := e.snapshot.value;
      var manifest := SourceManifest(snapshot, order, hash);
      if manifest.None? || manifest.value != plan.expected { verdict := Raises(Error); return; }
      if hasCancel {
        if e.cancelBeforeWrite.Raises? { verdict := Raises(e.cancelBeforeWrite.raised); return; }
        if e.cancelBeforeWrite.value { verdict := Raises(Error); return; }
      }
      if hasProgress && e.progressAtStart.Raises? { verdict := Raises(e.progressAtStart.raised); return; }
      started := true;
      events := [Destroy(found, snapshot)];
      if e.destruction.Raises? { verdict := Raises(e.destruction.raised); return; }
      if hasCancel {
        if e.cancelAfterWrite.Raises? { verdict := Raises(e.cancelAfterWrite.raised); return; }
        if e.cancelAfterWrite.value { verdict := Raises(Error); return; }
      }
      events := events + [ReadBack(found, snapshot)];
      verdict := e.readback;
    }

    /** The `except` branch and the verdict, after the body of the `try` ended with `verdict`. */
    method Conclude(
      verdict: Reply<bool>, started: bool, events: seq<Event>, found: Plan, e: Environment, hasProgress: bool)
      returns (exit: Exit, more: seq<Event>)
      requires !started ==> verdict.Raises?
      ensures more == if started && hasInvalidator && verdict !in {Returns(true), Raises(SystemExit)}
                      then events + [Invalidate(found)] else events
      ensures exit == Done <==> verdict == Returns(true) && Quiet(hasProgress, e.progressAtEnd)
      ensures verdict == Raises(SystemExit) ==> exit == Escaped(SystemExit)
      ensures verdict == Returns(true) && exit != Done ==> exit == Escaped(e.progressAtEnd.raised)
      ensures verdict !in {Returns(true), Raises(SystemExit)} ==>
                exit == if started && hasInvalidator && e.invalidation.Raises? && e.invalidation.raised != Error
                        then Escaped(e.invalidation.raised) else Refused
    {
      exit, more := Refused, events;
      if verdict == Raises(SystemExit) { return Escaped(SystemExit), events; }
      if verdict != Returns(true) {
        if started && hasInvalidator {
          more := events + [Invalidate(found)];
          // the invalidator's own `Exception` is only reported
          if e.invalidation.Raises? && e.invalidation.raised != Error { exit := Escaped(e.invalidation.raised); }
        }
        return;
      }
      exit := if hasProgress && e.progressAtEnd.Raises? then Escaped(e.progressAtEnd.raised) else Done;
    }

    /**
     * The whole write. Device calls are made exactly when everything authorises them: see
     * `DeviceCalls`. The call returns normally exactly after a true readback (and a quiet progress
     * callback).
     */
    method Write(plan: Plan, c: Confirmation, e: Environment, hasCancel: bool, hasProgress: bool)
      returns (exit: Exit, events: seq<Event>, target: Device)
      requires Lists(order)
      ensures events == [] ==> !SnapshotReady(plan, e, hasCancel, hasProgress) || forall d :: !Authorised(plan, c, e, hasCancel, d)
      ensures events != [] ==>
                && Authorised(plan, c, e, hasCancel, target) && SnapshotReady(plan, e, hasCancel, hasProgress)
                && events == DeviceCalls(plan.(target := target), e, hasCancel, hasInvalidator)
      ensures exit == Done <==> events != [] && ReturnsNormally(e, hasCancel, hasProgress)
      ensures InOrder(events, plan.(target := target), e, hasCancel, hasProgress, hasInvalidator)
      ensures events != [] ==> Writable(target, plan.required) && SixDigests(plan.bindings)
      ensures events != [] ==> CallsAsAnswered(events, plan.(target := target), e, hasCancel, hasInvalidator)
      ensures exit == Done <==>
                events != [] && ReadBackDone(e, hasCancel) && e.readback == Returns(true) && (hasProgress ==> e.progressAtEnd.Returns?)
      ensures events != [] && exit.Escaped? ==>
                || (exit == Escaped(SystemExit) && LeavesBy(SystemExit, e, hasCancel))
                || (ReadBackDone(e, hasCancel) && e.readback == Returns(true) && hasProgress && e.progressAtEnd == Raises(exit.raised))
                || (events[|events| - 1].Invalidate? && exit.raised != Error && e.invalidation == Raises(exit.raised))
    {
      target := plan.target;
      var found := Preflight(plan, c, e, hasCancel);
      if found.Err? { return found.error, [], target; }
      target := found.value;
      var freshPlan := plan.(target := target);
      var verdict, started;
      verdict, started, events := WriteSnapshot(plan, freshPlan, e, hasCancel, hasProgress);
      if started {
        CallsInOrder(freshPlan, e, hasCancel, hasProgress, hasInvalidator);
        CallsByAnswers(freshPlan, e, hasCancel, hasInvalidator);
        AttemptByAnswers(e, hasCancel);
        WritesWithAuthority(plan, c, e, hasCancel, target);
      }
      exit, events := Conclude(verdict, started, events, freshPlan, e, hasProgress);
    }
  }

  // What authorises a write, condition by condition -------------------------------------------------

  /** A whole, removable, unmounted, writable device that is not the system's and has room and a serial. */
  predicate Writable(d: Device, required: int) {
    && d.removable && d.whole && !d.systemDisk && !d.mounted && !d.readOnly
    && d.capacity > 0 && d.capacity >= required
    && !Blank(d.id) && d.serial.Some? && !Blank(d.serial.value)
  }

  /** Everything but the mounting, the write protection and the system disk's name is as planned. */
  predicate Unaltered(d: Device, planned: Device) {
    d == planned.(mounted := d.mounted, readOnly := d.readOnly, systemDiskRef := d.systemDiskRef)
  }

  /** 64 hexadecimal digits. */
  predicate IsDigest(s: string) {
    |s| == 64 && forall i :: 0 <= i < 64 ==> s[i] in "0123456789abcdefABCDEF"
  }

  lemma IsDigestExactly(s: string)
    ensures IsSha256(s) <==> IsDigest(s)
  {
    if IsDigest(s) {
      forall c | c in s ensures '0' <= c <= '9' || 'a' <= c <= 'f' || 'A' <= c <= 'F' {
        var i :| 0 <= i < |s| && s[i] == c;
        HexDigit(s[i]);
      }
    }
    if IsSha256(s) {
      forall i | 0 <= i < 64 ensures s[i] in "0123456789abcdefABCDEF" {
        assert s[i] in s;
        HexDigit(s[i]);
      }
    }
  }

  lemma HexDigit(c: char)
    ensures '0' <= c <= '9' || 'a' <= c <= 'f' || 'A' <= c <= 'F' <==> c in "0123456789abcdefABCDEF"
  {
    var all := "0123456789abcdefABCDEF";
    if '0' <= c <= '9' { assert all[c as int - 48] == c; }
    if 'a' <= c <= 'f' { assert all[c as int - 87] == c; }
    if 'A' <= c <= 'F' { assert all[c as int - 49] == c; }
  }

  predicate SixDigests(b: Bindings) {
    && IsDigest(b.efiManifest) && IsDigest(b.recoveryLock) && IsDigest(b.validation)
    && IsDigest(b.configuration) && IsDigest(b.toolchain) && IsDigest(b.evidence)
  }

  /** The confirmation is for this digest, device, capacity and phrase, and has not expired. */
  predicate Confirms(c: Confirmation, plan: Plan, now: real, id: Identity) {
    && c.planDigest == id.digest(PayloadOf(plan, id.reference)) && c.deviceId == plan.target.id
    && c.capacity == plan.target.capacity && c.phrase == id.phrase(id.reference(plan.target.id), plan.target.capacity)
    && c.issuedAt <= now && now < c.expiresAt
  }

  lemma AuthorisedExactly(
    w: RemovableMediaWriter, plan: Plan, c: Confirmation, e: Environment, hasCancel: bool, d: Device)
    ensures w.Authorised(plan, c, e, hasCancel, d) <==>
      && SixDigests(plan.bindings) && plan.sourceValidated && Confirms(c, plan, e.now, w.id)
      && (hasCancel ==> e.cancelAtStart == Returns(false))
      && e.sourceAccepted == Returns(true) && e.sourceManifest == Returns(Some(plan.expected))
      && Writable(d, plan.required) && Unaltered(d, plan.target)
      && (!w.hasEnumerator ==> d == plan.target)
      && (w.hasEnumerator ==> e.devices.Returns? && UniquelyListed(e.devices.value, d))
      && w.id.digest(PayloadOf(plan.(target := d), w.id.reference)) == w.id.digest(PayloadOf(plan, w.id.reference))
      && w.hasWrite && w.hasReadback
  {
    IsDigestExactly(plan.bindings.efiManifest);
    IsDigestExactly(plan.bindings.recoveryLock);
    IsDigestExactly(plan.bindings.validation);
    IsDigestExactly(plan.bindings.configuration);
    IsDigestExactly(plan.bindings.toolchain);
    IsDigestExactly(plan.bindings.evidence);
  }

  /** The private copy exists and has the planned manifest, nothing cancels, and the first report is quiet. */
  lemma SnapshotReadyExactly(w: RemovableMediaWriter, plan: Plan, e: Environment, hasCancel: bool, hasProgress: bool)
    ensures w.SnapshotReady(plan, e, hasCancel, hasProgress) <==>
      && e.snapshot.Returns? && IsManifest(e.snapshot.value, w.order, w.hash, plan.expected)
      && (hasCancel ==> e.cancelBeforeWrite == Returns(false))
      && (hasProgress ==> e.progressAtStart.Returns?)
  {
  }

  // Results ----------------------------------------------------------------------------------------

  /** The device written is the planned one, field for field, safe, and alone under its id right now. */
  lemma OnlyThePlannedDevice(w: RemovableMediaWriter, plan: Plan, e: Environment, found: Device)
    requires w.TargetConfirmed(plan, e, found) && InjectiveDigest(w.id.digest)
    ensures found == plan.target && Safe(plan.target, plan.required)
    ensures w.hasEnumerator ==> e.devices.Returns? && UniquelyListed(e.devices.value, plan.target)
  {
    var freshPlan := plan.(target := found);
    DigestDeterminesPlan(freshPlan, plan, w.id.reference, w.id.digest);
    assert freshPlan.target == found;
  }

  /** The payload written is the one the plan was made from, whatever the source became meanwhile. */
  lemma OnlyThePlannedPayload(
    w: RemovableMediaWriter, plan: Plan, e: Environment, hasCancel: bool, hasProgress: bool, planned: Tree)
    requires Lists(w.order) && InjectiveHash(w.hash)
    requires IsManifest(planned, w.order, w.hash, plan.expected)
    requires w.SnapshotReady(plan, e, hasCancel, hasProgress)
    ensures Payload(e.snapshot.value) == Payload(planned)
  {
    EqualManifestsEqualPayload(planned, e.snapshot.value, w.order, w.hash, plan.expected);
  }

  /** With these answers the destructive call is made. */
  ghost predicate Reaches(
    w: RemovableMediaWriter, plan: Plan, c: Confirmation, e: Environment, hasCancel: bool, hasProgress: bool)
  {
    w.SnapshotReady(plan, e, hasCancel, hasProgress) && exists d :: w.Authorised(plan, c, e, hasCancel, d)
  }

  /** What is raised from the destructive call on is one of `raises`. */
  predicate Within(e: Environment, raises: set<Raise>) {
    && (e.destruction.Raises? ==> e.destruction.raised in raises)
    && (e.cancelAfterWrite.Raises? ==> e.cancelAfterWrite.raised in raises)
    && (e.readback.Raises? ==> e.readback.raised in raises)
    && (e.progressAtEnd.Raises? ==> e.progressAtEnd.raised in raises)
  }

  /** `e` up to the destructive call; from there on nothing is raised or cancelled, and the readback is true. */
  function Fair(e: Environment): Environment {
    e.(destruction := Returns(()), cancelAfterWrite := Returns(false), readback := Returns(true), progressAtEnd := Returns(()))
  }

  lemma ReachesAlike(
    w: RemovableMediaWriter, plan: Plan, c: Confirmation, e: Environment, hasCancel: bool, hasProgress: bool,
    destruction: Reply<()>, progressAtEnd: Reply<()>)
    requires Reaches(w, plan, c, e, hasCancel, hasProgress)
    ensures Reaches(w, plan, c, Fair(e).(destruction := destruction, progressAtEnd := progressAtEnd), hasCancel, hasProgress)
  {
    var d :| w.Authorised(plan, c, e, hasCancel, d);
    assert w.Authorised(plan, c, Fair(e).(destruction := destruction, progressAtEnd := progressAtEnd), hasCancel, d);
  }

  /**
   * For any write that can come to the destructive call: a caller whose callbacks and adapter raise
   * nothing but `Exception` and `KeyboardInterrupt`, and who passes no progress callback, always gets
   * the invalidation; for any other caller some later answers leave the medium without it.
   */
  lemma InvalidatesAlwaysExactly(
    w: RemovableMediaWriter, plan: Plan, c: Confirmation, base: Environment, hasCancel: bool, hasProgress: bool,
    raises: set<Raise>)
    requires Reaches(w, plan, c, base, hasCancel, hasProgress)
    ensures (forall e :: Reaches(w, plan, c, e, hasCancel, hasProgress) && Within(e, raises)
                         ==> !LeavesUninvalidated(e, hasCancel, hasProgress))
       <==> SystemExit !in raises && (hasProgress ==> raises == {})
  {
    if SystemExit in raises {
      ReachesAlike(w, plan, c, base, hasCancel, hasProgress, Raises(SystemExit), Returns(()));
      var e := Fair(base).(destruction := Raises(SystemExit), progressAtEnd := Returns(()));
      assert Within(e, raises) && LeavesUninvalidated(e, hasCancel, hasProgress);
    } else if hasProgress && raises != {} {
      var r :| r in raises;
      ReachesAlike(w, plan, c, base, hasCancel, hasProgress, Returns(()), Raises(r));
      var e := Fair(base).(destruction := Returns(()), progressAtEnd := Raises(r));
      assert Within(e, raises) && LeavesUninvalidated(e, hasCancel, hasProgress);
    } else {
      forall e | Within(e, raises) ensures !LeavesUninvalidated(e, hasCancel, hasProgress) {}
    }
  }

  // A write that comes to the destructive call -----------------------------------------------------

  function Stick(): Device {
    Device("disk9", "Stick", 1_000, Some("S1"), None, false, true, false, false, [], true, None)
  }

  function ImageTree(): Tree {
    Tree({"EFI", "Recovery"}, map["Recovery/Image" := []], {})
  }

  function ImagePlan(hash: Contents -> Digest): Plan {
    var sha := seq(64, i => '0');
    Plan(Stick(), 1, [], true, [FileDigest("Recovery/Image", 0, hash([]))], Bindings(sha, sha, sha, sha, sha, sha), true)
  }

  /** The source stays as planned, the stick is listed alone, and nothing is cancelled or raised. */
  function ImageEnvironment(hash: Contents -> Digest): Environment {
    Environment(
      0.0, Returns(false), Returns(true), Returns(Some(ImagePlan(hash).expected)), Returns([Stick()]),
      Returns(ImageTree()), Returns(false), Returns(()), Returns(()), Returns(false), Returns(true), Returns(()), Returns(()))
  }

  lemma ImageWriteReaches(w: RemovableMediaWriter, c: Confirmation, hasCancel: bool, hasProgress: bool)
    requires Lists(w.order) && w.hasWrite && w.hasReadback
    requires Issue(ImagePlan(w.hash), 0.0, 120.0, w.id) == Some(c)
    ensures Reaches(w, ImagePlan(w.hash), c, ImageEnvironment(w.hash), hasCancel, hasProgress)
  {
    var plan, e := ImagePlan(w.hash), ImageEnvironment(w.hash);
    OneFileManifest(ImageTree(), w.order, w.hash, "Recovery/Image", []);
    assert UniquelyListed([Stick()], Stick()) by { assert [Stick()][0] == Stick(); }
    assert !Blank("disk9") && !Blank("S1") by { assert 'd' in "disk9" && 'S' in "S1"; }
    assert plan.(target := Stick()) == plan;
    assert w.Authorised(plan, c, e, hasCancel, Stick());
  }

  /** One such write ends by `SystemExit` inside the adapter: the medium is neither verified nor invalidated. */
  method UninvalidatedWrite(id: Identity, order: set<string> -> seq<string>, hash: Contents -> Digest)
    returns (exit: Exit, events: seq<Event>)
    requires Lists(order)
    ensures exit != Done && events == [Destroy(ImagePlan(hash), ImageTree())]
  {
    var writer := new RemovableMediaWriter(true, true, true, true, id, order, hash);
    var plan, base := ImagePlan(hash), ImageEnvironment(hash);
    var c := Issue(plan, 0.0, 120.0, id).value;
    ImageWriteReaches(writer, c, false, false);
    ReachesAlike(writer, plan, c, base, false, false, Raises(SystemExit), Returns(()));
    var e := Fair(base).(destruction := Raises(SystemExit), progressAtEnd := Returns(()));
    var target;
    exit, events, target := writer.Write(plan, c, e, false, false);
    assert target == Stick();
  }

  /** In another the image is written and read back well, but the last progress callback raises. */
  method UnreportedWrite(id: Identity, order: set<string> -> seq<string>, hash: Contents -> Digest)
    returns (exit: Exit, events: seq<Event>)
    requires Lists(order)
    ensures exit != Done && events == [Destroy(ImagePlan(hash), ImageTree()), ReadBack(ImagePlan(hash), ImageTree())]
  {
    var writer := new RemovableMediaWriter(true, true, true, true, id, order, hash);
    var plan, base := ImagePlan(hash), ImageEnvironment(hash);
    var c := Issue(plan, 0.0, 120.0, id).value;
    ImageWriteReaches(writer, c, false, true);
    ReachesAlike(writer, plan, c, base, false, true, Returns(()), Raises(Error));
    var e := Fair(base).(destruction := Returns(()), progressAtEnd := Raises(Error));
    var target;
    exit, events, target := writer.Write(plan, c, e, false, true);
    assert target == Stick();
  }
}
