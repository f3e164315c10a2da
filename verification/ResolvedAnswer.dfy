/**
 * What a resolution answers, by name: which capability asks for which dependency on which target, what
 * is reported, and where each field of an entry comes from. `Resolver` is measured against this table.
 */
module ResolvedAnswer {
  import opened Common
  import opened ArtifactNames
  import opened Resolver
  import Graph

  // The table -------------------------------------------------------------------------------------

  /** The base runtime is always asked for. */
  predicate BaseAsks(id: string, request: Request) {
    (id == "opencore" && request == CoreRuntime) || (id == "virtualsmc" && request == CoreSmc)
  }

  predicate Asks(cap: string, target: Target, id: string, request: Request) {
    || (cap == "accelerated_intel_uhd_620" && id == "whatevergreen" && request == UhdGraphics)
    || (cap == "alc257_audio" && target == Sonoma && id == "applealc" && request == Alc257Audio)
    || (cap == "alc257_audio" && target == Sequoia && id == "applealc" && request == Alc257Audio)
    || (cap == "intel_gigabit_ethernet" && id == "intelmausi" && request == I219Ethernet)
    || (cap == "nvme_compatibility_fix" && id == "nvmefix" && request == NvmePowerFix)
    || (cap == "intel_wireless_lan" && target == Sonoma && id == "airportitlwm" && request == WirelessSonoma)
    || (cap == "intel_wireless_lan" && target == Sequoia && id == "itlwm" && request == WirelessSequoia)
    || (cap == "intel_wireless_lan" && target == Tahoe && id == "itlwm" && request == WirelessTahoe)
    || (IsBluetooth(cap) && id == "intel_bluetooth_firmware" && request == BluetoothFirmware)
    || (IsBluetooth(cap) && id == "bluetoolfixup" && request == BluetoothStack)
    || (cap == "i2c_touchscreen" && id == "voodooi2c" && request == TouchscreenI2c)
    || (IsInput(cap) && id == "voodoops2" && request == Ps2Input)
  }

  predicate IsBluetooth(cap: string) {
    cap == "intel_bluetooth" || cap == "intel_bluetooth_controller"
  }

  predicate IsInput(cap: string) {
    cap == "ps2_trackpad_trackpoint" || cap == "thinkpad_input"
  }

  const KNOWN_CAPABILITIES := {
    "accelerated_intel_uhd_620", "alc257_audio", "intel_gigabit_ethernet", "nvme_compatibility_fix",
    "intel_wireless_lan", "intel_bluetooth", "intel_bluetooth_controller", "i2c_touchscreen",
    "ps2_trackpad_trackpoint", "thinkpad_input", "disable_discrete_gpu"}

  ghost predicate IsRequested(caps: seq<string>, target: Target, id: string, request: Request) {
    BaseAsks(id, request) || exists cap :: cap in caps && Asks(cap, target, id, request)
  }

  lemma DriversByName(cap: string)
    ensures Classify(cap) == Graphics <==> cap == "accelerated_intel_uhd_620"
    ensures Classify(cap) == Audio <==> cap == "alc257_audio"
    ensures Classify(cap) == Ethernet <==> cap == "intel_gigabit_ethernet"
    ensures Classify(cap) == Nvme <==> cap == "nvme_compatibility_fix"
    ensures Classify(cap) == Wireless <==> cap == "intel_wireless_lan"
  {
  }

  lemma OthersByName(cap: string)
    ensures Classify(cap) == Bluetooth <==> IsBluetooth(cap)
    ensures Classify(cap) == Touchscreen <==> cap == "i2c_touchscreen"
    ensures Classify(cap) == Input <==> IsInput(cap)
    ensures Classify(cap) == DiscreteGpu <==> cap == "disable_discrete_gpu"
    ensures Classify(cap) == Unknown <==> cap !in KNOWN_CAPABILITIES
  {
  }

  /** The entries of one class of capabilities. */
  predicate Adds(branch: Capability, target: Target, id: string, request: Request) {
    match branch
    case Graphics => id == "whatevergreen" && request == UhdGraphics
    case Audio => target != Tahoe && id == "applealc" && request == Alc257Audio
    case Ethernet => id == "intelmausi" && request == I219Ethernet
    case Nvme => id == "nvmefix" && request == NvmePowerFix
    case Wireless =>
      || (target == Sonoma && id == "airportitlwm" && request == WirelessSonoma)
      || (target == Sequoia && id == "itlwm" && request == WirelessSequoia)
      || (target == Tahoe && id == "itlwm" && request == WirelessTahoe)
    case Bluetooth =>
      (id == "intel_bluetooth_firmware" && request == BluetoothFirmware) || (id == "bluetoolfixup" && request == BluetoothStack)
    case Touchscreen => id == "voodooi2c" && request == TouchscreenI2c
    case Input => id == "voodoops2" && request == Ps2Input
    case DiscreteGpu => false
    case Unknown => false
  }

  lemma EntriesExactly(branch: Capability, target: Target, id: string, request: Request)
    ensures Holds(EntriesFor(branch, target), id, request) <==> Adds(branch, target, id, request)
  {
  }

  lemma AsksExactly(cap: string, target: Target, id: string, request: Request)
    ensures CapabilityAsks(cap, target, id, request) <==> Asks(cap, target, id, request)
  {
    DriversByName(cap);
    OthersByName(cap);
    EntriesExactly(Classify(cap), target, id, request);
  }

  lemma RequestedByName(caps: seq<string>, target: Target, id: string, request: Request)
    ensures AsksFor(caps, target, id, request) <==> IsRequested(caps, target, id, request)
  {
    forall cap ensures CapabilityAsks(cap, target, id, request) <==> Asks(cap, target, id, request) {
      AsksExactly(cap, target, id, request);
    }
  }

  // Notes -----------------------------------------------------------------------------------------

  /** What one capability leaves unresolved, and what it warns of, in that order of the list. */
  function LeavesUnresolved(cap: string, target: Target): seq<Note> {
    if cap !in KNOWN_CAPABILITIES then [UnknownCapability(cap)]
    else if cap == "alc257_audio" && target == Tahoe then [TahoeAnalogueAudio]
    else []
  }

  function Warns(cap: string, target: Target): seq<Note> {
    if cap == "alc257_audio" && target == Tahoe then [TahoeAnalogueAudio]
    else if cap == "intel_wireless_lan" && target == Tahoe then [TahoeWireless]
    else []
  }

  function Concatenated(notes: string -> seq<Note>, caps: seq<string>): seq<Note> {
    if caps == [] then [] else notes(caps[0]) + Concatenated(notes, caps[1..])
  }

  lemma {:induction false} ConcatenatedSnoc(notes: string -> seq<Note>, front: seq<string>, cap: string)
    ensures Concatenated(notes, front + [cap]) == Concatenated(notes, front) + notes(cap)
  {
    if front == [] {
      assert ([] + [cap])[1..] == [];
    } else {
      assert (front + [cap])[1..] == front[1..] + [cap];
      ConcatenatedSnoc(notes, front[1..], cap);
    }
  }

  lemma {:induction false} NotesByName(caps: seq<string>, target: Target, start: Mapped)
    ensures MapAll(caps, target, start).unresolved == start.unresolved + Concatenated(cap => LeavesUnresolved(cap, target), caps)
    ensures MapAll(caps, target, start).warnings == start.warnings + Concatenated(cap => Warns(cap, target), caps)
  {
    if caps != [] {
      var front, last := caps[..|caps| - 1], caps[|caps| - 1];
      NotesByName(front, target, start);
      DriversByName(last);
      OthersByName(last);
      assert caps == front + [last];
      ConcatenatedSnoc(cap => LeavesUnresolved(cap, target), front, last);
      ConcatenatedSnoc(cap => Warns(cap, target), front, last);
    }
  }

  lemma {:induction false} NothingUnresolved(caps: seq<string>, target: Target)
    ensures Concatenated(cap => LeavesUnresolved(cap, target), caps) == []
       <==> forall cap :: cap in caps ==> cap in KNOWN_CAPABILITIES && !(cap == "alc257_audio" && target == Tahoe)
  {
    if caps != [] {
      NothingUnresolved(caps[1..], target);
      assert caps == [caps[0]] + caps[1..];
      assert LeavesUnresolved(caps[0], target) == []
        <==> caps[0] in KNOWN_CAPABILITIES && !(caps[0] == "alc257_audio" && target == Tahoe);
    }
  }

  // The answer ------------------------------------------------------------------------------------

  /** The fields that an entry takes from the catalog. */
  predicate FromCatalog(d: ResolvedDependency, catalog: Catalog, variant: Variant) {
    && d.id in catalog && d.version == catalog[d.id].version && d.subcomponents == catalog[d.id].subcomponents
    && variant in catalog[d.id].artifacts && d.variant == variant && d.artifact == catalog[d.id].artifacts[variant]
  }

  lemma {:induction false} DescribedFromCatalog(
    ids: seq<string>, requests: Requests, catalog: Catalog, variant: Variant, i: nat)
    requires ValidCatalog(catalog) && AllIn(ids, catalog) && i < |ids|
    requires Describe(ids, requests, catalog, variant).Ok?
    ensures var list := Describe(ids, requests, catalog, variant).value;
      |list| == |ids| && list[i].id == ids[i] && FromCatalog(list[i], catalog, variant)
    decreases |ids|
  {
    var front := ids[..|ids| - 1];
    DescribeEntries(ids, requests, catalog, variant);
    if i < |front| {
      DescribedFromCatalog(front, requests, catalog, variant, i);
    }
  }

  /** An entry is a request, with its reason, exactly when the table says so; the others are prerequisites. */
  lemma ProvenanceByName(d: ResolvedDependency, caps: seq<string>, target: Target, request: Request)
    requires WellAttributed(d, caps, target)
    ensures d.provenance == Requested(request) <==> IsRequested(caps, target, d.id, request)
  {
    RequestedByName(caps, target, d.id, request);
    if !d.IsTransitive() && AsksFor(caps, target, d.id, request) {
      RequestedExact(caps, target, d.id, request);
      RequestedExact(caps, target, d.id, d.provenance.request);
    }
  }

  /** Every entry is the catalog's, and is a request exactly when the table says so, with that reason. */
  ghost predicate EntriesAsTabled(
    list: seq<ResolvedDependency>, catalog: Catalog, caps: seq<string>, target: Target, variant: Variant)
  {
    forall i :: 0 <= i < |list| ==> FromCatalog(list[i], catalog, variant) && AttributedByName(list[i], caps, target)
  }

  ghost predicate AttributedByName(d: ResolvedDependency, caps: seq<string>, target: Target) {
    forall request :: d.provenance == Requested(request) <==> IsRequested(caps, target, d.id, request)
  }

  ghost predicate RequestsAreListed(list: seq<ResolvedDependency>, caps: seq<string>, target: Target) {
    forall id, request :: IsRequested(caps, target, id, request) ==> exists i :: 0 <= i < |list| && list[i].id == id
  }

  /** The notes are those of the plan and then those of the capabilities, one after the other. */
  ghost predicate NotesAsTabled(resolved: ResolvedSet, caps: seq<string>, target: Target, start: Mapped) {
    && resolved.unresolved == start.unresolved + Concatenated(cap => LeavesUnresolved(cap, target), caps)
    && resolved.warnings == start.warnings + Concatenated(cap => Warns(cap, target), caps)
    && (resolved.isComplete <==>
          && start.unresolved == []
          && forall cap :: cap in caps ==> cap in KNOWN_CAPABILITIES && !(cap == "alc257_audio" && target == Tahoe))
  }

  lemma EntriesByName(
    catalog: Catalog, caps: seq<string>, target: Target, variant: Variant, start: Mapped, resolved: ResolvedSet, i: nat)
    requires ValidCatalog(catalog) && StartsFromBase(start)
    requires Resolves(catalog, caps, target, variant, start, Ok(resolved)) && i < |resolved.dependencies|
    ensures FromCatalog(resolved.dependencies[i], catalog, variant) && AttributedByName(resolved.dependencies[i], caps, target)
  {
    var order :| ResolvesVia(order, catalog, caps, target, variant, start, Ok(resolved));
    DescribeEntries(order.value, MapAll(caps, target, start).requests, catalog, variant);
    DescribedFromCatalog(order.value, MapAll(caps, target, start).requests, catalog, variant, i);
    AttributionOf(catalog, caps, target, variant, start, resolved, i);
  }

  lemma AttributionOf(
    catalog: Catalog, caps: seq<string>, target: Target, variant: Variant, start: Mapped, resolved: ResolvedSet, i: nat)
    requires ValidCatalog(catalog) && StartsFromBase(start)
    requires Resolves(catalog, caps, target, variant, start, Ok(resolved)) && i < |resolved.dependencies|
    ensures AttributedByName(resolved.dependencies[i], caps, target)
  {
    var ids := ResolvedListExact(catalog, caps, target, variant, start, resolved);
    forall request
      ensures resolved.dependencies[i].provenance == Requested(request)
         <==> IsRequested(caps, target, resolved.dependencies[i].id, request)
    {
      ProvenanceByName(resolved.dependencies[i], caps, target, request);
    }
  }

  lemma RequestIsListed(
    catalog: Catalog, caps: seq<string>, target: Target, variant: Variant, start: Mapped, resolved: ResolvedSet,
    id: string, request: Request)
    requires ValidCatalog(catalog) && StartsFromBase(start)
    requires Resolves(catalog, caps, target, variant, start, Ok(resolved)) && IsRequested(caps, target, id, request)
    ensures exists i :: 0 <= i < |resolved.dependencies| && resolved.dependencies[i].id == id
  {
    var ids := ResolvedListExact(catalog, caps, target, variant, start, resolved);
    RequestedByName(caps, target, id, request);
    RequestedExact(caps, target, id, request);
    assert id in ids;
  }

  lemma NotesOfAnswer(
    catalog: Catalog, caps: seq<string>, target: Target, variant: Variant, start: Mapped, resolved: ResolvedSet)
    requires Resolves(catalog, caps, target, variant, start, Ok(resolved))
    ensures NotesAsTabled(resolved, caps, target, start)
  {
    var order :| ResolvesVia(order, catalog, caps, target, variant, start, Ok(resolved));
    NotesByName(caps, target, start);
    NothingUnresolved(caps, target);
  }

  /** A successful answer, field by field. */
  lemma AnswerByName(
    catalog: Catalog, caps: seq<string>, target: Target, variant: Variant, start: Mapped, resolved: ResolvedSet)
    requires ValidCatalog(catalog) && StartsFromBase(start)
    requires Resolves(catalog, caps, target, variant, start, Ok(resolved))
    ensures EntriesAsTabled(resolved.dependencies, catalog, caps, target, variant)
    ensures RequestsAreListed(resolved.dependencies, caps, target)
    ensures NotesAsTabled(resolved, caps, target, start)
  {
    NotesOfAnswer(catalog, caps, target, variant, start, resolved);
    forall i | 0 <= i < |resolved.dependencies|
      ensures FromCatalog(resolved.dependencies[i], catalog, variant) && AttributedByName(resolved.dependencies[i], caps, target)
    {
      EntriesByName(catalog, caps, target, variant, start, resolved, i);
    }
    forall id, request | IsRequested(caps, target, id, request)
      ensures exists i :: 0 <= i < |resolved.dependencies| && resolved.dependencies[i].id == id
    {
      RequestIsListed(catalog, caps, target, variant, start, resolved, id, request);
    }
  }

  // Failures --------------------------------------------------------------------------------------

  lemma {:induction false} FirstUndefined(ids: seq<string>, requests: Requests, catalog: Catalog, variant: Variant, i: nat)
    requires AllIn(ids, catalog) && i < |ids| && variant !in catalog[ids[i]].artifacts
    requires forall j :: 0 <= j < i ==> variant in catalog[ids[j]].artifacts
    ensures Describe(ids, requests, catalog, variant) == Err(VariantUndefined(ids[i]))
    decreases |ids|
  {
    var front := ids[..|ids| - 1];
    if i < |front| {
      FirstUndefined(front, requests, catalog, variant, i);
    } else {
      AllDefined(front, requests, catalog, variant);
    }
  }

  lemma {:induction false} AllDefined(ids: seq<string>, requests: Requests, catalog: Catalog, variant: Variant)
    requires AllIn(ids, catalog) && forall j :: 0 <= j < |ids| ==> variant in catalog[ids[j]].artifacts
    ensures Describe(ids, requests, catalog, variant).Ok?
    decreases |ids|
  {
    if ids != [] { AllDefined(ids[..|ids| - 1], requests, catalog, variant); }
  }

  /** `ids[i]` is the first listed id without an artifact of this variant. */
  predicate FirstWithout(ids: seq<string>, catalog: Catalog, variant: Variant, i: nat)
    requires AllIn(ids, catalog)
  {
    i < |ids| && variant !in catalog[ids[i]].artifacts && forall j :: 0 <= j < i ==> variant in catalog[ids[j]].artifacts
  }

  /** Once the order is found, the answer fails exactly when the variant is undefined, for the first such id. */
  lemma FailsOnFirstUndefined(
    ids: seq<string>, catalog: Catalog, caps: seq<string>, target: Target, variant: Variant, start: Mapped,
    r: Result<ResolvedSet, ResolveError>)
    requires AllIn(ids, catalog) && ResolvesVia(Ok(ids), catalog, caps, target, variant, start, r)
    ensures r.Ok? <==> forall i :: 0 <= i < |ids| ==> variant in catalog[ids[i]].artifacts
    ensures forall i: nat :: FirstWithout(ids, catalog, variant, i) ==> r == Err(VariantUndefined(ids[i]))
  {
    var requests := MapAll(caps, target, start).requests;
    forall i: nat | FirstWithout(ids, catalog, variant, i) ensures r == Err(VariantUndefined(ids[i])) {
      FirstUndefined(ids, requests, catalog, variant, i);
    }
    if forall i :: 0 <= i < |ids| ==> variant in catalog[ids[i]].artifacts {
      AllDefined(ids, requests, catalog, variant);
    } else {
      var i := FindUndefined(ids, catalog, variant);
    }
  }

  lemma FindUndefined(ids: seq<string>, catalog: Catalog, variant: Variant) returns (i: nat)
    requires AllIn(ids, catalog) && exists k :: 0 <= k < |ids| && variant !in catalog[ids[k]].artifacts
    ensures FirstWithout(ids, catalog, variant, i)
  {
    i := 0;
    while variant in catalog[ids[i]].artifacts
      invariant i < |ids| && forall j :: 0 <= j < i ==> variant in catalog[ids[j]].artifacts
      decreases |ids| - i
    {
      i := i + 1;
    }
  }
}
