/**
 * From required capabilities to resolved dependencies: the capability table, the in-place loops of
 * `resolve`, and what the resolved list depends on.
 */
module Resolver {
  import opened Common
  import opened Ordering
  import opened ArtifactNames
  import Graph

  // The catalog -----------------------------------------------------------------------------------

  datatype Artifact = Artifact(assetName: string, sha256: string, sizeBytes: nat)

  datatype Spec = Spec(
    id: string, version: string, dependencies: seq<string>, artifacts: map<Variant, Artifact>, subcomponents: seq<string>)

  type Catalog = map<string, Spec>

  /** What the catalog loader checks: keys are the lower-case ids, and every parent is in the catalog. */
  ghost predicate ValidCatalog(catalog: Catalog) {
    forall id :: id in catalog ==>
      && catalog[id].id == id && IsLower(id)
      && forall i :: 0 <= i < |catalog[id].dependencies| ==>
           IsLower(catalog[id].dependencies[i]) && catalog[id].dependencies[i] in catalog
  }

  function CatalogAdjacency(catalog: Catalog): Graph.Adjacency {
    map id | id in catalog :: catalog[id].dependencies
  }

  // Capabilities ----------------------------------------------------------------------------------

  /** Why a dependency is requested: one constructor for each (reason, required-by) text of the table. */
  datatype Request =
    | CoreRuntime | CoreSmc
    | UhdGraphics | Alc257Audio | I219Ethernet | NvmePowerFix
    | WirelessSonoma | WirelessSequoia | WirelessTahoe
    | BluetoothFirmware | BluetoothStack | TouchscreenI2c | Ps2Input

  type Requests = map<string, Request>

  const BASE_REQUESTS: Requests := map["opencore" := CoreRuntime, "virtualsmc" := CoreSmc]

  /** What is reported beside the list: unresolved requirements and warnings. */
  datatype Note = FromPlan(text: string) | UnknownCapability(cap: string) | TahoeAnalogueAudio | TahoeWireless

  /** The branches of the capability chain; `Unknown` is a name outside the known set. */
  datatype Capability =
    | Graphics | Audio | Ethernet | Nvme | Wireless | Bluetooth | Touchscreen | Input | DiscreteGpu | Unknown

  function Classify(cap: string): Capability {
    if cap == "accelerated_intel_uhd_620" then Graphics
    else if cap == "alc257_audio" then Audio
    else if cap == "intel_gigabit_ethernet" then Ethernet
    else if cap == "nvme_compatibility_fix" then Nvme
    else if cap == "intel_wireless_lan" then Wireless
    else if cap == "intel_bluetooth" || cap == "intel_bluetooth_controller" then Bluetooth
    else if cap == "i2c_touchscreen" then Touchscreen
    else if cap == "ps2_trackpad_trackpoint" || cap == "thinkpad_input" then Input
    else if cap == "disable_discrete_gpu" then DiscreteGpu
    else Unknown
  }

  datatype Target = Sonoma | Sequoia | Tahoe

  /** The entries that one capability adds for a target. */
  function EntriesFor(cap: Capability, target: Target): Requests {
    match cap
    case Graphics => map["whatevergreen" := UhdGraphics]
    case Audio => if target == Tahoe then map[] else map["applealc" := Alc257Audio]
    case Ethernet => map["intelmausi" := I219Ethernet]
    case Nvme => map["nvmefix" := NvmePowerFix]
    case Wireless => (
      match target
      case Sonoma => map["airportitlwm" := WirelessSonoma]
      case Sequoia => map["itlwm" := WirelessSequoia]
      case Tahoe => map["itlwm" := WirelessTahoe])
    case Bluetooth => map["intel_bluetooth_firmware" := BluetoothFirmware, "bluetoolfixup" := BluetoothStack]
    case Touchscreen => map["voodooi2c" := TouchscreenI2c]
    case Input => map["voodoops2" := Ps2Input]
    case DiscreteGpu => map[]
    case Unknown => map[]
  }

  function UnresolvedFor(cap: string, target: Target): seq<Note> {
    if Classify(cap) == Unknown then [UnknownCapability(cap)]
    else if Classify(cap) == Audio && target == Tahoe then [TahoeAnalogueAudio]
    else []
  }

  function WarningsFor(cap: string, target: Target): seq<Note> {
    if Classify(cap) == Audio && target == Tahoe then [TahoeAnalogueAudio]
    else if Classify(cap) == Wireless && target == Tahoe then [TahoeWireless]
    else []
  }

  datatype Mapped = Mapped(requests: Requests, unresolved: seq<Note>, warnings: seq<Note>)

  /** The table after a list of capabilities, later entries overwriting earlier ones. */
  function MapAll(caps: seq<string>, target: Target, start: Mapped): Mapped {
    if caps == [] then start
    else MapOne(caps[|caps| - 1], target, MapAll(caps[..|caps| - 1], target, start))
  }

  function MapOne(cap: string, target: Target, so: Mapped): Mapped {
    Mapped(so.requests + EntriesFor(Classify(cap), target),
           so.unresolved + UnresolvedFor(cap, target),
           so.warnings + WarningsFor(cap, target))
  }

  function RequestedBy(caps: seq<string>, target: Target): Requests {
    MapAll(caps, target, Mapped(BASE_REQUESTS, [], [])).requests
  }

  /** Which branch an id belongs to, told by its length and one letter; ids of the base belong to none. */
  function OwnerOf(id: string): Capability {
    match |id|
    case 5 => Wireless
    case 7 => Nvme
    case 8 => if id[0] == 'a' then Audio else Unknown
    case 9 => if id[6] == 'i' then Touchscreen else Input
    case 10 => if id[0] == 'i' then Ethernet else Unknown
    case 12 => Wireless
    case 13 => if id[0] == 'w' then Graphics else Bluetooth
    case 24 => Bluetooth
    case _ => Unknown
  }

  lemma OwnerIsUnique(cap: Capability, target: Target, id: string)
    requires id in EntriesFor(cap, target)
    ensures OwnerOf(id) == cap && cap != Unknown
  {
  }

  lemma BaseHasNoOwner(id: string)
    requires id in BASE_REQUESTS
    ensures OwnerOf(id) == Unknown
  {
  }

  ghost predicate AsksFor(caps: seq<string>, target: Target, id: string, request: Request) {
    || (id in BASE_REQUESTS && BASE_REQUESTS[id] == request)
    || exists cap :: cap in caps && CapabilityAsks(cap, target, id, request)
  }

  ghost predicate CapabilityAsks(cap: string, target: Target, id: string, request: Request) {
    id in EntriesFor(Classify(cap), target) && EntriesFor(Classify(cap), target)[id] == request
  }

  /** No capability overwrites another's entry with anything different, nor a base entry. */
  lemma TableIsConsistent(caps: seq<string>, target: Target, cap: string, id: string, request: Request, other: Request)
    requires CapabilityAsks(cap, target, id, request)
    requires AsksFor(caps, target, id, other)
    ensures request == other
  {
    OwnerIsUnique(Classify(cap), target, id);
    if id in BASE_REQUESTS {
      BaseHasNoOwner(id);
    } else {
      var c :| c in caps && CapabilityAsks(c, target, id, other);
      OwnerIsUnique(Classify(c), target, id);
    }
  }

  lemma AsksForSnoc(front: seq<string>, cap: string, target: Target, id: string, request: Request)
    ensures AsksFor(front + [cap], target, id, request)
            <==> AsksFor(front, target, id, request) || CapabilityAsks(cap, target, id, request)
  {
    var caps := front + [cap];
    assert forall c :: c in caps <==> c in front || c == cap;
    assert cap in caps;
  }

  ghost predicate Holds(requests: Requests, id: string, request: Request) {
    id in requests && requests[id] == request
  }

  lemma Agree(front: seq<string>, target: Target, cap: string, id: string, request: Request)
    requires AsksFor(front, target, id, request)
    ensures id in EntriesFor(Classify(cap), target) ==> EntriesFor(Classify(cap), target)[id] == request
  {
    if id in EntriesFor(Classify(cap), target) {
      TableIsConsistent(front, target, cap, id, EntriesFor(Classify(cap), target)[id], request);
    }
  }

  lemma Merged(table: Requests, added: Requests, id: string, request: Request)
    requires id in table && id in added ==> table[id] == added[id]
    ensures Holds(table + added, id, request) <==> Holds(table, id, request) || Holds(added, id, request)
  {
  }

  /** The table holds exactly what the base and the capabilities ask for. */
  lemma {:induction false} RequestedExact(caps: seq<string>, target: Target, id: string, request: Request)
    ensures Holds(RequestedBy(caps, target), id, request) <==> AsksFor(caps, target, id, request)
  {
    if caps != [] {
      var front, cap := caps[..|caps| - 1], caps[|caps| - 1];
      var table, added := RequestedBy(front, target), EntriesFor(Classify(cap), target);
      RequestedExact(front, target, id, request);
      if id in table {
        RequestedExact(front, target, id, table[id]);
        Agree(front, target, cap, id, table[id]);
      }
      Merged(table, added, id, request);
      AsksForSnoc(front, cap, target, id, request);
      assert caps == front + [cap];
      assert RequestedBy(caps, target) == table + added;
    }
  }

  lemma SameAsks(caps: seq<string>, other: seq<string>, target: Target, id: string)
    requires forall cap :: cap in caps ==> cap in other
    requires id in RequestedBy(caps, target)
    ensures id in RequestedBy(other, target) && RequestedBy(other, target)[id] == RequestedBy(caps, target)[id]
  {
    var request := RequestedBy(caps, target)[id];
    RequestedExact(caps, target, id, request);
    assert AsksFor(other, target, id, request);
    RequestedExact(other, target, id, request);
  }

  lemma SameMap(a: Requests, b: Requests)
    requires forall id :: id in a ==> id in b && b[id] == a[id]
    requires forall id :: id in b ==> id in a && a[id] == b[id]
    ensures a == b
  {
  }

  /** Permuting or duplicating capabilities does not change the table. */
  lemma RequestedCanonical(caps: seq<string>, other: seq<string>, target: Target)
    requires forall cap :: cap in caps <==> cap in other
    ensures RequestedBy(caps, target) == RequestedBy(other, target)
  {
    var a, b := RequestedBy(caps, target), RequestedBy(other, target);
    forall id | id in a ensures id in b && b[id] == a[id] { SameAsks(caps, other, target, id); }
    forall id | id in b ensures id in a && a[id] == b[id] { SameAsks(other, caps, target, id); }
    SameMap(a, b);
  }

  // The resolved list -----------------------------------------------------------------------------

  datatype Provenance = Requested(request: Request) | Prerequisite

  datatype ResolvedDependency = ResolvedDependency(
    id: string, version: string, variant: Variant, artifact: Artifact, provenance: Provenance, subcomponents: seq<string>)
  {
    predicate IsTransitive() { provenance == Prerequisite }
  }

  datatype ResolvedSet = ResolvedSet(
    dependencies: seq<ResolvedDependency>, unresolved: seq<Note>, warnings: seq<Note>, isComplete: bool)

  datatype ResolveError = GraphFailed(error: Graph.GraphError) | VariantUndefined(id: string) | ResolveCancelled

  function ProvenanceOf(id: string, requests: Requests): Provenance {
    if id in requests then Requested(requests[id]) else Prerequisite
  }

  /** One list entry for each ordered id, up to the first id that lacks the variant. */
  function Describe(ids: seq<string>, requests: Requests, catalog: Catalog, variant: Variant)
    : Result<seq<ResolvedDependency>, ResolveError>
    requires forall i :: 0 <= i < |ids| ==> ids[i] in catalog
  {
    if ids == [] then Ok([])
    else
      var front, id := Describe(ids[..|ids| - 1], requests, catalog, variant), ids[|ids| - 1];
      var spec := catalog[id];
      if front.Err? then front
      else if variant !in spec.artifacts then Err(VariantUndefined(id))
      else Ok(front.value + [ResolvedDependency(spec.id, spec.version, variant, spec.artifacts[variant],
                                                ProvenanceOf(id, requests), spec.subcomponents)])
  }

  lemma {:induction false} DescribeEntries(ids: seq<string>, requests: Requests, catalog: Catalog, variant: Variant)
    requires ValidCatalog(catalog) && forall i :: 0 <= i < |ids| ==> ids[i] in catalog
    requires Describe(ids, requests, catalog, variant).Ok?
    ensures var list := Describe(ids, requests, catalog, variant).value;
      && |list| == |ids|
      && forall i :: 0 <= i < |ids| ==>
           list[i].id == ids[i] && list[i].provenance == ProvenanceOf(ids[i], requests)
  {
    if ids != [] {
      DescribeEntries(ids[..|ids| - 1], requests, catalog, variant);
    }
  }

  ghost predicate AllIn(ids: seq<string>, catalog: Catalog) {
    forall i :: 0 <= i < |ids| ==> ids[i] in catalog
  }

  function Finish(list: Result<seq<ResolvedDependency>, ResolveError>, mapped: Mapped): Result<ResolvedSet, ResolveError> {
    match list
    case Err(error) => Err(error)
    case Ok(dependencies) => Ok(ResolvedSet(dependencies, mapped.unresolved, mapped.warnings, mapped.unresolved == []))
  }

  /** What a resolution that was not cancelled may answer, for the notes `start` that come with the plan. */
  ghost predicate Resolves(
    catalog: Catalog, caps: seq<string>, target: Target, variant: Variant, start: Mapped,
    r: Result<ResolvedSet, ResolveError>)
  {
    exists order :: ResolvesVia(order, catalog, caps, target, variant, start, r)
  }

  ghost predicate ResolvesVia(
    order: Graph.Resolution, catalog: Catalog, caps: seq<string>, target: Target, variant: Variant, start: Mapped,
    r: Result<ResolvedSet, ResolveError>)
  {
    var mapped := MapAll(caps, target, start);
    && Graph.Answers(CatalogAdjacency(catalog), mapped.requests.Keys, order)
    && match order
       case Err(error) => r == Err(GraphFailed(error))
       case Ok(ids) => AllIn(ids, catalog) && r == Finish(Describe(ids, mapped.requests, catalog, variant), mapped)
  }

  ghost predicate StartsFromBase(start: Mapped) {
    start.requests == BASE_REQUESTS
  }

  lemma {:induction false} RequestsIgnoreNotes(caps: seq<string>, target: Target, start: Mapped)
    requires StartsFromBase(start)
    ensures MapAll(caps, target, start).requests == RequestedBy(caps, target)
  {
    if caps != [] { RequestsIgnoreNotes(caps[..|caps| - 1], target, start); }
  }

  ghost predicate WellAttributed(d: ResolvedDependency, caps: seq<string>, target: Target) {
    && (d.IsTransitive() <==> forall request :: !AsksFor(caps, target, d.id, request))
    && (!d.IsTransitive() ==> AsksFor(caps, target, d.id, d.provenance.request))
  }

  lemma Attribution(d: ResolvedDependency, caps: seq<string>, target: Target)
    requires d.provenance == ProvenanceOf(d.id, RequestedBy(caps, target))
    ensures WellAttributed(d, caps, target)
  {
    var requests := RequestedBy(caps, target);
    if d.id in requests {
      RequestedExact(caps, target, d.id, requests[d.id]);
    } else {
      forall request ensures !AsksFor(caps, target, d.id, request) {
        RequestedExact(caps, target, d.id, request);
      }
    }
  }

  /**
   * The resolved list is the canonical order of everything reachable from the requests. An entry is
   * transitive exactly when nothing asks for it directly; otherwise it carries the reason that the
   * base or some capability gives. Every request is listed.
   */
  lemma ResolvedListExact(
    catalog: Catalog, caps: seq<string>, target: Target, variant: Variant, start: Mapped, resolved: ResolvedSet)
    returns (ids: seq<string>)
    requires ValidCatalog(catalog) && StartsFromBase(start)
    requires Resolves(catalog, caps, target, variant, start, Ok(resolved))
    ensures |ids| == |resolved.dependencies|
    ensures forall i :: 0 <= i < |ids| ==> resolved.dependencies[i].id == ids[i]
    ensures var adj, roots := CatalogAdjacency(catalog), RequestedBy(caps, target).Keys;
      Graph.IsOrder(adj, Graph.ReachableSet(adj, roots), ids) && forall id :: id in roots ==> id in ids
    ensures forall i :: 0 <= i < |ids| ==> WellAttributed(resolved.dependencies[i], caps, target)
  {
    var order :| ResolvesVia(order, catalog, caps, target, variant, start, Ok(resolved));
    var adj, requests := CatalogAdjacency(catalog), RequestedBy(caps, target);
    RequestsIgnoreNotes(caps, target, start);
    ids := order.value;
    DescribeEntries(ids, requests, catalog, variant);
    Graph.ResolutionExact(adj, requests.Keys, order);
    Graph.ReachableSetClosed(adj, requests.Keys);
    forall i | 0 <= i < |ids| ensures WellAttributed(resolved.dependencies[i], caps, target) {
      Attribution(resolved.dependencies[i], caps, target);
    }
  }

  /** In a loaded catalog only a direct request can be missing. */
  lemma OnlyRequestsCanBeMissing(catalog: Catalog, roots: set<string>, id: string)
    requires ValidCatalog(catalog)
    requires Graph.Reachable(CatalogAdjacency(catalog), roots, id) && id !in catalog
    ensures id in roots
  {
    Graph.ReachableStaysInside(CatalogAdjacency(catalog), roots, catalog.Keys + roots, id);
  }

  /** Permuting or duplicating capabilities changes neither success nor the list, reasons and flags included. */
  lemma ResolutionIgnoresRepetition(
    catalog: Catalog, caps: seq<string>, other: seq<string>, target: Target, variant: Variant, start: Mapped,
    r: Result<ResolvedSet, ResolveError>, q: Result<ResolvedSet, ResolveError>)
    requires StartsFromBase(start)
    requires forall cap :: cap in caps <==> cap in other
    ensures Resolves(catalog, caps, target, variant, start, r) && Resolves(catalog, other, target, variant, start, q)
            ==> (r.Ok? <==> q.Ok?) && (r.Ok? ==> r.value.dependencies == q.value.dependencies)
  {
    if Resolves(catalog, caps, target, variant, start, r) && Resolves(catalog, other, target, variant, start, q) {
      var a :| ResolvesVia(a, catalog, caps, target, variant, start, r);
      var b :| ResolvesVia(b, catalog, other, target, variant, start, q);
      RequestsIgnoreNotes(caps, target, start);
      RequestsIgnoreNotes(other, target, start);
      RequestedCanonical(caps, other, target);
      var roots := RequestedBy(caps, target).Keys;
      Graph.ResolutionCanonical(CatalogAdjacency(catalog), roots, roots, a, b);
    }
  }

  lemma LiteralsAreLower()
    ensures IsLower("whatevergreen") && IsLower("applealc") && IsLower("intelmausi") && IsLower("nvmefix")
    ensures IsLower("airportitlwm") && IsLower("itlwm")
  {
  }

  lemma MoreLiteralsAreLower()
    ensures IsLower("intel_bluetooth_firmware") && IsLower("bluetoolfixup")
    ensures IsLower("voodooi2c") && IsLower("voodoops2")
  {
  }

  lemma EntriesAreLower(cap: Capability, target: Target, id: string)
    requires id in EntriesFor(cap, target)
    ensures IsLower(id)
  {
    LiteralsAreLower();
    MoreLiteralsAreLower();
  }

  lemma BaseIsLower(id: string)
    requires id in BASE_REQUESTS
    ensures IsLower(id)
  {
  }

  lemma {:induction false} RequestedIsLower(caps: seq<string>, target: Target)
    ensures forall id :: id in RequestedBy(caps, target) ==> IsLower(id)
  {
    forall id | id in RequestedBy(caps, target) ensures IsLower(id) {
      RequestedExact(caps, target, id, RequestedBy(caps, target)[id]);
      if id in BASE_REQUESTS {
        BaseIsLower(id);
      } else {
        var cap :| cap in caps && CapabilityAsks(cap, target, id, RequestedBy(caps, target)[id]);
        EntriesAreLower(Classify(cap), target, id);
      }
    }
  }

  lemma LowerAllKeeps(ids: seq<string>)
    requires forall id :: id in ids ==> IsLower(id)
    ensures LowerAll(ids) == ids
  {
    forall i | 0 <= i < |ids| ensures LowerAll(ids)[i] == ids[i] { assert ids[i] in ids; }
  }

  lemma {:induction false} DescribeStopsAt(ids: seq<string>, i: nat, requests: Requests, catalog: Catalog, variant: Variant)
    requires AllIn(ids, catalog) && i < |ids|
    requires Describe(ids[..i], requests, catalog, variant).Ok? && variant !in catalog[ids[i]].artifacts
    ensures Describe(ids, requests, catalog, variant) == Err(VariantUndefined(ids[i]))
  {
    var front := ids[..|ids| - 1];
    if i < |ids| - 1 {
      assert front[..i] == ids[..i];
      DescribeStopsAt(front, i, requests, catalog, variant);
    }
  }

  lemma OrderIsListed(catalog: Catalog, roots: set<string>, ids: seq<string>)
    requires Graph.Answers(CatalogAdjacency(catalog), roots, Ok(ids))
    ensures AllIn(ids, catalog)
  {
    Graph.ResolutionExact(CatalogAdjacency(catalog), roots, Ok(ids));
    forall i | 0 <= i < |ids| ensures ids[i] in catalog { assert ids[i] in ids; }
  }

  lemma ConcludeFailure(
    error: Graph.GraphError, catalog: Catalog, caps: seq<string>, target: Target, variant: Variant, start: Mapped)
    ensures Graph.Answers(CatalogAdjacency(catalog), MapAll(caps, target, start).requests.Keys, Err(error))
            ==> Resolves(catalog, caps, target, variant, start, Err(GraphFailed(error)))
  {
    if Graph.Answers(CatalogAdjacency(catalog), MapAll(caps, target, start).requests.Keys, Err(error)) {
      assert ResolvesVia(Err(error), catalog, caps, target, variant, start, Err(GraphFailed(error)));
    }
  }

  lemma ConcludeSuccess(
    ids: seq<string>, catalog: Catalog, caps: seq<string>, target: Target, variant: Variant, start: Mapped)
    requires AllIn(ids, catalog)
    ensures var mapped := MapAll(caps, target, start);
            Graph.Answers(CatalogAdjacency(catalog), mapped.requests.Keys, Ok(ids))
            ==> Resolves(catalog, caps, target, variant, start, Finish(Describe(ids, mapped.requests, catalog, variant), mapped))
  {
    var mapped := MapAll(caps, target, start);
    if Graph.Answers(CatalogAdjacency(catalog), mapped.requests.Keys, Ok(ids)) {
      assert ResolvesVia(Ok(ids), catalog, caps, target, variant, start,
                         Finish(Describe(ids, mapped.requests, catalog, variant), mapped));
    }
  }

  // The resolver ----------------------------------------------------------------------------------

  class DependencyResolver {
    const catalog: Catalog
    const graph: Graph.DependencyGraph

    ghost predicate Valid()
      reads graph
    {
      ValidCatalog(catalog) && graph.Valid() && graph.adjacency == CatalogAdjacency(catalog)
    }

    constructor (catalog: Catalog)
      requires ValidCatalog(catalog)
      ensures Valid() && this.catalog == catalog
    {
      var graph := new Graph.DependencyGraph();
      var left := catalog.Keys;
      while left != {}
        invariant left <= catalog.Keys && graph.Valid() && fresh(graph)
        invariant graph.adjacency == map id | id in catalog.Keys - left :: catalog[id].dependencies
      {
        var id :| id in left;
        ghost var before := graph.adjacency;
        graph.AddNode(catalog[id].id, catalog[id].dependencies);
        assert LowerAll(catalog[id].dependencies) == catalog[id].dependencies;
        left := left - {id};
      }
      this.catalog := catalog;
      this.graph := graph;
    }

    method Resolve(
      caps: seq<string>, target: Target, variant: Variant, planUnresolved: seq<Note>, planWarnings: seq<Note>,
      cancellable: bool)
      returns (r: Result<ResolvedSet, ResolveError>)
      requires Valid()
      ensures
        || (cancellable && (r == Err(ResolveCancelled) || r == Err(GraphFailed(Graph.Cancelled))))
        || Resolves(catalog, caps, target, variant, Mapped(BASE_REQUESTS, planUnresolved, planWarnings), r)
    {
      ghost var start := Mapped(BASE_REQUESTS, planUnresolved, planWarnings);
      var requests, unresolved, warnings := BASE_REQUESTS, planUnresolved, planWarnings;
      for i := 0 to |caps|
        invariant Mapped(requests, unresolved, warnings) == MapAll(caps[..i], target, start)
      {
        assert caps[..i + 1][..i] == caps[..i] && caps[..i + 1][i] == caps[i];
        requests := requests + EntriesFor(Classify(caps[i]), target);
        unresolved := unresolved + UnresolvedFor(caps[i], target);
        warnings := warnings + WarningsFor(caps[i], target);
      }
      assert caps[..|caps|] == caps;
      r := ResolveIds(requests, unresolved, warnings, variant, cancellable, caps, target, start);
    }

    method ResolveIds(
      requests: Requests, unresolved: seq<Note>, warnings: seq<Note>, variant: Variant, cancellable: bool,
      ghost caps: seq<string>, ghost target: Target, ghost start: Mapped)
      returns (r: Result<ResolvedSet, ResolveError>)
      requires Valid() && StartsFromBase(start)
      requires Mapped(requests, unresolved, warnings) == MapAll(caps, target, start)
      ensures
        || (cancellable && (r == Err(ResolveCancelled) || r == Err(GraphFailed(Graph.Cancelled))))
        || Resolves(catalog, caps, target, variant, start, r)
    {
      RequestsIgnoreNotes(caps, target, start);
      RequestedIsLower(caps, target);
      var order := OrderRequests(requests, cancellable);
      match order
      case Err(error) =>
        r := Err(GraphFailed(error));
        if error != Graph.Cancelled { ConcludeFailure(order.error, catalog, caps, target, variant, start); }
      case Ok(orderedIds) =>
        var list := DescribeAll(orderedIds, requests, variant, cancellable);
        if list == Err(ResolveCancelled) { return Err(ResolveCancelled); }
        r := Finish(list, Mapped(requests, unresolved, warnings));
        ConcludeSuccess(orderedIds, catalog, caps, target, variant, start);
    }

    method OrderRequests(requests: Requests, cancellable: bool) returns (order: Graph.Resolution)
      requires Valid() && forall id :: id in requests ==> IsLower(id)
      ensures
        || (cancellable && order == Err(Graph.Cancelled))
        || Graph.Answers(CatalogAdjacency(catalog), requests.Keys, order)
      ensures order.Ok? ==> AllIn(order.value, catalog)
    {
      var directIds := ListKeys(requests.Keys);
      LowerAllKeeps(directIds);
      assert (set id | id in directIds) == requests.Keys;
      order := graph.ResolveOrderedSet(directIds, cancellable);
      if order.Ok? { OrderIsListed(catalog, requests.Keys, order.value); }
    }

    /** The keys of a dictionary in some order; nothing depends on which. */
    method ListKeys(keys: set<string>) returns (ids: seq<string>)
      ensures forall id :: id in ids <==> id in keys
    {
      ids := [];
      var left := keys;
      while left != {}
        invariant left <= keys && forall id :: id in ids <==> id in keys - left
      {
        var id :| id in left;
        ids := ids + [id];
        left := left - {id};
      }
    }

    method DescribeAll(orderedIds: seq<string>, requests: Requests, variant: Variant, cancellable: bool)
      returns (r: Result<seq<ResolvedDependency>, ResolveError>)
      requires Valid() && AllIn(orderedIds, catalog)
      ensures
        || (cancellable && r == Err(ResolveCancelled))
        || (r == Describe(orderedIds, requests, catalog, variant) && r != Err(ResolveCancelled))
    {
      var list: seq<ResolvedDependency> := [];
      for i := 0 to |orderedIds|
        invariant Ok(list) == Describe(orderedIds[..i], requests, catalog, variant)
      {
        if cancellable {
          var stop: bool := *;
          if stop { return Err(ResolveCancelled); }
        }
        var id := orderedIds[i];
        var spec := catalog[id];
        assert orderedIds[..i + 1][..i] == orderedIds[..i] && orderedIds[..i + 1][i] == id;
        if variant !in spec.artifacts {
          DescribeStopsAt(orderedIds, i, requests, catalog, variant);
          return Err(VariantUndefined(id));
        }
        list := list + [ResolvedDependency(spec.id, spec.version, variant, spec.artifacts[variant],
                                           ProvenanceOf(id, requests), spec.subcomponents)];
      }
      assert orderedIds[..|orderedIds|] == orderedIds;
      r := Ok(list);
    }
  }
}
