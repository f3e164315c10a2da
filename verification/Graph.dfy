/**
 * The dependency graph: what it means to resolve a request (`Reachable`, `PrerequisitesFirst`), the
 * depth-first sort as a pure function (`Visit`), what that function guarantees, and the class whose
 * methods compute it in place.
 */
module Graph {
  import opened Common
  import opened Ordering

  type Adjacency = map<string, seq<string>>

  // Walks and reachability ------------------------------------------------------------------------

  ghost predicate Walk(adj: Adjacency, w: seq<string>) {
    && w != []
    && forall i :: 0 <= i < |w| - 1 ==> Edge(adj, w[i], w[i + 1])
  }

  predicate Edge(adj: Adjacency, a: string, b: string) {
    a in adj && b in adj[a]
  }

  ghost predicate Reachable(adj: Adjacency, roots: set<string>, n: string) {
    exists w :: Walk(adj, w) && w[0] in roots && w[|w| - 1] == n
  }

  ghost predicate AllPresent(adj: Adjacency, roots: set<string>) {
    forall n :: Reachable(adj, roots, n) ==> n in adj
  }

  ghost function ReachableSet(adj: Adjacency, roots: set<string>): set<string> {
    set n | n in adj && Reachable(adj, roots, n)
  }

  /** A walk that returns to a node it has visited. */
  ghost predicate CyclicWalk(adj: Adjacency, w: seq<string>) {
    Walk(adj, w) && |w| >= 2 && w[|w| - 1] in w[..|w| - 1]
  }

  ghost predicate Acyclic(adj: Adjacency, nodes: set<string>) {
    forall w :: CyclicWalk(adj, w) ==> w[0] !in nodes
  }

  lemma ReachableRoot(adj: Adjacency, roots: set<string>, n: string)
    requires n in roots
    ensures Reachable(adj, roots, n)
  {
    assert Walk(adj, [n]);
  }

  lemma ReachableStep(adj: Adjacency, roots: set<string>, n: string, m: string)
    requires Reachable(adj, roots, n) && Edge(adj, n, m)
    ensures Reachable(adj, roots, m)
  {
    var w :| Walk(adj, w) && w[0] in roots && w[|w| - 1] == n;
    var longer := w + [m];
    assert Walk(adj, longer);
  }

  ghost predicate Closed(adj: Adjacency, nodes: set<string>) {
    forall n, m :: n in nodes && Edge(adj, n, m) ==> m in nodes
  }

  lemma {:induction false} WalkStaysInside(adj: Adjacency, nodes: set<string>, w: seq<string>)
    requires Closed(adj, nodes) && Walk(adj, w) && w[0] in nodes
    ensures forall i :: 0 <= i < |w| ==> w[i] in nodes
  {
    if |w| > 1 {
      assert Edge(adj, w[0], w[1]);
      assert Walk(adj, w[1..]) by {
        forall i | 0 <= i < |w| - 2 ensures Edge(adj, w[1..][i], w[1..][i + 1]) {
          assert Edge(adj, w[i + 1], w[i + 2]);
        }
      }
      WalkStaysInside(adj, nodes, w[1..]);
      forall i | 0 <= i < |w| ensures w[i] in nodes {
        if i > 0 { assert w[i] == w[1..][i - 1]; }
      }
    }
  }

  lemma ReachableStaysInside(adj: Adjacency, roots: set<string>, nodes: set<string>, n: string)
    requires Closed(adj, nodes) && roots <= nodes && Reachable(adj, roots, n)
    ensures n in nodes
  {
    var w :| Walk(adj, w) && w[0] in roots && w[|w| - 1] == n;
    WalkStaysInside(adj, nodes, w);
  }

  lemma ReachableSetClosed(adj: Adjacency, roots: set<string>)
    requires AllPresent(adj, roots)
    ensures Closed(adj, ReachableSet(adj, roots)) && roots <= ReachableSet(adj, roots)
  {
    forall n, m | n in ReachableSet(adj, roots) && Edge(adj, n, m) ensures m in ReachableSet(adj, roots) {
      ReachableStep(adj, roots, n, m);
    }
    forall n | n in roots ensures n in ReachableSet(adj, roots) { ReachableRoot(adj, roots, n); }
  }

  // The sort as a function ------------------------------------------------------------------------

  datatype Color = Unvisited | Visiting | Visited

  type Colors = map<string, Color>

  datatype SortResult = Sorted(colors: Colors, ordered: seq<string>) | CycleFound(walk: seq<string>)

  function UnvisitedNodes(colors: Colors): set<string> {
    set n | n in colors && colors[n] == Unvisited
  }

  function Visit(adj: Adjacency, node: string, path: seq<string>, colors: Colors, ordered: seq<string>)
    : (r: SortResult)
    requires colors.Keys <= adj.Keys && node in colors && colors[node] == Unvisited
    ensures r.Sorted? ==>
      r.colors.Keys == colors.Keys && UnvisitedNodes(r.colors) <= UnvisitedNodes(colors) - {node}
    decreases UnvisitedNodes(colors), 0
  {
    var entered := colors[node := Visiting];
    assert UnvisitedNodes(entered) == UnvisitedNodes(colors) - {node};
    match VisitAll(adj, adj[node], path + [node], entered, ordered)
    case CycleFound(walk) => CycleFound(walk)
    case Sorted(after, more) => Sorted(after[node := Visited], more + [node])
  }

  /** The loop over the prerequisites of one node, or over the sorted needed nodes when `path` is empty. */
  function VisitAll(adj: Adjacency, nodes: seq<string>, path: seq<string>, colors: Colors, ordered: seq<string>)
    : (r: SortResult)
    requires colors.Keys <= adj.Keys
    ensures r.Sorted? ==> r.colors.Keys == colors.Keys && UnvisitedNodes(r.colors) <= UnvisitedNodes(colors)
    decreases UnvisitedNodes(colors), |nodes| + 1
  {
    if nodes == [] then
      Sorted(colors, ordered)
    else if nodes[0] in colors && colors[nodes[0]] == Visiting then
      CycleFound(path + [nodes[0]])
    else if nodes[0] in colors && colors[nodes[0]] == Unvisited then
      match Visit(adj, nodes[0], path, colors, ordered)
      case CycleFound(walk) => CycleFound(walk)
      case Sorted(after, more) => VisitAll(adj, nodes[1..], path, after, more)
    else
      VisitAll(adj, nodes[1..], path, colors, ordered)
  }

  function AllUnvisited(needed: set<string>): Colors {
    map n | n in needed :: Unvisited
  }

  /** The order, or the cycle, for a set of needed nodes. */
  function Sort(adj: Adjacency, needed: set<string>): SortResult
    requires needed <= adj.Keys
  {
    VisitAll(adj, SortedList(needed), [], AllUnvisited(needed), [])
  }

  // What the sort guarantees ----------------------------------------------------------------------

  /** Every prerequisite of a listed node is listed earlier. */
  ghost predicate PrerequisitesFirst(adj: Adjacency, list: seq<string>) {
    forall i, m :: 0 <= i < |list| && Edge(adj, list[i], m) ==> m in list[..i]
  }

  ghost predicate SearchInvariant(adj: Adjacency, path: seq<string>, colors: Colors, ordered: seq<string>) {
    && colors.Keys <= adj.Keys && Closed(adj, colors.Keys)
    && Distinct(ordered) && PrerequisitesFirst(adj, ordered)
    && (forall n :: n in ordered <==> n in colors && colors[n] == Visited)
    && (forall n :: n in path <==> n in colors && colors[n] == Visiting)
    && (path != [] ==> Walk(adj, path))
  }

  lemma {:induction false} VisitInvariant(
    adj: Adjacency, node: string, path: seq<string>, colors: Colors, ordered: seq<string>)
    requires SearchInvariant(adj, path, colors, ordered)
    requires node in colors && colors[node] == Unvisited
    requires path != [] ==> Edge(adj, path[|path| - 1], node)
    ensures var r := Visit(adj, node, path, colors, ordered);
      match r
      case Sorted(after, more) =>
        SearchInvariant(adj, path, after, more) && ordered <= more && node in more
      case CycleFound(walk) => CyclicWalk(adj, walk) && forall i :: 0 <= i < |walk| ==> walk[i] in colors
    decreases UnvisitedNodes(colors), 0
  {
    var entered := colors[node := Visiting];
    assert UnvisitedNodes(entered) == UnvisitedNodes(colors) - {node};
    assert entered.Keys == colors.Keys;
    var inner := path + [node];
    assert SearchInvariant(adj, inner, entered, ordered);
    assert forall i :: 0 <= i < |adj[node]| ==> Edge(adj, node, adj[node][i]);
    VisitAllInvariant(adj, adj[node], inner, entered, ordered);
    var r := VisitAll(adj, adj[node], inner, entered, ordered);
    if r.Sorted? {
      LeaveNode(adj, node, path, r.colors, r.ordered);
    }
  }

  lemma LeaveNode(adj: Adjacency, node: string, path: seq<string>, colors: Colors, ordered: seq<string>)
    requires SearchInvariant(adj, path + [node], colors, ordered)
    requires node !in path
    requires forall m :: Edge(adj, node, m) ==> m in ordered
    ensures SearchInvariant(adj, path, colors[node := Visited], ordered + [node])
  {
    var after, more := colors[node := Visited], ordered + [node];
    assert node in path + [node];
    assert after.Keys == colors.Keys;
    forall i, m | 0 <= i < |more| && Edge(adj, more[i], m) ensures m in more[..i] {
      if i < |ordered| {
        assert more[..i] == ordered[..i];
      } else {
        assert more[..i] == ordered;
      }
    }
    if path != [] {
      forall i | 0 <= i < |path| - 1 ensures Edge(adj, path[i], path[i + 1]) {
        assert Edge(adj, (path + [node])[i], (path + [node])[i + 1]);
      }
    }
    forall n ensures n in path <==> n in after && after[n] == Visiting {
      assert n in path + [node] <==> n in path || n == node;
    }
  }

  /** Meeting a node that is being visited closes a cycle. */
  lemma ClosesCycle(adj: Adjacency, node: string, path: seq<string>, colors: Colors, ordered: seq<string>)
    requires SearchInvariant(adj, path, colors, ordered)
    requires node in colors && colors[node] == Visiting
    requires path != [] ==> Edge(adj, path[|path| - 1], node)
    ensures CyclicWalk(adj, path + [node])
    ensures forall i :: 0 <= i < |path + [node]| ==> (path + [node])[i] in colors
  {
    var walk := path + [node];
    assert walk[..|walk| - 1] == path && node in path;
    assert forall i :: 0 <= i < |path| ==> path[i] in path;
  }

  lemma HeadAndTailListed(nodes: seq<string>, listed: seq<string>, more: seq<string>)
    requires nodes != [] && nodes[0] in listed && listed <= more
    requires forall i :: 0 <= i < |nodes| - 1 ==> nodes[1..][i] in more
    ensures forall i :: 0 <= i < |nodes| ==> nodes[i] in more
  {
    assert forall i :: 0 < i < |nodes| ==> nodes[i] == nodes[1..][i - 1];
  }

  lemma {:induction false} VisitAllInvariant(
    adj: Adjacency, nodes: seq<string>, path: seq<string>, colors: Colors, ordered: seq<string>)
    requires SearchInvariant(adj, path, colors, ordered)
    requires forall i :: 0 <= i < |nodes| ==> nodes[i] in colors
    requires path != [] ==> forall i :: 0 <= i < |nodes| ==> Edge(adj, path[|path| - 1], nodes[i])
    ensures var r := VisitAll(adj, nodes, path, colors, ordered);
      match r
      case Sorted(after, more) =>
        && SearchInvariant(adj, path, after, more) && ordered <= more
        && forall i :: 0 <= i < |nodes| ==> nodes[i] in more
      case CycleFound(walk) => CyclicWalk(adj, walk) && forall i :: 0 <= i < |walk| ==> walk[i] in colors
    decreases UnvisitedNodes(colors), |nodes| + 1
  {
    if nodes != [] {
      var node := nodes[0];
      if colors[node] == Visiting {
        ClosesCycle(adj, node, path, colors, ordered);
      } else if colors[node] == Unvisited {
        VisitInvariant(adj, node, path, colors, ordered);
        var r := Visit(adj, node, path, colors, ordered);
        if r.Sorted? {
          VisitAllInvariant(adj, nodes[1..], path, r.colors, r.ordered);
          var all := VisitAll(adj, nodes[1..], path, r.colors, r.ordered);
          if all.Sorted? { HeadAndTailListed(nodes, r.ordered, all.ordered); }
        }
      } else {
        assert node in ordered;
        VisitAllInvariant(adj, nodes[1..], path, colors, ordered);
        var all := VisitAll(adj, nodes[1..], path, colors, ordered);
        if all.Sorted? { HeadAndTailListed(nodes, ordered, all.ordered); }
      }
    }
  }

  /** A list of `needed` in which each node follows its prerequisites. */
  ghost predicate IsOrder(adj: Adjacency, needed: set<string>, list: seq<string>) {
    && (forall n :: n in list <==> n in needed)
    && Distinct(list)
    && PrerequisitesFirst(adj, list)
  }

  lemma SortCorrect(adj: Adjacency, needed: set<string>)
    requires needed <= adj.Keys && Closed(adj, needed)
    ensures match Sort(adj, needed)
      case Sorted(_, list) => IsOrder(adj, needed, list)
      case CycleFound(walk) => CyclicWalk(adj, walk) && walk[0] in needed
  {
    var colors := AllUnvisited(needed);
    assert colors.Keys == needed;
    assert SearchInvariant(adj, [], colors, []);
    VisitAllInvariant(adj, SortedList(needed), [], colors, []);
    var r := Sort(adj, needed);
    if r.Sorted? {
      forall n ensures n in r.ordered <==> n in needed {
        if n in needed { assert n in SortedList(needed); }
      }
    }
  }

  ghost function Position(list: seq<string>, n: string): (i: nat)
    requires n in list
    ensures i < |list| && list[i] == n
  {
    var i :| 0 <= i < |list| && list[i] == n;
    i
  }

  lemma {:induction false} WalkGoesDown(adj: Adjacency, list: seq<string>, w: seq<string>)
    requires Distinct(list) && PrerequisitesFirst(adj, list)
    requires Walk(adj, w) && w[0] in list
    ensures forall i :: 0 <= i < |w| ==> w[i] in list
    ensures forall i :: 0 < i < |w| ==> Position(list, w[i]) < Position(list, w[0])
  {
    if |w| > 1 {
      assert Edge(adj, w[0], w[1]);
      var p := Position(list, w[0]);
      assert w[1] in list[..p];
      assert Position(list, w[1]) < p;
      assert Walk(adj, w[1..]) by {
        forall i | 0 <= i < |w| - 2 ensures Edge(adj, w[1..][i], w[1..][i + 1]) {
          assert Edge(adj, w[i + 1], w[i + 2]);
        }
      }
      WalkGoesDown(adj, list, w[1..]);
      forall i | 0 < i < |w| ensures w[i] in list && Position(list, w[i]) < p {
        assert w[i] == w[1..][i - 1];
      }
    }
  }

  /** A graph part with a prerequisites-first list has no cycle. */
  lemma OrderedIsAcyclic(adj: Adjacency, needed: set<string>, list: seq<string>)
    requires IsOrder(adj, needed, list)
    ensures Acyclic(adj, needed)
  {
    forall w | CyclicWalk(adj, w) ensures w[0] !in needed {
      if w[0] in needed {
        var last := |w| - 1;
        var k :| 0 <= k < last && w[k] == w[last];
        var tail := w[k..];
        assert Walk(adj, tail) by {
          forall i | 0 <= i < |tail| - 1 ensures Edge(adj, tail[i], tail[i + 1]) {
            assert Edge(adj, w[k + i], w[k + i + 1]);
          }
        }
        WalkGoesDown(adj, list, w);
        assert tail[|tail| - 1] == tail[0] == w[k] && |tail| > 1;
        WalkGoesDown(adj, list, tail);
      }
    }
  }

  // Resolution ------------------------------------------------------------------------------------

  datatype GraphError = NotFound(id: string) | Cycle(walk: seq<string>) | Cancelled

  type Resolution = Result<seq<string>, GraphError>

  /** What a resolution that was not cancelled may answer. */
  ghost predicate Answers(adj: Adjacency, roots: set<string>, r: Resolution) {
    match r
    case Err(Cancelled) => false
    case Err(NotFound(id)) => Reachable(adj, roots, id) && id !in adj
    case Err(Cycle(walk)) => AllPresent(adj, roots) && Sort(adj, ReachableSet(adj, roots)) == CycleFound(walk)
    case Ok(list) =>
      && AllPresent(adj, roots)
      && Sort(adj, ReachableSet(adj, roots)).Sorted?
      && Sort(adj, ReachableSet(adj, roots)).ordered == list
  }

  /**
   * Resolution is total and exact. It succeeds exactly when every reachable id is in the graph and
   * the reachable part is acyclic, and then lists the reachable ids, each once, prerequisites first.
   * It reports a missing id exactly when one is reachable, and otherwise a walk along real edges from
   * a reachable node that ends where it has been before.
   */
  lemma ResolutionExact(adj: Adjacency, roots: set<string>, r: Resolution)
    requires Answers(adj, roots, r)
    ensures r.Ok? <==> AllPresent(adj, roots) && Acyclic(adj, ReachableSet(adj, roots))
    ensures r.Ok? ==> IsOrder(adj, ReachableSet(adj, roots), r.value)
    ensures (r.Err? && r.error.NotFound?) <==> !AllPresent(adj, roots)
    ensures r.Err? && r.error.Cycle? ==>
      CyclicWalk(adj, r.error.walk) && Reachable(adj, roots, r.error.walk[0])
  {
    if AllPresent(adj, roots) {
      ReachableSetClosed(adj, roots);
      SortCorrect(adj, ReachableSet(adj, roots));
      if r.Ok? { OrderedIsAcyclic(adj, ReachableSet(adj, roots), r.value); }
    }
  }

  /** The result depends only on the set of reachable ids, not on how they were asked for. */
  lemma ResolutionCanonical(adj: Adjacency, roots: set<string>, other: set<string>, r: Resolution, s: Resolution)
    requires Answers(adj, roots, r) && Answers(adj, other, s)
    requires forall n :: Reachable(adj, roots, n) <==> Reachable(adj, other, n)
    ensures r.Ok? <==> s.Ok?
    ensures r.Ok? ==> r == s
    ensures r.Err? && r.error.Cycle? ==> r == s
  {
    assert ReachableSet(adj, roots) == ReachableSet(adj, other);
  }

  lemma ListReachesItself(adj: Adjacency, roots: set<string>, list: set<string>, n: string)
    requires AllPresent(adj, roots) && list == ReachableSet(adj, roots)
    ensures Reachable(adj, list, n) <==> Reachable(adj, roots, n)
  {
    ReachableSetClosed(adj, roots);
    if Reachable(adj, roots, n) { ReachableRoot(adj, list, n); }
    if Reachable(adj, list, n) { ReachableStaysInside(adj, list, list, n); }
  }

  /** Resolving the resolved list changes nothing. */
  lemma ResolutionIdempotent(adj: Adjacency, roots: set<string>, list: seq<string>, again: Resolution)
    requires Answers(adj, roots, Ok(list))
    ensures Answers(adj, NameSet(list), again) ==> again == Ok(list)
  {
    ResolutionExact(adj, roots, Ok(list));
    var listed := NameSet(list);
    assert listed == ReachableSet(adj, roots);
    forall n ensures Reachable(adj, roots, n) <==> Reachable(adj, listed, n) {
      ListReachesItself(adj, roots, listed, n);
    }
    if Answers(adj, listed, again) { ResolutionCanonical(adj, roots, listed, Ok(list), again); }
  }

  // The class -------------------------------------------------------------------------------------

  /** What is left to do in a loop over `nodes` from index `i` on, given what the whole loop returns. */
  ghost predicate LoopAt(
    whole: SortResult, adj: Adjacency, nodes: seq<string>, i: nat, path: seq<string>, colors: Colors, ordered: seq<string>)
  {
    && i <= |nodes| && colors.Keys <= adj.Keys
    && whole == VisitAll(adj, nodes[i..], path, colors, ordered)
  }

  lemma EnterNode(adj: Adjacency, node: string, path: seq<string>, colors: Colors, ordered: seq<string>)
    requires SearchInvariant(adj, path, colors, ordered)
    requires node in colors && colors[node] == Unvisited
    requires path != [] ==> Edge(adj, path[|path| - 1], node)
    ensures SearchInvariant(adj, path + [node], colors[node := Visiting], ordered)
  {
    var inner, entered := path + [node], colors[node := Visiting];
    assert entered.Keys == colors.Keys;
    assert forall n :: n in inner <==> n in path || n == node;
  }

  /** One turn of such a loop, by the color of the node at hand. */
  lemma LoopStep(
    whole: SortResult, adj: Adjacency, nodes: seq<string>, i: nat, path: seq<string>, colors: Colors, ordered: seq<string>)
    requires LoopAt(whole, adj, nodes, i, path, colors, ordered) && i < |nodes|
    requires SearchInvariant(adj, path, colors, ordered)
    requires nodes[i] in colors
    requires path != [] ==> Edge(adj, path[|path| - 1], nodes[i])
    ensures match colors[nodes[i]]
      case Visiting => whole == CycleFound(path + [nodes[i]])
      case Visited => LoopAt(whole, adj, nodes, i + 1, path, colors, ordered)
      case Unvisited =>
        match Visit(adj, nodes[i], path, colors, ordered)
        case CycleFound(walk) => whole == CycleFound(walk)
        case Sorted(after, more) =>
          && LoopAt(whole, adj, nodes, i + 1, path, after, more)
          && SearchInvariant(adj, path, after, more)
          && UnvisitedNodes(after) <= UnvisitedNodes(colors) - {nodes[i]}
          && after.Keys == colors.Keys
  {
    assert nodes[i..][0] == nodes[i] && nodes[i..][1..] == nodes[i + 1..];
    if colors[nodes[i]] == Unvisited {
      VisitInvariant(adj, nodes[i], path, colors, ordered);
    }
  }

  /** Collected ids are closed up to the worklist, and everything met so far is reachable. */
  ghost predicate Worklist(adj: Adjacency, roots: set<string>, needed: set<string>, toVisit: seq<string>) {
    && needed <= adj.Keys
    && (forall n :: n in needed || n in toVisit ==> Reachable(adj, roots, n))
    && (forall n :: n in roots ==> n in needed || n in toVisit)
    && (forall n, m :: n in needed && Edge(adj, n, m) ==> m in needed || m in toVisit)
  }

  lemma WorklistStart(adj: Adjacency, toVisit: seq<string>)
    ensures Worklist(adj, (set id | id in toVisit), {}, toVisit)
  {
    var roots := set id | id in toVisit;
    forall n | n in toVisit ensures Reachable(adj, roots, n) { ReachableRoot(adj, roots, n); }
  }

  lemma WorklistStep(adj: Adjacency, roots: set<string>, needed: set<string>, toVisit: seq<string>)
    requires Worklist(adj, roots, needed, toVisit) && toVisit != []
    ensures
      var current, rest := toVisit[|toVisit| - 1], toVisit[..|toVisit| - 1];
      if current !in adj then Reachable(adj, roots, current)
      else if current in needed then Worklist(adj, roots, needed, rest)
      else Worklist(adj, roots, needed + {current}, rest + adj[current])
  {
    var current, rest := toVisit[|toVisit| - 1], toVisit[..|toVisit| - 1];
    assert toVisit == rest + [current];
    assert current in toVisit;
    if current in adj && current !in needed {
      forall m | m in adj[current] ensures Reachable(adj, roots, m) {
        assert Edge(adj, current, m);
        ReachableStep(adj, roots, current, m);
      }
    }
  }

  lemma WorklistEnd(adj: Adjacency, roots: set<string>, needed: set<string>)
    requires Worklist(adj, roots, needed, [])
    ensures AllPresent(adj, roots) && needed == ReachableSet(adj, roots)
  {
    forall n | Reachable(adj, roots, n) ensures n in needed {
      ReachableStaysInside(adj, roots, needed, n);
    }
  }

  /** The state that the nested depth-first function captures. */
  class DepthFirstSearch {
    const adjacency: Adjacency
    var visited: Colors
    var path: seq<string>
    var ordered: seq<string>

    constructor (adjacency: Adjacency, needed: set<string>)
      ensures this.adjacency == adjacency && visited == AllUnvisited(needed) && path == [] && ordered == []
    {
      this.adjacency := adjacency;
      visited := map n | n in needed :: Unvisited;
      path := [];
      ordered := [];
    }

    method Dfs(node: string, cancellable: bool) returns (error: Option<GraphError>)
      requires SearchInvariant(adjacency, path, visited, ordered)
      requires node in visited && visited[node] == Unvisited
      requires path != [] ==> Edge(adjacency, path[|path| - 1], node)
      modifies this
      ensures
        || (cancellable && error == Some(Cancelled))
        || match Visit(adjacency, node, old(path), old(visited), old(ordered))
           case CycleFound(walk) => error == Some(Cycle(walk))
           case Sorted(after, more) => error == None && visited == after && ordered == more && path == old(path)
      decreases UnvisitedNodes(visited), 0
    {
      if cancellable {
        var stop: bool := *;
        if stop { return Some(Cancelled); }
      }
      ghost var before := visited;
      EnterNode(adjacency, node, path, visited, ordered);
      visited := visited[node := Visiting];
      path := path + [node];
      ghost var inner := path;
      assert node in UnvisitedNodes(before) && UnvisitedNodes(visited) == UnvisitedNodes(before) - {node};
      var parents := adjacency[node];
      ghost var whole := VisitAll(adjacency, parents, path, visited, ordered);
      assert parents[0..] == parents;
      assert forall i :: 0 <= i < |parents| ==> Edge(adjacency, node, parents[i]);
      error := VisitParents(parents, cancellable, whole);
      if error.Some? { return; }
      assert node in inner && visited[node] == Visiting;
      path := path[..|path| - 1];
      visited := visited[node := Visited];
      if node !in ordered {
        ordered := ordered + [node];
      }
    }

    /** The visit of one prerequisite of the node last entered. */
    method VisitParent(parents: seq<string>, i: nat, cancellable: bool, ghost whole: SortResult)
      returns (error: Option<GraphError>)
      requires SearchInvariant(adjacency, path, visited, ordered)
      requires i < |parents| && LoopAt(whole, adjacency, parents, i, path, visited, ordered)
      requires parents[i] in visited
      requires path != [] ==> Edge(adjacency, path[|path| - 1], parents[i])
      modifies this
      ensures error == None ==>
        && LoopAt(whole, adjacency, parents, i + 1, path, visited, ordered) && path == old(path)
        && SearchInvariant(adjacency, path, visited, ordered)
        && visited.Keys == old(visited).Keys && UnvisitedNodes(visited) <= old(UnvisitedNodes(visited))
      ensures error.Some? ==>
        || (cancellable && error == Some(Cancelled))
        || (whole.CycleFound? && error == Some(Cycle(whole.walk)))
      decreases UnvisitedNodes(visited), 1
    {
      error := None;
      LoopStep(whole, adjacency, parents, i, path, visited, ordered);
      if parents[i] in visited {
        if visited[parents[i]] == Visiting {
          error := Some(Cycle(path + [parents[i]]));
        } else if visited[parents[i]] == Unvisited {
          error := Dfs(parents[i], cancellable);
        }
      }
    }

    /** The loop over the prerequisites of the node last entered. */
    method VisitParents(parents: seq<string>, cancellable: bool, ghost whole: SortResult)
      returns (error: Option<GraphError>)
      requires SearchInvariant(adjacency, path, visited, ordered)
      requires LoopAt(whole, adjacency, parents, 0, path, visited, ordered)
      requires forall i :: 0 <= i < |parents| ==> parents[i] in visited
      requires path != [] ==> forall i :: 0 <= i < |parents| ==> Edge(adjacency, path[|path| - 1], parents[i])
      modifies this
      ensures error == None ==>
        && whole == Sorted(visited, ordered) && path == old(path)
        && SearchInvariant(adjacency, path, visited, ordered)
      ensures error.Some? ==>
        || (cancellable && error == Some(Cancelled))
        || (whole.CycleFound? && error == Some(Cycle(whole.walk)))
      decreases UnvisitedNodes(visited), 2
    {
      error := None;
      for i := 0 to |parents|
        invariant path == old(path) && SearchInvariant(adjacency, path, visited, ordered)
        invariant visited.Keys == old(visited).Keys && UnvisitedNodes(visited) <= old(UnvisitedNodes(visited))
        invariant LoopAt(whole, adjacency, parents, i, path, visited, ordered)
      {
        if cancellable {
          var stop: bool := *;
          if stop { return Some(Cancelled); }
        }
        error := VisitParent(parents, i, cancellable, whole);
        if error.Some? { return; }
      }
      assert parents[|parents|..] == [];
      error := None;
    }
  }

  class DependencyGraph {
    var adjacency: Adjacency

    ghost predicate Valid()
      reads this
    {
      forall n :: n in adjacency ==> IsLower(n) && forall i :: 0 <= i < |adjacency[n]| ==> IsLower(adjacency[n][i])
    }

    constructor ()
      ensures Valid() && adjacency == map[]
    {
      adjacency := map[];
    }

    method AddNode(nodeId: string, dependencies: seq<string>)
      requires Valid()
      modifies this
      ensures Valid() && adjacency == old(adjacency)[Lower(nodeId) := LowerAll(dependencies)]
    {
      adjacency := adjacency[Lower(nodeId) := LowerAll(dependencies)];
    }

    /** The worklist: every id reachable from the request, or the first missing one that is met. */
    method CollectNeeded(requestedIds: seq<string>, cancellable: bool) returns (r: Result<set<string>, GraphError>)
      requires Valid()
      ensures
        var roots := set id | id in LowerAll(requestedIds);
        match r
        case Ok(needed) => AllPresent(adjacency, roots) && needed == ReachableSet(adjacency, roots)
        case Err(NotFound(id)) => Reachable(adjacency, roots, id) && id !in adjacency
        case Err(Cancelled) => cancellable
        case Err(Cycle(_)) => false
    {
      var toVisit := LowerAll(requestedIds);
      ghost var roots := set id | id in toVisit;
      var allNeeded: set<string> := {};
      WorklistStart(adjacency, toVisit);
      while toVisit != []
        invariant Worklist(adjacency, roots, allNeeded, toVisit)
        decreases adjacency.Keys - allNeeded, |toVisit|
      {
        if cancellable {
          var stop: bool := *;
          if stop { return Err(Cancelled); }
        }
        WorklistStep(adjacency, roots, allNeeded, toVisit);
        var current := toVisit[|toVisit| - 1];
        toVisit := toVisit[..|toVisit| - 1];
        if current !in adjacency {
          return Err(NotFound(current));
        }
        if current !in allNeeded {
          assert current in adjacency.Keys - allNeeded;
          allNeeded := allNeeded + {current};
          toVisit := toVisit + adjacency[current];
        }
      }
      WorklistEnd(adjacency, roots, allNeeded);
      r := Ok(allNeeded);
    }

    /** Both phases; without cancellation the answer is the one that `Answers` describes. */
    method ResolveOrderedSet(requestedIds: seq<string>, cancellable: bool) returns (r: Resolution)
      requires Valid()
      ensures
        || (cancellable && r == Err(Cancelled))
        || Answers(adjacency, (set id | id in LowerAll(requestedIds)), r)
    {
      var collected := CollectNeeded(requestedIds, cancellable);
      if collected.Err? { return Err(collected.error); }
      ReachableSetClosed(adjacency, set id | id in LowerAll(requestedIds));
      r := SortNeeded(collected.value, cancellable);
    }

    method SortNeeded(allNeeded: set<string>, cancellable: bool) returns (r: Resolution)
      requires allNeeded <= adjacency.Keys && Closed(adjacency, allNeeded)
      ensures
        || (cancellable && r == Err(Cancelled))
        || match Sort(adjacency, allNeeded)
           case CycleFound(walk) => r == Err(Cycle(walk))
           case Sorted(_, list) => r == Ok(list)
    {
      var search := new DepthFirstSearch(adjacency, allNeeded);
      var nodes := SortedList(allNeeded);
      ghost var whole := Sort(adjacency, allNeeded);
      assert nodes[0..] == nodes;
      for i := 0 to |nodes|
        invariant search.adjacency == adjacency && search.path == []
        invariant search.visited.Keys == allNeeded
        invariant SearchInvariant(adjacency, [], search.visited, search.ordered)
        invariant LoopAt(whole, adjacency, nodes, i, [], search.visited, search.ordered)
      {
        assert nodes[i] in nodes;
        LoopStep(whole, adjacency, nodes, i, [], search.visited, search.ordered);
        if search.visited[nodes[i]] == Unvisited {
          var error := search.Dfs(nodes[i], cancellable);
          if error.Some? { return Err(error.value); }
        }
      }
      assert nodes[|nodes|..] == [];
      r := Ok(search.ordered);
    }
  }
}
