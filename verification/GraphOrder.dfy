/**
 * Which of the possible orders a resolution returns, and which of the cycles it reports: the ids are
 * taken in increasing order, the prerequisites of each in the order in which they are declared.
 */
module GraphOrder {
  import opened Common
  import opened Ordering
  import opened Graph

  /**
   * `list[from..to]` is what the ids `nodes` add to `list[..from]`, in turn: an id already listed adds
   * nothing, any other one is preceded by what its prerequisites add.
   */
  ghost predicate InTurn(adj: Adjacency, nodes: seq<string>, list: seq<string>, from: nat, to: nat)
    decreases if from <= to then to - from else 0, |nodes| + 1
  {
    && from <= to <= |list|
    && if nodes == [] then from == to
       else exists mid :: from <= mid <= to && Turn(adj, nodes[0], list, from, mid) && InTurn(adj, nodes[1..], list, mid, to)
  }

  ghost predicate Turn(adj: Adjacency, node: string, list: seq<string>, from: nat, to: nat)
    decreases if from <= to then to - from else 0, 0
  {
    && from <= to <= |list|
    && if node in list[..from] then from == to
       else from < to && list[to - 1] == node && node in adj && InTurn(adj, adj[node], list, from, to - 1)
  }

  // The sort goes in turn -------------------------------------------------------------------------

  lemma {:induction false} InTurnOfPrefix(
    adj: Adjacency, nodes: seq<string>, list: seq<string>, other: seq<string>, from: nat, to: nat)
    requires InTurn(adj, nodes, list, from, to) && to <= |other| && list[..to] == other[..to]
    ensures InTurn(adj, nodes, other, from, to)
    decreases (to - from), |nodes| + 1
  {
    if nodes != [] {
      var mid :| from <= mid <= to && Turn(adj, nodes[0], list, from, mid) && InTurn(adj, nodes[1..], list, mid, to);
      assert list[..mid] == list[..to][..mid] && other[..mid] == other[..to][..mid];
      TurnOfPrefix(adj, nodes[0], list, other, from, mid);
      InTurnOfPrefix(adj, nodes[1..], list, other, mid, to);
    }
  }

  lemma {:induction false} TurnOfPrefix(
    adj: Adjacency, node: string, list: seq<string>, other: seq<string>, from: nat, to: nat)
    requires Turn(adj, node, list, from, to) && to <= |other| && list[..to] == other[..to]
    ensures Turn(adj, node, other, from, to)
    decreases (to - from), 0
  {
    assert list[..from] == list[..to][..from] && other[..from] == other[..to][..from];
    if node !in list[..from] {
      assert list[..to][to - 1] == other[..to][to - 1];
      assert list[..to - 1] == list[..to][..to - 1] && other[..to - 1] == other[..to][..to - 1];
      InTurnOfPrefix(adj, adj[node], list, other, from, to - 1);
    }
  }

  lemma {:induction false} VisitInTurn(adj: Adjacency, node: string, path: seq<string>, colors: Colors, ordered: seq<string>)
    requires SearchInvariant(adj, path, colors, ordered)
    requires node in colors && colors[node] == Unvisited
    requires path != [] ==> Edge(adj, path[|path| - 1], node)
    ensures var r := Visit(adj, node, path, colors, ordered);
            r.Sorted? ==> Turn(adj, node, r.ordered, |ordered|, |r.ordered|)
    decreases UnvisitedNodes(colors), 0
  {
    var entered, inner := colors[node := Visiting], path + [node];
    assert UnvisitedNodes(entered) == UnvisitedNodes(colors) - {node};
    EnterNode(adj, node, path, colors, ordered);
    assert forall i :: 0 <= i < |adj[node]| ==> Edge(adj, node, adj[node][i]);
    VisitAllInvariant(adj, adj[node], inner, entered, ordered);
    VisitAllInTurn(adj, adj[node], inner, entered, ordered);
    var r := VisitAll(adj, adj[node], inner, entered, ordered);
    if r.Sorted? { TurnFromInner(adj, node, ordered, r.ordered); }
  }

  lemma TurnFromInner(adj: Adjacency, node: string, ordered: seq<string>, more: seq<string>)
    requires node in adj && node !in ordered && ordered <= more && InTurn(adj, adj[node], more, |ordered|, |more|)
    ensures Turn(adj, node, more + [node], |ordered|, |more| + 1)
  {
    var list := more + [node];
    assert list[..|more|] == more == more[..|more|];
    InTurnOfPrefix(adj, adj[node], more, list, |ordered|, |more|);
    assert list[..|ordered|] == ordered;
  }

  lemma {:induction false} VisitAllInTurn(
    adj: Adjacency, nodes: seq<string>, path: seq<string>, colors: Colors, ordered: seq<string>)
    requires SearchInvariant(adj, path, colors, ordered)
    requires forall i :: 0 <= i < |nodes| ==> nodes[i] in colors
    requires path != [] ==> forall i :: 0 <= i < |nodes| ==> Edge(adj, path[|path| - 1], nodes[i])
    ensures var r := VisitAll(adj, nodes, path, colors, ordered);
            r.Sorted? ==> InTurn(adj, nodes, r.ordered, |ordered|, |r.ordered|)
    decreases UnvisitedNodes(colors), |nodes| + 1
  {
    var r := VisitAll(adj, nodes, path, colors, ordered);
    if nodes != [] && r.Sorted? {
      var node := nodes[0];
      if colors[node] == Unvisited {
        VisitInvariant(adj, node, path, colors, ordered);
        VisitInTurn(adj, node, path, colors, ordered);
        var first := Visit(adj, node, path, colors, ordered);
        VisitAllInvariant(adj, nodes[1..], path, first.colors, first.ordered);
        VisitAllInTurn(adj, nodes[1..], path, first.colors, first.ordered);
        TurnsFromFirst(adj, nodes, ordered, first.ordered, r.ordered);
      } else {
        VisitAllInvariant(adj, nodes[1..], path, colors, ordered);
        VisitAllInTurn(adj, nodes[1..], path, colors, ordered);
        assert node in ordered;
        TurnsFromListed(adj, nodes, ordered, r.ordered);
      }
    }
  }

  lemma TurnsFromFirst(adj: Adjacency, nodes: seq<string>, ordered: seq<string>, first: seq<string>, all: seq<string>)
    requires nodes != [] && |ordered| <= |first| && first <= all
    requires Turn(adj, nodes[0], first, |ordered|, |first|) && InTurn(adj, nodes[1..], all, |first|, |all|)
    ensures InTurn(adj, nodes, all, |ordered|, |all|)
  {
    assert all[..|first|] == first == first[..|first|];
    TurnOfPrefix(adj, nodes[0], first, all, |ordered|, |first|);
  }

  lemma TurnsFromListed(adj: Adjacency, nodes: seq<string>, ordered: seq<string>, all: seq<string>)
    requires nodes != [] && ordered <= all && nodes[0] in ordered && InTurn(adj, nodes[1..], all, |ordered|, |all|)
    ensures InTurn(adj, nodes, all, |ordered|, |all|)
  {
    assert all[..|ordered|] == ordered;
    assert Turn(adj, nodes[0], all, |ordered|, |ordered|);
  }

  // There is only one such list -------------------------------------------------------------------

  lemma {:induction false} InTurnIsDetermined(
    adj: Adjacency, nodes: seq<string>, a: seq<string>, b: seq<string>, from: nat, toA: nat, toB: nat)
    requires InTurn(adj, nodes, a, from, toA) && InTurn(adj, nodes, b, from, toB) && a[..from] == b[..from]
    ensures toA == toB && a[..toA] == b[..toB]
    decreases (toA - from), |nodes| + 1
  {
    if nodes != [] {
      var i :| from <= i <= toA && Turn(adj, nodes[0], a, from, i) && InTurn(adj, nodes[1..], a, i, toA);
      var j :| from <= j <= toB && Turn(adj, nodes[0], b, from, j) && InTurn(adj, nodes[1..], b, j, toB);
      TurnIsDetermined(adj, nodes[0], a, b, from, i, j);
      InTurnIsDetermined(adj, nodes[1..], a, b, i, toA, toB);
    }
  }

  lemma {:induction false} TurnIsDetermined(
    adj: Adjacency, node: string, a: seq<string>, b: seq<string>, from: nat, toA: nat, toB: nat)
    requires Turn(adj, node, a, from, toA) && Turn(adj, node, b, from, toB) && a[..from] == b[..from]
    ensures toA == toB && a[..toA] == b[..toB]
    decreases (toA - from), 0
  {
    if node !in a[..from] {
      InTurnIsDetermined(adj, adj[node], a, b, from, toA - 1, toB - 1);
      assert a[..toA] == a[..toA - 1] + [node] && b[..toB] == b[..toB - 1] + [node];
    }
  }

  // What is listed in turn is reachable, and everything reachable is listed -----------------------

  lemma {:induction false} AddedIsReachable(
    adj: Adjacency, nodes: seq<string>, list: seq<string>, from: nat, to: nat, i: nat)
    requires InTurn(adj, nodes, list, from, to) && from <= i < to
    ensures Reachable(adj, NameSet(nodes), list[i]) && list[i] in adj
    decreases (to - from), |nodes| + 1
  {
    var mid :| from <= mid <= to && Turn(adj, nodes[0], list, from, mid) && InTurn(adj, nodes[1..], list, mid, to);
    assert nodes[0] in nodes && forall n :: n in nodes[1..] ==> n in nodes;
    if i < mid {
      TurnIsReachable(adj, nodes[0], list, from, mid, i);
      MoreRoots(adj, {nodes[0]}, NameSet(nodes), list[i]);
    } else {
      AddedIsReachable(adj, nodes[1..], list, mid, to, i);
      MoreRoots(adj, NameSet(nodes[1..]), NameSet(nodes), list[i]);
    }
  }

  lemma {:induction false} TurnIsReachable(adj: Adjacency, node: string, list: seq<string>, from: nat, to: nat, i: nat)
    requires Turn(adj, node, list, from, to) && from <= i < to
    ensures Reachable(adj, {node}, list[i]) && list[i] in adj
    decreases (to - from), 0
  {
    ReachableRoot(adj, {node}, node);
    if i < to - 1 {
      AddedIsReachable(adj, adj[node], list, from, to - 1, i);
      ReachableFromPrerequisite(adj, node, list[i]);
    }
  }

  lemma MoreRoots(adj: Adjacency, roots: set<string>, more: set<string>, n: string)
    requires roots <= more && Reachable(adj, roots, n)
    ensures Reachable(adj, more, n)
  {
    var w :| Walk(adj, w) && w[0] in roots && w[|w| - 1] == n;
    assert w[0] in more;
  }

  lemma ReachableFromPrerequisite(adj: Adjacency, node: string, n: string)
    requires node in adj && Reachable(adj, NameSet(adj[node]), n)
    ensures Reachable(adj, {node}, n)
  {
    var w :| Walk(adj, w) && w[0] in NameSet(adj[node]) && w[|w| - 1] == n;
    var longer := [node] + w;
    forall i | 0 <= i < |longer| - 1 ensures Edge(adj, longer[i], longer[i + 1]) {
      if i > 0 { assert Edge(adj, w[i - 1], w[i]); }
    }
    assert Walk(adj, longer);
  }

  lemma {:induction false} AddedAreListed(adj: Adjacency, nodes: seq<string>, list: seq<string>, from: nat, to: nat)
    requires InTurn(adj, nodes, list, from, to)
    ensures forall n :: n in nodes ==> n in list[..to]
    decreases |nodes|
  {
    if nodes != [] {
      var mid :| from <= mid <= to && Turn(adj, nodes[0], list, from, mid) && InTurn(adj, nodes[1..], list, mid, to);
      AddedAreListed(adj, nodes[1..], list, mid, to);
      assert nodes == [nodes[0]] + nodes[1..];
      assert nodes[0] in list[..mid];
      assert list[..mid] == list[..to][..mid];
    }
  }

  /** The ids up to a position are the ones listed before and those reachable from `nodes`. */
  lemma AddedExactly(adj: Adjacency, nodes: seq<string>, list: seq<string>, from: nat, to: nat)
    requires InTurn(adj, nodes, list, from, to) && PrerequisitesFirst(adj, list)
    ensures forall n :: n in list[..to] <==> n in list[..from] || Reachable(adj, NameSet(nodes), n)
  {
    AddedAreListed(adj, nodes, list, from, to);
    var listed := NameSet(list[..to]);
    forall n, m | n in listed && Edge(adj, n, m) ensures m in listed {
      var i :| 0 <= i < to && list[i] == n;
      assert m in list[..i] && list[..i] == list[..to][..i];
    }
    forall n | Reachable(adj, NameSet(nodes), n) ensures n in list[..to] {
      ReachableStaysInside(adj, NameSet(nodes), listed, n);
    }
    assert forall i :: 0 <= i < from ==> list[i] in list[..from];
    forall n | n in list[..to] && n !in list[..from] ensures Reachable(adj, NameSet(nodes), n) {
      var i :| 0 <= i < to && list[i] == n;
      AddedIsReachable(adj, nodes, list, from, to, i);
    }
    assert list[..from] == list[..to][..from];
  }

  /** The first `k` of `nodes` are dealt with at some position. */
  lemma {:induction false} FirstInTurn(adj: Adjacency, nodes: seq<string>, list: seq<string>, from: nat, to: nat, k: nat)
    returns (q: nat)
    requires InTurn(adj, nodes, list, from, to) && k <= |nodes|
    ensures from <= q <= to && InTurn(adj, nodes[..k], list, from, q)
    decreases k
  {
    if k == 0 {
      q := from;
    } else {
      var mid :| from <= mid <= to && Turn(adj, nodes[0], list, from, mid) && InTurn(adj, nodes[1..], list, mid, to);
      q := FirstInTurn(adj, nodes[1..], list, mid, to, k - 1);
      assert nodes[..k][1..] == nodes[1..][..k - 1];
    }
  }

  lemma {:induction false} TurnOf(adj: Adjacency, nodes: seq<string>, list: seq<string>, from: nat, to: nat, i: nat)
    returns (start: nat)
    requires InTurn(adj, nodes, list, from, to) && from <= i < to
    ensures from <= start <= i && Turn(adj, list[i], list, start, i + 1) && list[i] !in list[..start]
    decreases (to - from), |nodes| + 1
  {
    var mid :| from <= mid <= to && Turn(adj, nodes[0], list, from, mid) && InTurn(adj, nodes[1..], list, mid, to);
    if mid <= i {
      start := TurnOf(adj, nodes[1..], list, mid, to, i);
    } else if i == mid - 1 {
      start := from;
    } else {
      start := TurnOf(adj, adj[nodes[0]], list, from, mid - 1, i);
    }
  }

  // The order that is returned --------------------------------------------------------------------

  /** `inc` lists, in increasing order, what is reachable from the roots. */
  ghost predicate IncreasingListing(adj: Adjacency, roots: set<string>, inc: seq<string>) {
    Increasing(inc) && forall n :: n in inc <==> Reachable(adj, roots, n)
  }

  lemma ListingIsSorted(adj: Adjacency, roots: set<string>, inc: seq<string>)
    requires AllPresent(adj, roots) && IncreasingListing(adj, roots, inc)
    ensures inc == SortedList(ReachableSet(adj, roots))
  {
    SameMembersSameList(inc, SortedList(ReachableSet(adj, roots)));
  }

  lemma StartInvariant(adj: Adjacency, roots: set<string>)
    requires AllPresent(adj, roots)
    ensures var needed := ReachableSet(adj, roots);
      SearchInvariant(adj, [], AllUnvisited(needed), []) && forall n :: n in SortedList(needed) ==> n in AllUnvisited(needed)
  {
    ReachableSetClosed(adj, roots);
    assert AllUnvisited(ReachableSet(adj, roots)).Keys == ReachableSet(adj, roots);
  }

  lemma ReturnedInTurn(adj: Adjacency, roots: set<string>, inc: seq<string>, list: seq<string>)
    requires IncreasingListing(adj, roots, inc) && Answers(adj, roots, Ok(list))
    ensures InTurn(adj, inc, list, 0, |list|)
  {
    ListingIsSorted(adj, roots, inc);
    StartInvariant(adj, roots);
    VisitAllInTurn(adj, inc, [], AllUnvisited(ReachableSet(adj, roots)), []);
  }

  lemma InTurnIsPrerequisitesFirst(adj: Adjacency, nodes: seq<string>, list: seq<string>)
    requires InTurn(adj, nodes, list, 0, |list|)
    ensures PrerequisitesFirst(adj, list)
  {
    forall i, m | 0 <= i < |list| && Edge(adj, list[i], m) ensures m in list[..i] {
      var start := TurnOf(adj, nodes, list, 0, |list|, i);
      AddedAreListed(adj, adj[list[i]], list, start, i);
    }
  }

  lemma ListingReaches(adj: Adjacency, roots: set<string>, inc: seq<string>, n: string)
    requires AllPresent(adj, roots) && IncreasingListing(adj, roots, inc)
    ensures Reachable(adj, NameSet(inc), n) <==> Reachable(adj, roots, n)
  {
    assert NameSet(inc) == ReachableSet(adj, roots);
    ListReachesItself(adj, roots, NameSet(inc), n);
  }

  lemma ListsRequested(adj: Adjacency, roots: set<string>, inc: seq<string>, list: seq<string>, n: string)
    requires AllPresent(adj, roots) && IncreasingListing(adj, roots, inc)
    requires InTurn(adj, inc, list, 0, |list|) && PrerequisitesFirst(adj, list)
    ensures n in list <==> Reachable(adj, roots, n)
  {
    AddedExactly(adj, inc, list, 0, |list|);
    assert list[..|list|] == list && n !in list[..0];
    ListingReaches(adj, roots, inc, n);
  }

  lemma NoCycleAmong(adj: Adjacency, needed: set<string>, list: seq<string>, walk: seq<string>)
    requires IsOrder(adj, needed, list)
    ensures CyclicWalk(adj, walk) ==> walk[0] !in needed
  {
    OrderedIsAcyclic(adj, needed, list);
  }

  lemma OrderedIsSorted(adj: Adjacency, needed: set<string>, list: seq<string>)
    requires needed <= adj.Keys && Closed(adj, needed) && IsOrder(adj, needed, list)
    ensures Sort(adj, needed).Sorted?
  {
    SortCorrect(adj, needed);
    var sorted := Sort(adj, needed);
    if sorted.CycleFound? { NoCycleAmong(adj, needed, list, sorted.walk); }
  }

  lemma ReturnedIsDistinct(adj: Adjacency, roots: set<string>, list: seq<string>)
    requires Answers(adj, roots, Ok(list))
    ensures Distinct(list)
  {
    ReachableSetClosed(adj, roots);
    SortCorrect(adj, ReachableSet(adj, roots));
  }

  lemma InTurnIsOrder(adj: Adjacency, roots: set<string>, inc: seq<string>, list: seq<string>)
    requires AllPresent(adj, roots) && IncreasingListing(adj, roots, inc)
    requires Distinct(list) && InTurn(adj, inc, list, 0, |list|)
    ensures IsOrder(adj, ReachableSet(adj, roots), list)
  {
    InTurnIsPrerequisitesFirst(adj, inc, list);
    forall n ensures n in list <==> n in ReachableSet(adj, roots) { ListsRequested(adj, roots, inc, list, n); }
  }

  lemma InTurnIsReturned(adj: Adjacency, roots: set<string>, inc: seq<string>, list: seq<string>)
    requires AllPresent(adj, roots) && IncreasingListing(adj, roots, inc)
    requires Distinct(list) && InTurn(adj, inc, list, 0, |list|)
    ensures Answers(adj, roots, Ok(list))
  {
    InTurnIsOrder(adj, roots, inc, list);
    var sorted := SortedIsReturned(adj, roots, list);
    ReturnedInTurn(adj, roots, inc, sorted);
    WholeIsDetermined(adj, inc, list, sorted);
  }

  lemma SortedIsReturned(adj: Adjacency, roots: set<string>, list: seq<string>) returns (sorted: seq<string>)
    requires AllPresent(adj, roots) && IsOrder(adj, ReachableSet(adj, roots), list)
    ensures Answers(adj, roots, Ok(sorted))
  {
    ReachableSetClosed(adj, roots);
    OrderedIsSorted(adj, ReachableSet(adj, roots), list);
    sorted := Sort(adj, ReachableSet(adj, roots)).ordered;
  }

  lemma WholeIsDetermined(adj: Adjacency, nodes: seq<string>, a: seq<string>, b: seq<string>)
    requires InTurn(adj, nodes, a, 0, |a|) && InTurn(adj, nodes, b, 0, |b|)
    ensures a == b
  {
    InTurnIsDetermined(adj, nodes, a, b, 0, |a|, |b|);
    assert a[..|a|] == a && b[..|b|] == b;
  }

  /**
   * The returned list is the one that takes the reachable ids in increasing order, and the
   * prerequisites of each in declared order; there is only one.
   */
  lemma ReturnedExactly(adj: Adjacency, roots: set<string>, inc: seq<string>, list: seq<string>)
    requires AllPresent(adj, roots) && IncreasingListing(adj, roots, inc)
    ensures Answers(adj, roots, Ok(list)) <==> Distinct(list) && InTurn(adj, inc, list, 0, |list|)
  {
    if Answers(adj, roots, Ok(list)) {
      ReturnedInTurn(adj, roots, inc, list);
      ReturnedIsDistinct(adj, roots, list);
    }
    if Distinct(list) && InTurn(adj, inc, list, 0, |list|) { InTurnIsReturned(adj, roots, inc, list); }
  }

  /** `list[..q]` is what was listed before `from` and what is reachable from `nodes`. */
  ghost predicate ListedUpTo(adj: Adjacency, nodes: seq<string>, list: seq<string>, from: nat, q: nat) {
    from <= q <= |list| && forall n :: n in list[..q] <==> n in list[..from] || Reachable(adj, NameSet(nodes), n)
  }

  /** For every `k`, what is reachable from the first `k` ids in increasing order is listed first. */
  lemma LeastIdsFirst(adj: Adjacency, roots: set<string>, inc: seq<string>, list: seq<string>, k: nat) returns (q: nat)
    requires IncreasingListing(adj, roots, inc) && Answers(adj, roots, Ok(list)) && k <= |inc|
    ensures q <= |list| && forall n :: n in list[..q] <==> Reachable(adj, NameSet(inc[..k]), n)
  {
    ReturnedInTurn(adj, roots, inc, list);
    InTurnIsPrerequisitesFirst(adj, inc, list);
    q := FirstInTurn(adj, inc, list, 0, |list|, k);
    AddedExactly(adj, inc[..k], list, 0, q);
  }

  /**
   * Likewise what a listed id adds: from the position `from` where its turn begins, for every `k`, what
   * is reachable from its first `k` declared prerequisites comes first, and the id itself comes last.
   */
  lemma PrerequisitesAsDeclared(adj: Adjacency, roots: set<string>, inc: seq<string>, list: seq<string>, i: nat)
    returns (from: nat)
    requires IncreasingListing(adj, roots, inc) && Answers(adj, roots, Ok(list)) && i < |list|
    ensures from <= i && list[i] in adj && Turn(adj, list[i], list, from, i + 1)
    ensures forall k :: 0 <= k <= |adj[list[i]]| ==> ListedSomewhere(adj, adj[list[i]][..k], list, from, i)
    ensures ListedUpTo(adj, adj[list[i]], list, from, i)
  {
    ReturnedInTurn(adj, roots, inc, list);
    InTurnIsPrerequisitesFirst(adj, inc, list);
    from := TurnOf(adj, inc, list, 0, |list|, i);
    AddedExactly(adj, adj[list[i]], list, from, i);
    forall k | 0 <= k <= |adj[list[i]]| ensures ListedSomewhere(adj, adj[list[i]][..k], list, from, i) {
      SomewhereInTurn(adj, adj[list[i]], list, from, i, k);
    }
  }

  ghost predicate ListedSomewhere(adj: Adjacency, nodes: seq<string>, list: seq<string>, from: nat, limit: nat) {
    exists q: nat :: q <= limit && ListedUpTo(adj, nodes, list, from, q)
  }

  lemma SomewhereInTurn(adj: Adjacency, nodes: seq<string>, list: seq<string>, from: nat, to: nat, k: nat)
    requires InTurn(adj, nodes, list, from, to) && PrerequisitesFirst(adj, list) && k <= |nodes|
    ensures ListedSomewhere(adj, nodes[..k], list, from, to)
  {
    var q := FirstInTurn(adj, nodes, list, from, to, k);
    AddedExactly(adj, nodes[..k], list, from, q);
    assert ListedUpTo(adj, nodes[..k], list, from, q);
  }

  // The cycle that is reported --------------------------------------------------------------------

  ghost predicate ReachesCycle(adj: Adjacency, n: string) {
    exists w :: CyclicWalk(adj, w) && w[0] == n
  }

  /** `n` is the first of `nodes` from which a cycle can be reached. */
  ghost predicate FirstCyclic(adj: Adjacency, nodes: seq<string>, n: string) {
    ReachesCycle(adj, n) && exists k :: 0 <= k < |nodes| && nodes[k] == n && NoneCyclic(adj, nodes, k)
  }

  ghost predicate NoneCyclic(adj: Adjacency, nodes: seq<string>, k: nat)
    requires k <= |nodes|
  {
    forall j :: 0 <= j < k ==> !ReachesCycle(adj, nodes[j])
  }

  /** From position `from` on, each id of the walk is followed by its first cyclic prerequisite. */
  ghost predicate FollowsFirst(adj: Adjacency, walk: seq<string>, from: nat) {
    forall i :: from <= i < |walk| - 1 ==> walk[i] in adj && FirstCyclic(adj, adj[walk[i]], walk[i + 1])
  }

  lemma TailReachesCycle(adj: Adjacency, walk: seq<string>, m: nat)
    requires CyclicWalk(adj, walk) && m < |walk|
    ensures ReachesCycle(adj, walk[m])
  {
    var last := |walk| - 1;
    var i :| 0 <= i < last && walk[..last][i] == walk[last];
    var w := walk[m..] + walk[i + 1..];
    var join := |walk| - m;
    forall j | 0 <= j < |w| - 1 ensures Edge(adj, w[j], w[j + 1]) {
      if j < join - 1 {
        assert Edge(adj, walk[m + j], walk[m + j + 1]);
      } else {
        assert Edge(adj, walk[i + 1 + (j - join)], walk[i + 1 + (j - join) + 1]);
      }
    }
    assert w[join - 1] == walk[last] == w[|w| - 1];
    assert w[..|w| - 1][join - 1] == w[|w| - 1];
    assert CyclicWalk(adj, w);
  }

  lemma ListedReachesNoCycle(adj: Adjacency, ordered: seq<string>, n: string)
    requires Distinct(ordered) && PrerequisitesFirst(adj, ordered) && n in ordered
    ensures !ReachesCycle(adj, n)
  {
    OrderedIsAcyclic(adj, NameSet(ordered), ordered);
  }

  lemma FirstCyclicTail(adj: Adjacency, nodes: seq<string>, n: string)
    requires nodes != [] && !ReachesCycle(adj, nodes[0]) && FirstCyclic(adj, nodes[1..], n)
    ensures FirstCyclic(adj, nodes, n)
  {
    var k :| 0 <= k < |nodes| - 1 && nodes[1..][k] == n && NoneCyclic(adj, nodes[1..], k);
    forall j | 0 <= j < k + 1 ensures !ReachesCycle(adj, nodes[j]) {
      if j > 0 { assert nodes[j] == nodes[1..][j - 1]; }
    }
    assert nodes[k + 1] == n && NoneCyclic(adj, nodes, k + 1);
  }

  /** What a search that started on `path` reports. */
  ghost predicate Reported(adj: Adjacency, nodes: seq<string>, path: seq<string>, walk: seq<string>) {
    && CyclicWalk(adj, walk) && Distinct(walk[..|walk| - 1])
    && |path| < |walk| && walk[..|path|] == path
    && FirstCyclic(adj, nodes, walk[|path|]) && FollowsFirst(adj, walk, |path|)
  }

  lemma ReportHere(adj: Adjacency, nodes: seq<string>, path: seq<string>)
    requires nodes != [] && CyclicWalk(adj, path + [nodes[0]]) && Distinct(path)
    ensures Reported(adj, nodes, path, path + [nodes[0]])
  {
    var walk := path + [nodes[0]];
    TailReachesCycle(adj, walk, |path|);
    assert walk[..|path|] == path && NoneCyclic(adj, nodes, 0);
  }

  lemma {:induction false} VisitReports(adj: Adjacency, node: string, path: seq<string>, colors: Colors, ordered: seq<string>)
    requires SearchInvariant(adj, path, colors, ordered) && Distinct(path)
    requires node in colors && colors[node] == Unvisited
    requires path != [] ==> Edge(adj, path[|path| - 1], node)
    ensures var r := Visit(adj, node, path, colors, ordered); r.CycleFound? ==> Reported(adj, [node], path, r.walk)
    decreases UnvisitedNodes(colors), 0
  {
    var entered, inner := colors[node := Visiting], path + [node];
    assert UnvisitedNodes(entered) == UnvisitedNodes(colors) - {node};
    EnterNode(adj, node, path, colors, ordered);
    assert node !in path;
    assert forall i :: 0 <= i < |adj[node]| ==> Edge(adj, node, adj[node][i]);
    VisitAllReports(adj, adj[node], inner, entered, ordered);
    var r := VisitAll(adj, adj[node], inner, entered, ordered);
    if r.CycleFound? { ReportFromInner(adj, node, path, r.walk); }
  }

  lemma ReportFromInner(adj: Adjacency, node: string, path: seq<string>, walk: seq<string>)
    requires node in adj && Reported(adj, adj[node], path + [node], walk)
    ensures Reported(adj, [node], path, walk)
  {
    var inner := path + [node];
    assert walk[|path|] == walk[..|inner|][|path|] == node;
    assert walk[..|path|] == walk[..|inner|][..|path|] == path;
    TailReachesCycle(adj, walk, |path|);
    assert NoneCyclic(adj, [node], 0);
    forall i | |path| <= i < |walk| - 1 ensures walk[i] in adj && FirstCyclic(adj, adj[walk[i]], walk[i + 1]) {
      if i == |path| { assert walk[i + 1] == walk[|inner|]; }
    }
  }

  lemma ReportOfFirst(adj: Adjacency, nodes: seq<string>, path: seq<string>, walk: seq<string>)
    requires nodes != [] && Reported(adj, [nodes[0]], path, walk)
    ensures Reported(adj, nodes, path, walk)
  {
    assert walk[|path|] == nodes[0] && NoneCyclic(adj, nodes, 0);
  }

  lemma ReportOfRest(adj: Adjacency, nodes: seq<string>, path: seq<string>, walk: seq<string>)
    requires nodes != [] && !ReachesCycle(adj, nodes[0]) && Reported(adj, nodes[1..], path, walk)
    ensures Reported(adj, nodes, path, walk)
  {
    FirstCyclicTail(adj, nodes, walk[|path|]);
  }

  lemma {:induction false} VisitAllReports(
    adj: Adjacency, nodes: seq<string>, path: seq<string>, colors: Colors, ordered: seq<string>)
    requires SearchInvariant(adj, path, colors, ordered) && Distinct(path)
    requires forall i :: 0 <= i < |nodes| ==> nodes[i] in colors
    requires path != [] ==> forall i :: 0 <= i < |nodes| ==> Edge(adj, path[|path| - 1], nodes[i])
    ensures var r := VisitAll(adj, nodes, path, colors, ordered); r.CycleFound? ==> Reported(adj, nodes, path, r.walk)
    decreases UnvisitedNodes(colors), |nodes| + 1
  {
    var r := VisitAll(adj, nodes, path, colors, ordered);
    if r.CycleFound? {
      var node := nodes[0];
      if colors[node] == Visiting {
        ClosesCycle(adj, node, path, colors, ordered);
        ReportHere(adj, nodes, path);
      } else if colors[node] == Unvisited {
        VisitInvariant(adj, node, path, colors, ordered);
        VisitReports(adj, node, path, colors, ordered);
        var first := Visit(adj, node, path, colors, ordered);
        if first.CycleFound? {
          ReportOfFirst(adj, nodes, path, r.walk);
        } else {
          ListedReachesNoCycle(adj, first.ordered, node);
          VisitAllReports(adj, nodes[1..], path, first.colors, first.ordered);
          ReportOfRest(adj, nodes, path, r.walk);
        }
      } else {
        ListedReachesNoCycle(adj, ordered, node);
        VisitAllReports(adj, nodes[1..], path, colors, ordered);
        ReportOfRest(adj, nodes, path, r.walk);
      }
    }
  }

  lemma FirstCyclicIsUnique(adj: Adjacency, nodes: seq<string>, n: string, m: string)
    requires FirstCyclic(adj, nodes, n) && FirstCyclic(adj, nodes, m)
    ensures n == m
  {
    var j :| 0 <= j < |nodes| && nodes[j] == n && NoneCyclic(adj, nodes, j);
    var k :| 0 <= k < |nodes| && nodes[k] == m && NoneCyclic(adj, nodes, k);
  }

  lemma {:induction false} ReportsAgree(adj: Adjacency, nodes: seq<string>, a: seq<string>, b: seq<string>, k: nat)
    requires Reported(adj, nodes, [], a) && Reported(adj, nodes, [], b) && k <= |a| && k <= |b|
    ensures a[..k] == b[..k]
  {
    if k > 0 {
      ReportsAgree(adj, nodes, a, b, k - 1);
      assert a[..k] == a[..k - 1] + [a[k - 1]] && b[..k] == b[..k - 1] + [b[k - 1]];
      if k == 1 {
        FirstCyclicIsUnique(adj, nodes, a[0], b[0]);
      } else {
        assert a[k - 2] == a[..k - 1][k - 2] == b[..k - 1][k - 2] == b[k - 2];
        FirstCyclicIsUnique(adj, adj[a[k - 2]], a[k - 2 + 1], b[k - 2 + 1]);
      }
    }
  }

  /** A report ends where it first repeats an id, so it is not the beginning of a longer one. */
  lemma ReportEnds(adj: Adjacency, nodes: seq<string>, a: seq<string>, b: seq<string>)
    requires Reported(adj, nodes, [], a) && Reported(adj, nodes, [], b) && |a| <= |b|
    ensures a == b
  {
    ReportsAgree(adj, nodes, a, b, |a|);
    assert a[..|a|] == a && forall x :: 0 <= x < |a| ==> b[..|a|][x] == b[x];
    var last := |a| - 1;
    var i :| 0 <= i < last && a[..last][i] == a[last];
    assert b[i] == b[last];
    var front := b[..|b| - 1];
    assert forall x, y :: 0 <= x < y < |front| ==> b[x] != b[y] by {
      forall x, y | 0 <= x < y < |front| ensures b[x] != b[y] { assert front[x] == b[x] && front[y] == b[y]; }
    }
    assert b[..|b|] == b;
  }

  lemma FoundIsReported(adj: Adjacency, roots: set<string>, inc: seq<string>, walk: seq<string>)
    requires IncreasingListing(adj, roots, inc) && Answers(adj, roots, Err(Cycle(walk)))
    ensures Reported(adj, inc, [], walk)
  {
    ListingIsSorted(adj, roots, inc);
    StartInvariant(adj, roots);
    VisitAllReports(adj, inc, [], AllUnvisited(ReachableSet(adj, roots)), []);
  }

  lemma CyclicIsNotSorted(adj: Adjacency, roots: set<string>, walk: seq<string>)
    requires AllPresent(adj, roots) && CyclicWalk(adj, walk) && walk[0] in ReachableSet(adj, roots)
    ensures Sort(adj, ReachableSet(adj, roots)).CycleFound?
  {
    ReachableSetClosed(adj, roots);
    SortCorrect(adj, ReachableSet(adj, roots));
    var sorted := Sort(adj, ReachableSet(adj, roots));
    if sorted.Sorted? { OrderedIsAcyclic(adj, ReachableSet(adj, roots), sorted.ordered); }
  }

  /**
   * A cycle is reported exactly as the walk that starts at the least id from which one can be reached
   * and always goes on to the first declared prerequisite from which one can be reached, up to the
   * first id that it meets again.
   */
  lemma ReportedExactly(adj: Adjacency, roots: set<string>, inc: seq<string>, walk: seq<string>)
    requires AllPresent(adj, roots) && IncreasingListing(adj, roots, inc)
    ensures Answers(adj, roots, Err(Cycle(walk))) <==> Reported(adj, inc, [], walk)
  {
    if Answers(adj, roots, Err(Cycle(walk))) { FoundIsReported(adj, roots, inc, walk); }
    if Reported(adj, inc, [], walk) {
      assert walk[0] in inc;
      CyclicIsNotSorted(adj, roots, walk);
      var found := Sort(adj, ReachableSet(adj, roots)).walk;
      FoundIsReported(adj, roots, inc, found);
      if |walk| <= |found| { ReportEnds(adj, inc, walk, found); } else { ReportEnds(adj, inc, found, walk); }
    }
  }
}
