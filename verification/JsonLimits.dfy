/**
 * Two complexity checks on parsed JSON: one walks an explicit stack, the other recurses and threads a
 * node counter. Both are proved to decide one predicate: the number of nodes (keys included), the
 * depth and the length of every string are within bounds. The bounds of the two callers differ in the
 * length of strings only.
 */
module JsonLimits {

  datatype Json =
    | Null
    | Boolean(value: bool)
    | Number(number: int)
    | Text(text: string)
    | Array(items: seq<Json>)
    | Object(entries: seq<Entry>)

  datatype Entry = Entry(key: string, item: Json)

  datatype Limits = Limits(nodes: nat, depth: nat, length: nat)

  const RECOVERY := Limits(10_000, 32, 65_536)

  const IMPORT := Limits(10_000, 32, 8_192)

  // Measures ---------------------------------------------------------------------------------------

  function Nodes(v: Json): (n: nat)
    ensures n > 0
    decreases v
  {
    match v
    case Array(items) => 1 + NodesOfItems(items)
    case Object(entries) => 1 + NodesOfEntries(entries)
    case _ => 1
  }

  function NodesOfItems(items: seq<Json>): nat
    decreases items
  {
    if items == [] then 0 else NodesOfItems(items[..|items| - 1]) + Nodes(items[|items| - 1])
  }

  /** A key is a node of its own. */
  function NodesOfEntries(entries: seq<Entry>): nat
    decreases entries
  {
    if entries == [] then 0 else NodesOfEntries(entries[..|entries| - 1]) + 1 + Nodes(entries[|entries| - 1].item)
  }

  function Max(a: nat, b: nat): nat {
    if a < b then b else a
  }

  function Depth(v: Json): nat
    decreases v
  {
    match v
    case Array(items) => if items == [] then 0 else 1 + DepthOfItems(items)
    case Object(entries) => if entries == [] then 0 else 1 + DepthOfEntries(entries)
    case _ => 0
  }

  function DepthOfItems(items: seq<Json>): nat
    decreases items
  {
    if items == [] then 0 else Max(DepthOfItems(items[..|items| - 1]), Depth(items[|items| - 1]))
  }

  function DepthOfEntries(entries: seq<Entry>): nat
    decreases entries
  {
    if entries == [] then 0 else Max(DepthOfEntries(entries[..|entries| - 1]), Depth(entries[|entries| - 1].item))
  }

  function Longest(v: Json): nat
    decreases v
  {
    match v
    case Text(s) => |s|
    case Array(items) => LongestOfItems(items)
    case Object(entries) => LongestOfEntries(entries)
    case _ => 0
  }

  function LongestOfItems(items: seq<Json>): nat
    decreases items
  {
    if items == [] then 0 else Max(LongestOfItems(items[..|items| - 1]), Longest(items[|items| - 1]))
  }

  function LongestOfEntries(entries: seq<Entry>): nat
    decreases entries
  {
    if entries == [] then 0
    else
      var last := entries[|entries| - 1];
      Max(LongestOfEntries(entries[..|entries| - 1]), Max(|last.key|, Longest(last.item)))
  }

  /** What the measures are of small values: keys count as nodes, as strings, and lie one level down. */
  lemma MeasuresOfSmallValues(key: string, text: string, v: Json)
    ensures Nodes(Text(text)) == 1 && Depth(Text(text)) == 0 && Longest(Text(text)) == |text|
    ensures Nodes(Object([])) == 1 && Depth(Object([])) == 0 && Nodes(Array([])) == 1 && Depth(Array([])) == 0
    ensures Nodes(Array([v])) == 1 + Nodes(v) && Depth(Array([v])) == 1 + Depth(v) && Longest(Array([v])) == Longest(v)
    ensures Nodes(Object([Entry(key, v)])) == 2 + Nodes(v) && Depth(Object([Entry(key, v)])) == 1 + Depth(v)
    ensures Longest(Object([Entry(key, v)])) == if |key| < Longest(v) then Longest(v) else |key|
  {
    assert [v][..0] == [] && [Entry(key, v)][..0] == [];
    assert LongestOfItems([v]) == Max(LongestOfItems([]), Longest(v));
    assert LongestOfEntries([Entry(key, v)]) == Max(LongestOfEntries([]), Max(|key|, Longest(v)));
  }

  /** ... and of longer lists: nodes add up, depth and longest string are those of the worst item. */
  lemma MeasuresOfLists(front: seq<Json>, v: Json)
    ensures Nodes(Array(front + [v])) == Nodes(Array(front)) + Nodes(v)
    ensures Depth(Array(front + [v])) == Max(Depth(Array(front)), 1 + Depth(v))
    ensures Longest(Array(front + [v])) == Max(Longest(Array(front)), Longest(v))
  {
    assert (front + [v])[..|front|] == front;
    if front == [] { assert DepthOfItems([]) == 0; }
  }

  lemma MeasuresOfObjects(entries: seq<Entry>, e: Entry)
    ensures Nodes(Object(entries + [e])) == Nodes(Object(entries)) + 1 + Nodes(e.item)
    ensures Depth(Object(entries + [e])) == Max(Depth(Object(entries)), 1 + Depth(e.item))
    ensures Longest(Object(entries + [e])) == Max(Longest(Object(entries)), Max(|e.key|, Longest(e.item)))
  {
    assert (entries + [e])[..|entries|] == entries;
    if entries == [] { assert DepthOfEntries([]) == 0; }
  }

  /** What both checks decide. */
  predicate WithinLimits(v: Json, limits: Limits) {
    Nodes(v) <= limits.nodes && Depth(v) <= limits.depth && Longest(v) <= limits.length
  }

  // The same bounds, read off node by node ---------------------------------------------------------

  predicate Fits(v: Json, depth: nat, limits: Limits)
    decreases v
  {
    depth <= limits.depth &&
    match v
    case Text(s) => |s| <= limits.length
    case Array(items) => ItemsFit(items, depth + 1, limits)
    case Object(entries) => EntriesFit(entries, depth + 1, limits)
    case _ => true
  }

  predicate ItemsFit(items: seq<Json>, depth: nat, limits: Limits)
    decreases items
  {
    items == [] || (ItemsFit(items[..|items| - 1], depth, limits) && Fits(items[|items| - 1], depth, limits))
  }

  predicate KeyFits(key: string, depth: nat, limits: Limits) {
    depth <= limits.depth && |key| <= limits.length
  }

  predicate EntriesFit(entries: seq<Entry>, depth: nat, limits: Limits)
    decreases entries
  {
    entries == [] ||
    (EntriesFit(entries[..|entries| - 1], depth, limits)
     && KeyFits(entries[|entries| - 1].key, depth, limits) && Fits(entries[|entries| - 1].item, depth, limits))
  }

  lemma {:induction false} FitsExactly(v: Json, depth: nat, limits: Limits)
    ensures Fits(v, depth, limits) <==> depth + Depth(v) <= limits.depth && Longest(v) <= limits.length
    decreases v
  {
    match v
    case Array(items) => ItemsFitExactly(items, depth + 1, limits);
    case Object(entries) => EntriesFitExactly(entries, depth + 1, limits);
    case _ =>
  }

  lemma {:induction false} ItemsFitExactly(items: seq<Json>, depth: nat, limits: Limits)
    ensures ItemsFit(items, depth, limits) <==>
            items == [] || (depth + DepthOfItems(items) <= limits.depth && LongestOfItems(items) <= limits.length)
    decreases items
  {
    if items != [] {
      ItemsFitExactly(items[..|items| - 1], depth, limits);
      FitsExactly(items[|items| - 1], depth, limits);
    }
  }

  lemma {:induction false} EntriesFitExactly(entries: seq<Entry>, depth: nat, limits: Limits)
    ensures EntriesFit(entries, depth, limits) <==>
            entries == [] || (depth + DepthOfEntries(entries) <= limits.depth && LongestOfEntries(entries) <= limits.length)
    decreases entries
  {
    if entries != [] {
      EntriesFitExactly(entries[..|entries| - 1], depth, limits);
      FitsExactly(entries[|entries| - 1].item, depth, limits);
    }
  }

  lemma {:induction false} NodesOfPrefix(items: seq<Json>, k: nat)
    requires k <= |items|
    ensures NodesOfItems(items[..k]) <= NodesOfItems(items)
    decreases |items|
  {
    if k < |items| {
      NodesOfPrefix(items[..|items| - 1], k);
      assert items[..|items| - 1][..k] == items[..k];
    } else {
      assert items[..k] == items;
    }
  }

  lemma {:induction false} ItemsPrefixFit(items: seq<Json>, k: nat, depth: nat, limits: Limits)
    requires k <= |items| && ItemsFit(items, depth, limits)
    ensures ItemsFit(items[..k], depth, limits)
    decreases |items|
  {
    if k < |items| {
      ItemsPrefixFit(items[..|items| - 1], k, depth, limits);
      assert items[..|items| - 1][..k] == items[..k];
    } else {
      assert items[..k] == items;
    }
  }

  lemma {:induction false} EntriesPrefix(entries: seq<Entry>, k: nat, depth: nat, limits: Limits)
    requires k <= |entries|
    ensures NodesOfEntries(entries[..k]) <= NodesOfEntries(entries)
    ensures EntriesFit(entries, depth, limits) ==> EntriesFit(entries[..k], depth, limits)
    decreases |entries|
  {
    if k < |entries| {
      EntriesPrefix(entries[..|entries| - 1], k, depth, limits);
      assert entries[..|entries| - 1][..k] == entries[..k];
    } else {
      assert entries[..k] == entries;
    }
  }

  // Bounds of an object from bounds of its entries -------------------------------------------------

  lemma {:induction false} NodesOfEntriesAtMost(entries: seq<Entry>, k: nat)
    requires forall i :: 0 <= i < |entries| ==> Nodes(entries[i].item) <= k
    ensures NodesOfEntries(entries) <= |entries| * (k + 1)
    decreases |entries|
  {
    if entries != [] {
      NodesOfEntriesAtMost(entries[..|entries| - 1], k);
      assert |entries| * (k + 1) == (|entries| - 1) * (k + 1) + (k + 1);
    }
  }

  lemma {:induction false} DepthOfEntriesAtMost(entries: seq<Entry>, d: nat)
    requires forall i :: 0 <= i < |entries| ==> Depth(entries[i].item) <= d
    ensures DepthOfEntries(entries) <= d
    decreases |entries|
  {
    if entries != [] { DepthOfEntriesAtMost(entries[..|entries| - 1], d); }
  }

  lemma {:induction false} LongestOfEntriesExactly(entries: seq<Entry>, n: nat)
    ensures LongestOfEntries(entries) <= n <==>
            forall i :: 0 <= i < |entries| ==> |entries[i].key| <= n && Longest(entries[i].item) <= n
    decreases |entries|
  {
    if entries != [] {
      var front := entries[..|entries| - 1];
      LongestOfEntriesExactly(front, n);
      assert forall i :: 0 <= i < |front| ==> entries[i] == front[i];
    }
  }

  // The stack loop ---------------------------------------------------------------------------------

  type Pending = seq<(Json, nat)>

  function PendingNodes(stack: Pending): nat {
    if stack == [] then 0 else PendingNodes(stack[..|stack| - 1]) + Nodes(stack[|stack| - 1].0)
  }

  predicate PendingFits(stack: Pending, limits: Limits) {
    stack == [] || (PendingFits(stack[..|stack| - 1], limits) && Fits(stack[|stack| - 1].0, stack[|stack| - 1].1, limits))
  }

  lemma Pushed(stack: Pending, v: Json, depth: nat, limits: Limits)
    ensures PendingNodes(stack + [(v, depth)]) == PendingNodes(stack) + Nodes(v)
    ensures PendingFits(stack + [(v, depth)], limits) <==> PendingFits(stack, limits) && Fits(v, depth, limits)
  {
    var more := stack + [(v, depth)];
    assert more[..|more| - 1] == stack;
  }

  method PushItems(stack: Pending, items: seq<Json>, depth: nat, ghost limits: Limits) returns (more: Pending)
    ensures PendingNodes(more) == PendingNodes(stack) + NodesOfItems(items)
    ensures PendingFits(more, limits) <==> PendingFits(stack, limits) && ItemsFit(items, depth, limits)
  {
    more := stack;
    for i := 0 to |items|
      invariant PendingNodes(more) == PendingNodes(stack) + NodesOfItems(items[..i])
      invariant PendingFits(more, limits) <==> PendingFits(stack, limits) && ItemsFit(items[..i], depth, limits)
    {
      Pushed(more, items[i], depth, limits);
      assert items[..i + 1][..i] == items[..i];
      more := more + [(items[i], depth)];
    }
    assert items[..|items|] == items;
  }

  method PushEntries(stack: Pending, entries: seq<Entry>, depth: nat, ghost limits: Limits) returns (more: Pending)
    ensures PendingNodes(more) == PendingNodes(stack) + NodesOfEntries(entries)
    ensures PendingFits(more, limits) <==> PendingFits(stack, limits) && EntriesFit(entries, depth, limits)
  {
    more := stack;
    for i := 0 to |entries|
      invariant PendingNodes(more) == PendingNodes(stack) + NodesOfEntries(entries[..i])
      invariant PendingFits(more, limits) <==> PendingFits(stack, limits) && EntriesFit(entries[..i], depth, limits)
    {
      assert entries[..i + 1][..i] == entries[..i];
      Pushed(more, Text(entries[i].key), depth, limits);
      more := more + [(Text(entries[i].key), depth)];
      Pushed(more, entries[i].item, depth, limits);
      more := more + [(entries[i].item, depth)];
    }
    assert entries[..|entries|] == entries;
  }

  /** The check of Recovery metadata. */
  method CheckWithStack(v: Json, limits: Limits) returns (ok: bool)
    ensures ok <==> WithinLimits(v, limits)
  {
    FitsExactly(v, 0, limits);
    var stack: Pending, nodes := [], 0;
    Pushed(stack, v, 0, limits);
    stack := stack + [(v, 0)];
    while stack != []
      invariant nodes + PendingNodes(stack) == Nodes(v) && 0 <= nodes <= limits.nodes
      invariant PendingFits(stack, limits) <==> Fits(v, 0, limits)
      decreases PendingNodes(stack)
    {
      var (current, depth) := stack[|stack| - 1];
      stack := stack[..|stack| - 1];
      nodes := nodes + 1;
      if nodes > limits.nodes || depth > limits.depth { return false; }
      match current
      case Text(s) =>
        if |s| > limits.length { return false; }
      case Object(entries) =>
        stack := PushEntries(stack, entries, depth + 1, limits);
      case Array(items) =>
        stack := PushItems(stack, items, depth + 1, limits);
      case _ =>
    }
    ok := true;
  }

  // The recursive check ----------------------------------------------------------------------------

  /** One call of the recursion: `counter'` continues the count when the value is accepted. */
  method CheckValue(v: Json, depth: nat, counter: nat, limits: Limits) returns (ok: bool, counter': nat)
    ensures ok <==> Fits(v, depth, limits) && counter + Nodes(v) <= limits.nodes
    ensures ok ==> counter' == counter + Nodes(v)
    decreases Nodes(v), 1
  {
    counter' := counter + 1;
    if counter' > limits.nodes || depth > limits.depth { return false, counter'; }
    match v
    case Text(s) => ok := |s| <= limits.length;
    case Object(entries) => ok, counter' := CheckEntries(entries, depth + 1, counter', limits);
    case Array(items) => ok, counter' := CheckItems(items, depth + 1, counter', limits);
    case _ => ok := true;
  }

  method CheckItems(items: seq<Json>, depth: nat, counter: nat, limits: Limits) returns (ok: bool, counter': nat)
    requires counter <= limits.nodes
    ensures ok <==> ItemsFit(items, depth, limits) && counter + NodesOfItems(items) <= limits.nodes
    ensures ok ==> counter' == counter + NodesOfItems(items)
    decreases NodesOfItems(items), 2
  {
    counter' := counter;
    for i := 0 to |items|
      invariant counter' == counter + NodesOfItems(items[..i]) && counter' <= limits.nodes
      invariant ItemsFit(items[..i], depth, limits)
    {
      NodesOfPrefix(items, i + 1);
      assert items[..i + 1][..i] == items[..i];
      ok, counter' := CheckValue(items[i], depth, counter', limits);
      if !ok {
        if ItemsFit(items, depth, limits) { ItemsPrefixFit(items, i + 1, depth, limits); }
        return;
      }
    }
    assert items[..|items|] == items;
    ok := true;
  }

  method CheckEntries(entries: seq<Entry>, depth: nat, counter: nat, limits: Limits) returns (ok: bool, counter': nat)
    requires counter <= limits.nodes
    ensures ok <==> EntriesFit(entries, depth, limits) && counter + NodesOfEntries(entries) <= limits.nodes
    ensures ok ==> counter' == counter + NodesOfEntries(entries)
    decreases NodesOfEntries(entries), 2
  {
    counter' := counter;
    for i := 0 to |entries|
      invariant counter' == counter + NodesOfEntries(entries[..i]) && counter' <= limits.nodes
      invariant EntriesFit(entries[..i], depth, limits)
    {
      EntriesPrefix(entries, i + 1, depth, limits);
      assert entries[..i + 1][..i] == entries[..i];
      ok, counter' := CheckValue(Text(entries[i].key), depth, counter', limits);
      if !ok { return; }
      ok, counter' := CheckValue(entries[i].item, depth, counter', limits);
      if !ok { return; }
    }
    assert entries[..|entries|] == entries;
    ok := true;
  }

  /** The check of an imported configuration. */
  method CheckRecursively(v: Json, limits: Limits) returns (ok: bool)
    ensures ok <==> WithinLimits(v, limits)
  {
    FitsExactly(v, 0, limits);
    var counter;
    ok, counter := CheckValue(v, 0, 0, limits);
  }

  /**
   * With the shipped constants every accepted import is acceptable Recovery metadata; the converse
   * fails for strings of more than 8192 characters only.
   */
  lemma ImportIsStricterExactly(v: Json)
    ensures WithinLimits(v, IMPORT) <==> WithinLimits(v, RECOVERY) && Longest(v) <= 8_192
    ensures WithinLimits(v, RECOVERY) <==> Nodes(v) <= 10_000 && Depth(v) <= 32 && Longest(v) <= 65_536
  {
  }
}
