/**
 * Size-bounded eviction of the download directory. Files are visited oldest first; one whose lease
 * check answers "leased" is skipped, every other one is removed until the accounted total fits.
 * The lease answer a file gets at its only visit is the parameter `leased`. Afterwards the index is
 * reduced to the entries whose files are still there.
 */
module Eviction {
  import opened Common

  datatype FileInfo = FileInfo(size: nat, mtime: int)

  type Files = map<string, FileInfo>

  /** A value of the index: a record naming a resolved path, or something else. */
  datatype Entry = Malformed | Record(path: string)

  type Index = map<string, Entry>

  predicate EndsWith(s: string, suffix: string) {
    |suffix| <= |s| && s[|s| - |suffix|..] == suffix
  }

  /** Hidden and partial files belong to running transfers and are not accounted. */
  predicate Accounted(name: string) {
    !(name != "" && name[0] == '.') && !EndsWith(name, ".part") && !EndsWith(name, ".tmp")
  }

  lemma EndsWithExactly(s: string, suffix: string)
    ensures EndsWith(s, suffix) <==> exists rest :: s == rest + suffix
  {
    if EndsWith(s, suffix) { assert s == s[..|s| - |suffix|] + suffix; }
  }

  /** The names that are left alone: ".x", "x.part" and "x.tmp". */
  ghost predicate LeftAlone(name: string) {
    (exists rest :: name == "." + rest) || (exists rest :: name == rest + ".part") || (exists rest :: name == rest + ".tmp")
  }

  lemma AccountedExactly(name: string)
    ensures Accounted(name) <==> !LeftAlone(name)
  {
    EndsWithExactly(name, ".part");
    EndsWithExactly(name, ".tmp");
    if name != "" && name[0] == '.' { assert name == "." + name[1..]; }
  }

  function AccountedFiles(files: Files): (names: set<string>)
    ensures names <= files.Keys
  {
    set n | n in files && Accounted(n)
  }

  ghost function Bytes(files: Files, names: set<string>): nat
    requires names <= files.Keys
    decreases names
  {
    if names == {} then 0
    else
      var n :| n in names;
      files[n].size + Bytes(files, names - {n})
  }

  lemma {:induction false} BytesWithout(files: Files, names: set<string>, n: string)
    requires names <= files.Keys && n in names
    ensures Bytes(files, names) == files[n].size + Bytes(files, names - {n})
    decreases names
  {
    var m :| m in names && Bytes(files, names) == files[m].size + Bytes(files, names - {m});
    if m != n {
      BytesWithout(files, names - {m}, n);
      BytesWithout(files, names - {n}, m);
      assert names - {m} - {n} == names - {n} - {m};
    }
  }

  lemma {:induction false} BytesDependOnSizes(files: Files, fewer: Files, names: set<string>)
    requires names <= files.Keys && names <= fewer.Keys
    requires forall n :: n in names ==> files[n] == fewer[n]
    ensures Bytes(files, names) == Bytes(fewer, names)
    decreases names
  {
    if names != {} {
      var n :| n in names;
      BytesWithout(files, names, n);
      BytesWithout(fewer, names, n);
      BytesDependOnSizes(files, fewer, names - {n});
    }
  }

  // Age order --------------------------------------------------------------------------------------

  predicate Known(files: Files, names: seq<string>) {
    forall n :: n in names ==> n in files
  }

  ghost predicate OldestFirst(files: Files, names: seq<string>)
  {
    && Known(files, names)
    && forall i, j :: 0 <= i < j < |names| ==> files[names[i]].mtime <= files[names[j]].mtime
  }

  function InsertByAge(files: Files, name: string, names: seq<string>): (r: seq<string>)
    requires name in files && Known(files, names)
    ensures |r| == |names| + 1
    ensures forall n :: n in r <==> n == name || n in names
  {
    if names == [] then [name]
    else if files[name].mtime <= files[names[0]].mtime then [name] + names
    else
      assert names == [names[0]] + names[1..];
      [names[0]] + InsertByAge(files, name, names[1..])
  }

  lemma {:induction false} InsertKeepsDistinct(files: Files, name: string, names: seq<string>)
    requires name in files && Known(files, names)
    requires name !in names && Distinct(names)
    ensures Distinct(InsertByAge(files, name, names))
  {
    if names != [] && files[name].mtime > files[names[0]].mtime {
      InsertKeepsDistinct(files, name, names[1..]);
      assert names[0] !in names[1..];
    }
  }

  lemma {:induction false} InsertKeepsOrder(files: Files, name: string, names: seq<string>)
    requires name in files && Known(files, names)
    requires OldestFirst(files, names)
    ensures OldestFirst(files, InsertByAge(files, name, names))
  {
    if names != [] && files[name].mtime > files[names[0]].mtime {
      InsertKeepsOrder(files, name, names[1..]);
      var r := InsertByAge(files, name, names[1..]);
      assert forall n :: n in r ==> files[names[0]].mtime <= files[n].mtime;
    }
  }

  /** `sorted(names, key=mtime)`: stable, so equally old files keep their listing order. */
  function SortedByAge(files: Files, names: seq<string>): (r: seq<string>)
    requires Known(files, names)
    ensures |r| == |names|
    ensures forall n :: n in r <==> n in names
    ensures Distinct(names) ==> Distinct(r)
    ensures OldestFirst(files, r)
  {
    if names == [] then []
    else
      assert names == [names[0]] + names[1..];
      var rest := SortedByAge(files, names[1..]);
      InsertKeepsOrder(files, names[0], rest);
      assert Distinct(names) ==> Distinct(InsertByAge(files, names[0], rest)) by {
        if Distinct(names) { InsertKeepsDistinct(files, names[0], rest); }
      }
      InsertByAge(files, names[0], rest)
  }

  /** The files of one age, in their order. */
  function OfAge(files: Files, names: seq<string>, age: int): seq<string>
    requires Known(files, names)
  {
    if names == [] then []
    else (if files[names[0]].mtime == age then [names[0]] else []) + OfAge(files, names[1..], age)
  }

  lemma OfAgeCons(files: Files, first: string, rest: seq<string>, age: int)
    requires first in files && Known(files, rest)
    ensures OfAge(files, [first] + rest, age) == OfAge(files, [first], age) + OfAge(files, rest, age)
  {
    assert ([first] + rest)[1..] == rest && [first][1..] == [];
  }

  lemma {:induction false} InsertIsStable(files: Files, name: string, names: seq<string>, age: int)
    requires name in files && OldestFirst(files, names)
    ensures OfAge(files, InsertByAge(files, name, names), age) == OfAge(files, [name], age) + OfAge(files, names, age)
  {
    if names == [] || files[name].mtime <= files[names[0]].mtime {
      OfAgeCons(files, name, names, age);
    } else {
      var first, rest := names[0], names[1..];
      assert names == [first] + rest;
      InsertIsStable(files, name, rest, age);
      OfAgeCons(files, first, rest, age);
      OfAgeCons(files, first, InsertByAge(files, name, rest), age);
      OneAge(files, first, name, age);
    }
  }

  lemma OneAge(files: Files, a: string, b: string, age: int)
    requires a in files && b in files && files[a].mtime != files[b].mtime
    ensures OfAge(files, [a], age) == [] || OfAge(files, [b], age) == []
  {
    assert [a][1..] == [] && [b][1..] == [];
  }

  /** Equally old files are visited in the order in which they were listed. */
  lemma {:induction false} SortIsStable(files: Files, names: seq<string>, age: int)
    requires Known(files, names)
    ensures OfAge(files, SortedByAge(files, names), age) == OfAge(files, names, age)
  {
    if names != [] {
      var first, rest := names[0], names[1..];
      assert names == [first] + rest;
      SortIsStable(files, rest, age);
      InsertIsStable(files, first, SortedByAge(files, rest), age);
      OfAgeCons(files, first, rest, age);
    }
  }

  // What a pruning pass may remove -----------------------------------------------------------------

  ghost predicate OverLimitWithout(files: Files, gone: seq<string>, max: int) {
    Bytes(files, AccountedFiles(files) - NameSet(gone)) > max
  }

  /** No leased or unaccounted file is removed, nor any file twice. */
  ghost predicate SparesLeased(files: Files, leased: string -> bool, evicted: seq<string>) {
    Distinct(evicted) && forall n :: n in evicted ==> n in AccountedFiles(files) && !leased(n)
  }

  ghost predicate EvictsOldest(files: Files, leased: string -> bool, evicted: seq<string>)
  {
    && SparesLeased(files, leased, evicted)
    && OldestFirst(files, evicted)
    && forall n, m :: n in evicted && m in AccountedFiles(files) && m !in evicted && !leased(m)
        ==> files[n].mtime <= files[m].mtime
  }

  /** Each removal happened while the files then present exceeded the limit. */
  ghost predicate NeverTooMuch(files: Files, evicted: seq<string>, max: int) {
    forall k :: 0 <= k < |evicted| ==> OverLimitWithout(files, evicted[..k], max)
  }

  ghost predicate Enough(files: Files, leased: string -> bool, evicted: seq<string>, max: int) {
    || !OverLimitWithout(files, evicted, max)
    || forall n :: n in AccountedFiles(files) && n !in evicted ==> leased(n)
  }

  ghost predicate Prunes(files: Files, leased: string -> bool, max: int, evicted: seq<string>) {
    && SparesLeased(files, leased, evicted)
    && EvictsOldest(files, leased, evicted)
    && NeverTooMuch(files, evicted, max)
    && Enough(files, leased, evicted, max)
  }

  ghost predicate DistinctAges(files: Files) {
    forall n, m :: n in AccountedFiles(files) && m in AccountedFiles(files) && files[n].mtime == files[m].mtime ==> n == m
  }

  lemma SameVictim(files: Files, leased: string -> bool, a: seq<string>, b: seq<string>, k: nat)
    requires SparesLeased(files, leased, a) && EvictsOldest(files, leased, a)
    requires SparesLeased(files, leased, b) && EvictsOldest(files, leased, b)
    requires k < |a| && k < |b| && a[..k] == b[..k]
    ensures files[a[k]].mtime <= files[b[k]].mtime
  {
    forall j | 0 <= j < k ensures a[j] == b[j] { assert a[..k][j] == b[..k][j]; }
    if b[k] in a {
      var j :| 0 <= j < |a| && a[j] == b[k];
      assert j >= k;
    }
  }

  lemma {:induction false} SamePrefix(files: Files, leased: string -> bool, a: seq<string>, b: seq<string>, k: nat)
    requires DistinctAges(files)
    requires SparesLeased(files, leased, a) && EvictsOldest(files, leased, a)
    requires SparesLeased(files, leased, b) && EvictsOldest(files, leased, b)
    requires k <= |a| && k <= |b|
    ensures a[..k] == b[..k]
  {
    if k > 0 {
      SamePrefix(files, leased, a, b, k - 1);
      SameVictim(files, leased, a, b, k - 1);
      SameVictim(files, leased, b, a, k - 1);
      assert a[..k] == a[..k - 1] + [a[k - 1]] && b[..k] == b[..k - 1] + [b[k - 1]];
    }
  }

  lemma NextIsNew(b: seq<string>, k: nat)
    requires Distinct(b) && k < |b|
    ensures b[k] !in b[..k]
  {
  }

  lemma NoShorter(files: Files, leased: string -> bool, max: int, a: seq<string>, b: seq<string>)
    requires DistinctAges(files) && Prunes(files, leased, max, a) && Prunes(files, leased, max, b)
    ensures |b| <= |a|
  {
    if |a| < |b| {
      SamePrefix(files, leased, a, b, |a|);
      assert a[..|a|] == a;
      NextIsNew(b, |a|);
    }
  }

  /**
   * The four clauses of `Prunes` leave no freedom: with distinct ages the removed files, and their
   * order, are a function of the directory, the lease answers and the limit.
   */
  lemma EvictionIsDetermined(files: Files, leased: string -> bool, max: int, a: seq<string>, b: seq<string>)
    requires DistinctAges(files) && Prunes(files, leased, max, a) && Prunes(files, leased, max, b)
    ensures a == b
  {
    NoShorter(files, leased, max, a, b);
    NoShorter(files, leased, max, b, a);
    SamePrefix(files, leased, a, b, |a|);
  }

  // The index --------------------------------------------------------------------------------------

  predicate PointsAt(files: Files, entry: Entry) {
    entry.Record? && entry.path in files
  }

  ghost predicate IndexSound(files: Files, index: Index) {
    forall k :: k in index ==> PointsAt(files, index[k])
  }

  function Remaining(files: Files, index: Index): Index {
    map k | k in index && PointsAt(files, index[k]) :: index[k]
  }

  // The pass ---------------------------------------------------------------------------------------

  /** State of the loop after the files `seen` of `order`: everything unleased in `seen` is gone. */
  ghost predicate Progress(
    before: Files, order: seq<string>, leased: string -> bool, max: int, seen: nat, evicted: seq<string>, total: int)
  {
    && seen <= |order|
    && SparesLeased(before, leased, evicted)
    && (forall n :: n in evicted <==> n in order[..seen] && !leased(n))
    && OldestFirst(before, evicted)
    && NeverTooMuch(before, evicted, max)
    && total == Bytes(before, AccountedFiles(before) - NameSet(evicted))
  }

  lemma Skipped(
    before: Files, order: seq<string>, leased: string -> bool, max: int, seen: nat, evicted: seq<string>, total: int)
    requires seen < |order| && Progress(before, order, leased, max, seen, evicted, total)
    requires leased(order[seen])
    ensures Progress(before, order, leased, max, seen + 1, evicted, total)
  {
    assert order[..seen + 1] == order[..seen] + [order[seen]];
  }

  /** The file about to be removed is still there. */
  lemma Present(
    before: Files, order: seq<string>, leased: string -> bool, max: int, seen: nat, evicted: seq<string>, total: int)
    requires IsOrder(before, order)
    requires seen < |order| && Progress(before, order, leased, max, seen, evicted, total)
    ensures order[seen] in before && order[seen] !in NameSet(evicted)
    ensures (before - NameSet(evicted))[order[seen]] == before[order[seen]]
    ensures before - NameSet(evicted) - {order[seen]} == before - NameSet(evicted + [order[seen]])
  {
    NextIsNew(order, seen);
    assert NameSet(evicted + [order[seen]]) == NameSet(evicted) + {order[seen]};
  }

  ghost predicate IsOrder(before: Files, order: seq<string>) {
    && Distinct(order) && (forall n :: n in order <==> n in AccountedFiles(before))
    && Known(before, order) && OldestFirst(before, order)
  }

  lemma StillOver(before: Files, max: int, evicted: seq<string>, n: string)
    requires NeverTooMuch(before, evicted, max) && OverLimitWithout(before, evicted, max)
    ensures NeverTooMuch(before, evicted + [n], max)
  {
    var more := evicted + [n];
    forall k | 0 <= k < |more| ensures OverLimitWithout(before, more[..k], max) {
      assert more[..k] == if k < |evicted| then evicted[..k] else evicted;
    }
  }

  lemma RemovedIsYounger(before: Files, order: seq<string>, leased: string -> bool, seen: nat, evicted: seq<string>)
    requires IsOrder(before, order) && seen < |order| && SparesLeased(before, leased, evicted) && !leased(order[seen])
    requires (forall n :: n in evicted <==> n in order[..seen] && !leased(n))
    requires Known(before, evicted) && OldestFirst(before, evicted)
    ensures SparesLeased(before, leased, evicted + [order[seen]])
    ensures (forall n :: n in evicted + [order[seen]] <==> n in order[..seen + 1] && !leased(n))
    ensures Known(before, evicted + [order[seen]]) && OldestFirst(before, evicted + [order[seen]])
  {
    var n := order[seen];
    NextIsNew(order, seen);
    assert order[..seen + 1] == order[..seen] + [n];
    assert n in order;
    forall m | m in evicted ensures before[m].mtime <= before[n].mtime {
      var j :| 0 <= j < seen && order[j] == m;
    }
  }

  lemma Removed(
    before: Files, order: seq<string>, leased: string -> bool, max: int, seen: nat, evicted: seq<string>, total: int)
    requires IsOrder(before, order)
    requires seen < |order| && Progress(before, order, leased, max, seen, evicted, total)
    requires !leased(order[seen]) && total > max
    ensures Progress(before, order, leased, max, seen + 1, evicted + [order[seen]], total - before[order[seen]].size)
  {
    var n := order[seen];
    StillOver(before, max, evicted, n);
    RemovedIsYounger(before, order, leased, seen, evicted);
    NextIsNew(order, seen);
    assert n in order;
    var kept := AccountedFiles(before) - NameSet(evicted);
    BytesWithout(before, kept, n);
    assert AccountedFiles(before) - NameSet(evicted + [n]) == kept - {n};
  }

  lemma Finished(
    before: Files, order: seq<string>, leased: string -> bool, max: int, seen: nat, evicted: seq<string>, total: int)
    requires IsOrder(before, order)
    requires seen <= |order| && Progress(before, order, leased, max, seen, evicted, total)
    requires seen == |order| || total <= max
    ensures Prunes(before, leased, max, evicted)
  {
    forall n, m | n in evicted && m in AccountedFiles(before) && m !in evicted && !leased(m)
      ensures before[n].mtime <= before[m].mtime
    {
      var i :| 0 <= i < seen && order[i] == n;
      var j :| 0 <= j < |order| && order[j] == m;
      assert forall k :: 0 <= k < seen ==> order[k] in order[..seen];
    }
    if seen == |order| { assert order[..seen] == order; }
  }

  lemma Survivors(before: Files, evicted: seq<string>, after: Files)
    requires after == before - NameSet(evicted)
    ensures AccountedFiles(after) == AccountedFiles(before) - NameSet(evicted)
    ensures Bytes(after, AccountedFiles(after)) == Bytes(before, AccountedFiles(before) - NameSet(evicted))
  {
    assert AccountedFiles(after) == AccountedFiles(before) - NameSet(evicted);
    BytesDependOnSizes(before, after, AccountedFiles(after));
  }

  class DownloadDirectory {
    const maxBytes: int
    var files: Files
    var index: Index

    constructor (maxBytes: int, files: Files, index: Index)
      ensures this.maxBytes == maxBytes && this.files == files && this.index == index
    {
      this.maxBytes, this.files, this.index := maxBytes, files, index;
    }

    /** Directory order is arbitrary. */
    method ListAccounted() returns (names: seq<string>, total: int)
      ensures Distinct(names) && (forall n :: n in names <==> n in AccountedFiles(files))
      ensures total == Bytes(files, AccountedFiles(files))
    {
      names, total := [], 0;
      var rest := AccountedFiles(files);
      while rest != {}
        invariant rest <= AccountedFiles(files)
        invariant Distinct(names) && (forall n :: n in names <==> n in AccountedFiles(files) - rest)
        invariant total + Bytes(files, rest) == Bytes(files, AccountedFiles(files))
        decreases rest
      {
        var n :| n in rest;
        BytesWithout(files, rest, n);
        assert n !in names;
        names, total, rest := names + [n], total + files[n].size, rest - {n};
      }
    }

    /** `total` and `evicted` are the accounting of the pass and the files it removed, in order. */
    method RemoveOldest(leased: string -> bool) returns (total: int, evicted: seq<string>)
      modifies this`files
      ensures Prunes(old(files), leased, maxBytes, evicted)
      ensures files == old(files) - NameSet(evicted)
      ensures total == Bytes(files, AccountedFiles(files))
    {
      var names;
      names, total := ListAccounted();
      ghost var before := files;
      var order := SortedByAge(files, names);
      evicted := [];
      assert AccountedFiles(before) - NameSet([]) == AccountedFiles(before);
      var i := 0;
      while i < |order| && total > maxBytes
        invariant i <= |order| && Progress(before, order, leased, maxBytes, i, evicted, total)
        invariant files == before - NameSet(evicted)
      {
        var path := order[i];
        if leased(path) {
          Skipped(before, order, leased, maxBytes, i, evicted, total);
        } else {
          Removed(before, order, leased, maxBytes, i, evicted, total);
          Present(before, order, leased, maxBytes, i, evicted, total);
          var size := files[path].size;
          files := files - {path};
          total, evicted := total - size, evicted + [path];
        }
        i := i + 1;
      }
      Finished(before, order, leased, maxBytes, i, evicted, total);
      Survivors(before, evicted, files);
    }

    /** One pass over files and index, run with the cache lock held. */
    method Prune(leased: string -> bool) returns (total: int, evicted: seq<string>)
      modifies this
      ensures Prunes(old(files), leased, maxBytes, evicted)
      ensures files == old(files) - NameSet(evicted)
      ensures total == Bytes(files, AccountedFiles(files))
      ensures index == if evicted == [] then old(index) else Remaining(files, old(index))
      ensures old(IndexSound(files, index)) ==> IndexSound(files, index)
      ensures forall k :: k in old(index) && PointsAt(files, old(index)[k]) ==> k in index && index[k] == old(index)[k]
      ensures evicted != [] ==> forall k :: k in index ==> index[k].Record? && index[k].path in files
      ensures forall n :: n in old(files) && (LeftAlone(n) || leased(n)) ==> n in files && files[n] == old(files)[n]
    {
      forall n ensures Accounted(n) <==> !LeftAlone(n) { AccountedExactly(n); }
      total, evicted := RemoveOldest(leased);
      if evicted != [] {
        if index != map[] {
          var pruned := Remaining(files, index);
          if |pruned| != |index| {
            index := pruned;
          } else {
            SameSize(index, pruned);
          }
        }
      } else {
        assert NameSet(evicted) == {};
        assert files == old(files);
      }
    }
  }

  lemma SameSize(index: Index, pruned: Index)
    requires |pruned| == |index|
    requires pruned.Keys <= index.Keys && forall k :: k in pruned ==> pruned[k] == index[k]
    ensures pruned == index
  {
    assert |pruned.Keys| == |index.Keys|;
    if k :| k in index.Keys && k !in pruned.Keys {
      SubsetSize(pruned.Keys, index.Keys - {k});
    }
  }

  lemma {:induction false} SubsetSize(a: set<string>, b: set<string>)
    requires a <= b
    ensures |a| <= |b|
  {
    if a != {} {
      var x :| x in a;
      SubsetSize(a - {x}, b - {x});
    }
  }
}
