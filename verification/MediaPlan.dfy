/**
 * The value objects of a media write: devices, source trees and their manifests, write plans with
 * their digest, and typed confirmations. SHA-256 and JSON serialization are parameters.
 */
module MediaPlan {
  import opened Common
  import opened Hashing

  type Contents = seq<byte>

  datatype Device = Device(
    id: string, model: string, capacity: int, serial: Option<string>, vendor: Option<string>,
    systemDisk: bool, removable: bool, mounted: bool, readOnly: bool,
    partitions: seq<string>, whole: bool, systemDiskRef: Option<string>)

  predicate Safe(d: Device, required: int) {
    !Blank(d.id) && d.removable && d.whole && !d.systemDisk && !d.mounted && !d.readOnly
    && d.capacity > 0 && d.capacity >= required
  }

  // Source trees and manifests ---------------------------------------------------------------------

  /** Directories, regular files and all other entries (symbolic links, devices) by relative path. */
  datatype Tree = Tree(directories: set<string>, files: map<string, Contents>, irregular: set<string>)

  datatype FileDigest = FileDigest(path: string, size: nat, digest: Digest)

  const MAX_FILES: nat := 10_000
  const MAX_FILE_BYTES: nat := 8 * 1024 * 1024 * 1024
  const MAX_TOTAL_BYTES: nat := 32 * 1024 * 1024 * 1024

  predicate EfiOnly(t: Tree) {
    "EFI" in t.directories && "Recovery" !in t.directories
  }

  /** The part of a tree that goes onto the medium: its EFI directory alone, or everything. */
  function Payload(t: Tree): map<string, Contents> {
    if EfiOnly(t) then map p | p in Inner(t.files.Keys) :: t.files["EFI/" + p] else t.files
  }

  /** A tree with an EFI directory and no Recovery directory stands for its EFI directory; any other for itself. */
  lemma PayloadExactly(t: Tree, path: string)
    ensures var efi := "EFI" in t.directories && "Recovery" !in t.directories;
      && (path in Payload(t) <==> (if efi then "EFI/" + path else path) in t.files)
      && (path in Payload(t) ==> Payload(t)[path] == t.files[if efi then "EFI/" + path else path])
      && (path in IrregularPayload(t) <==> (if efi then "EFI/" + path else path) in t.irregular)
  {
  }

  function Inner(paths: set<string>): (inner: set<string>)
    ensures forall p :: p in inner <==> "EFI/" + p in paths
  {
    var inner := set p | p in paths && |p| >= 4 && p[..4] == "EFI/" :: p[4..];
    assert forall p :: p in inner <==> "EFI/" + p in paths by {
      forall p: string ensures p in inner <==> "EFI/" + p in paths {
        var q := "EFI/" + p;
        assert |q| >= 4 && q[..4] == "EFI/" && q[4..] == p;
        if p in inner {
          var r :| r in paths && |r| >= 4 && r[..4] == "EFI/" && r[4..] == p;
          assert r == r[..4] + r[4..] == q;
        }
      }
    }
    inner
  }

  /** Entries of the payload that are neither directory nor regular file; others are not walked. */
  function IrregularPayload(t: Tree): set<string> {
    if EfiOnly(t) then Inner(t.irregular) else t.irregular
  }

  /** A canonical listing: every path of the set once, in an order that only depends on the set. */
  ghost predicate Lists(order: set<string> -> seq<string>) {
    forall s :: (forall p :: p in order(s) <==> p in s) && Distinct(order(s))
  }

  ghost predicate InjectiveHash(hash: Contents -> Digest) {
    forall a, b :: hash(a) == hash(b) ==> a == b
  }

  function Records(files: map<string, Contents>, paths: seq<string>, hash: Contents -> Digest): (r: seq<FileDigest>)
    requires forall p :: p in paths ==> p in files
    ensures |r| == |paths|
    ensures forall i :: 0 <= i < |paths| ==> r[i] == FileDigest(paths[i], |files[paths[i]]|, hash(files[paths[i]]))
  {
    seq(|paths|, i requires 0 <= i < |paths| => FileDigest(paths[i], |files[paths[i]]|, hash(files[paths[i]])))
  }

  function TotalBytes(records: seq<FileDigest>): nat {
    if records == [] then 0 else TotalBytes(records[..|records| - 1]) + records[|records| - 1].size
  }

  ghost predicate WithinBounds(records: seq<FileDigest>) {
    && 0 < |records| <= MAX_FILES && TotalBytes(records) <= MAX_TOTAL_BYTES
    && forall i :: 0 <= i < |records| ==> records[i].size <= MAX_FILE_BYTES
  }

  ghost function Sum(sizes: seq<nat>): nat {
    if sizes == [] then 0 else sizes[0] + Sum(sizes[1..])
  }

  lemma {:induction false} SumSnoc(front: seq<nat>, last: nat)
    ensures Sum(front + [last]) == Sum(front) + last
  {
    if front == [] {
      assert ([] + [last])[1..] == [];
    } else {
      assert (front + [last])[1..] == front[1..] + [last];
      SumSnoc(front[1..], last);
    }
  }

  lemma {:induction false} TotalIsSum(records: seq<FileDigest>)
    ensures TotalBytes(records) == Sum(seq(|records|, i requires 0 <= i < |records| => records[i].size))
  {
    if records != [] {
      var front, last := records[..|records| - 1], records[|records| - 1];
      TotalIsSum(front);
      var sizes := seq(|front|, i requires 0 <= i < |front| => front[i].size);
      SumSnoc(sizes, last.size);
      assert seq(|records|, i requires 0 <= i < |records| => records[i].size) == sizes + [last.size];
    }
  }

  /** At least one and at most 10,000 files, none above 8 GiB, all together at most 32 GiB. */
  lemma BoundsExactly(records: seq<FileDigest>)
    ensures WithinBounds(records) <==>
      && 1 <= |records| <= 10_000 && (forall i :: 0 <= i < |records| ==> records[i].size <= 8_589_934_592)
      && Sum(seq(|records|, i requires 0 <= i < |records| => records[i].size)) <= 34_359_738_368
  {
    TotalIsSum(records);
  }

  /** `records` is the manifest of `t`; a tree without one is refused. */
  ghost predicate IsManifest(
    t: Tree, order: set<string> -> seq<string>, hash: Contents -> Digest, records: seq<FileDigest>)
  {
    && IrregularPayload(t) == {}
    && (forall p :: p in order(Payload(t).Keys) ==> p in Payload(t))
    && records == Records(Payload(t), order(Payload(t).Keys), hash)
    && WithinBounds(records)
  }

  lemma {:induction false} TotalGrows(records: seq<FileDigest>, k: nat)
    requires k <= |records|
    ensures TotalBytes(records[..k]) <= TotalBytes(records)
    decreases |records|
  {
    if k < |records| {
      TotalGrows(records[..|records| - 1], k);
      assert records[..|records| - 1][..k] == records[..k];
    } else {
      assert records[..k] == records;
    }
  }

  /** The first `k` records have been accepted and add up to `total`. */
  ghost predicate Accepted(all: seq<FileDigest>, k: nat, total: nat) {
    && k <= |all| && k <= MAX_FILES
    && total == TotalBytes(all[..k]) <= MAX_TOTAL_BYTES
    && forall i :: 0 <= i < k ==> all[i].size <= MAX_FILE_BYTES
  }

  lemma NextRecord(all: seq<FileDigest>, k: nat, total: nat)
    requires k < |all| && Accepted(all, k, total)
    ensures all[k].size <= MAX_FILE_BYTES && k < MAX_FILES && total + all[k].size <= MAX_TOTAL_BYTES
            ==> Accepted(all, k + 1, total + all[k].size)
    ensures !(all[k].size <= MAX_FILE_BYTES && k < MAX_FILES && total + all[k].size <= MAX_TOTAL_BYTES)
            ==> !WithinBounds(all)
  {
    assert all[..k + 1][..k] == all[..k];
    TotalGrows(all, k + 1);
  }

  /** The manifest of a tree, or nothing if an entry is irregular or a bound is exceeded. */
  method SourceManifest(t: Tree, order: set<string> -> seq<string>, hash: Contents -> Digest)
    returns (manifest: Option<seq<FileDigest>>)
    requires Lists(order)
    ensures manifest.Some? ==> IsManifest(t, order, hash, manifest.value)
    ensures manifest.None? ==> forall records :: !IsManifest(t, order, hash, records)
  {
    if IrregularPayload(t) != {} { return None; }
    var files := Payload(t);
    var paths := order(files.Keys);
    assert forall p :: p in paths ==> p in files.Keys;
    var records, within := RecordFiles(files, paths, hash);
    if !within || records == [] { return None; }
    assert records[..|records|] == records;
    manifest := Some(records);
  }

  method RecordFiles(files: map<string, Contents>, paths: seq<string>, hash: Contents -> Digest)
    returns (records: seq<FileDigest>, within: bool)
    requires forall p :: p in paths ==> p in files
    ensures within ==> records == Records(files, paths, hash) && Accepted(records, |records|, TotalBytes(records))
    ensures !within ==> !WithinBounds(Records(files, paths, hash))
  {
    ghost var all := Records(files, paths, hash);
    var total: nat := 0;
    records := [];
    while |records| < |paths|
      invariant |records| <= |paths| && records == all[..|records|]
      invariant Accepted(all, |records|, total)
    {
      var path := paths[|records|];
      var size := |files[path]|;
      NextRecord(all, |records|, total);
      if size > MAX_FILE_BYTES { return records, false; }
      total := total + size;
      if |records| >= MAX_FILES || total > MAX_TOTAL_BYTES { return records, false; }
      records := records + [FileDigest(path, size, hash(files[path]))];
    }
    assert all[..|paths|] == all;
    within := true;
  }

  lemma ManifestLists(t: Tree, order: set<string> -> seq<string>, hash: Contents -> Digest, records: seq<FileDigest>, p: string)
    requires Lists(order) && IsManifest(t, order, hash, records)
    ensures p in Payload(t) <==> exists i :: 0 <= i < |records| && records[i].path == p
    ensures forall i :: 0 <= i < |records| ==> records[i].path in Payload(t) && records[i].digest == hash(Payload(t)[records[i].path])
  {
    var paths := order(Payload(t).Keys);
    assert p in paths <==> p in Payload(t).Keys;
    if p in paths {
      var i :| 0 <= i < |paths| && paths[i] == p;
      assert records[i].path == p;
    }
  }

  /** Trees with equal manifests carry the same payload, file for file and byte for byte. */
  lemma EqualManifestsEqualPayload(
    a: Tree, b: Tree, order: set<string> -> seq<string>, hash: Contents -> Digest, records: seq<FileDigest>)
    requires Lists(order) && InjectiveHash(hash)
    requires IsManifest(a, order, hash, records) && IsManifest(b, order, hash, records)
    ensures Payload(a) == Payload(b)
  {
    forall p ensures p in Payload(a) <==> p in Payload(b)
      ensures p in Payload(a) && p in Payload(b) ==> Payload(a)[p] == Payload(b)[p]
    {
      ManifestLists(a, order, hash, records, p);
      ManifestLists(b, order, hash, records, p);
    }
  }

  /**
   * Equal payloads are equal file trees when neither tree is reduced to its EFI directory; otherwise
   * the trees may differ, since the manifest does not say which directory it was taken from.
   */
  lemma EqualPayloadsOfWholeTrees(a: Tree, b: Tree)
    requires !EfiOnly(a) && !EfiOnly(b)
    ensures Payload(a) == Payload(b) <==> a.files == b.files
  {
  }

  ghost function LongestPath(paths: set<string>): (n: nat)
    ensures forall p :: p in paths ==> |p| <= n
    ensures paths != {} ==> exists p :: p in paths && |p| == n
  {
    if paths == {} then 0
    else
      var p :| p in paths;
      var n := LongestPath(paths - {p});
      assert forall q :: q in paths ==> q == p || q in paths - {p};
      assert p in paths;
      if paths == {p} || |p| > n then |p| else n
  }

  lemma SamePayloadSameManifest(
    a: Tree, b: Tree, order: set<string> -> seq<string>, hash: Contents -> Digest, records: seq<FileDigest>)
    requires IsManifest(a, order, hash, records)
    requires Payload(b) == Payload(a) && IrregularPayload(b) == {}
    ensures IsManifest(b, order, hash, records)
  {
  }

  lemma InnerIgnores(paths: set<string>, name: string)
    requires name != "" && name[0] == 'x'
    ensures Inner(paths + {name}) == Inner(paths)
  {
    forall p ensures p in Inner(paths + {name}) <==> p in Inner(paths) {
      var q := "EFI/" + p;
      assert q[0] == 'E';
    }
  }

  lemma PayloadIgnores(a: Tree, name: string, body: Contents)
    requires EfiOnly(a) && name !in a.files && name != "" && name[0] == 'x'
    ensures Payload(a.(files := a.files[name := body])) == Payload(a)
  {
    var b := a.(files := a.files[name := body]);
    assert b.files.Keys == a.files.Keys + {name};
    InnerIgnores(a.files.Keys, name);
    assert EfiOnly(b);
    forall p | p in Inner(a.files.Keys) ensures b.files["EFI/" + p] == a.files["EFI/" + p] {
      var q := "EFI/" + p;
      assert q[0] == 'E';
    }
  }

  /** What lies beside the EFI directory of such a tree is not in its manifest. */
  lemma FileBesideEfi(a: Tree, order: set<string> -> seq<string>, hash: Contents -> Digest, records: seq<FileDigest>)
    returns (b: Tree)
    requires EfiOnly(a)
    ensures EfiOnly(b) && b.files != a.files
    ensures IsManifest(a, order, hash, records) ==> IsManifest(b, order, hash, records)
  {
    var name := seq(LongestPath(a.files.Keys) + 1, i => 'x');
    assert name !in a.files.Keys;
    b := a.(files := a.files[name := []]);
    assert name in b.files;
    PayloadIgnores(a, name, []);
    if IsManifest(a, order, hash, records) { SamePayloadSameManifest(a, b, order, hash, records); }
  }

  /**
   * Among source trees of the same kind the manifest determines all files of a tree exactly when the
   * tree is not reduced to its EFI directory.
   */
  lemma ManifestDeterminesFilesExactly(
    a: Tree, order: set<string> -> seq<string>, hash: Contents -> Digest, records: seq<FileDigest>)
    requires Lists(order) && InjectiveHash(hash) && IsManifest(a, order, hash, records)
    ensures (forall b :: EfiOnly(b) == EfiOnly(a) && IsManifest(b, order, hash, records) ==> b.files == a.files)
       <==> !EfiOnly(a)
  {
    if EfiOnly(a) {
      var b := FileBesideEfi(a, order, hash, records);
    } else {
      forall b | EfiOnly(b) == EfiOnly(a) && IsManifest(b, order, hash, records) ensures b.files == a.files {
        EqualManifestsEqualPayload(a, b, order, hash, records);
        EqualPayloadsOfWholeTrees(a, b);
      }
    }
  }

  lemma InnerIsNotAll(paths: set<string>)
    requires paths != {}
    ensures Inner(paths) != paths
  {
    var longest :| longest in paths && |longest| == LongestPath(paths);
    var deeper := "EFI/" + longest;
    assert |deeper| > LongestPath(paths);
    assert deeper !in paths;
    assert longest !in Inner(paths);
  }

  /**
   * Every tree that is reduced to its EFI directory has the manifest of that directory taken by itself,
   * which is another tree: the manifest does not say from which of the two it was taken.
   */
  lemma EfiDirectoryHasSameManifest(
    a: Tree, order: set<string> -> seq<string>, hash: Contents -> Digest, records: seq<FileDigest>)
    returns (b: Tree)
    requires Lists(order) && EfiOnly(a) && IsManifest(a, order, hash, records)
    ensures !EfiOnly(b) && IsManifest(b, order, hash, records)
    ensures b.files == Payload(a) && b.files != a.files
  {
    b := Tree({"EFI", "Recovery"}, Payload(a), {});
    SamePayloadSameManifest(a, b, order, hash, records);
    ManifestLists(a, order, hash, records, records[0].path);
    assert Payload(a).Keys == Inner(a.files.Keys);
    InnerIsNotAll(a.files.Keys);
  }

  lemma DifferentTreesOneManifest(
    order: set<string> -> seq<string>, hash: Contents -> Digest, name: string, body: Contents)
    returns (a: Tree, b: Tree, records: seq<FileDigest>)
    requires Lists(order) && |body| <= MAX_FILE_BYTES
    ensures IsManifest(a, order, hash, records) && IsManifest(b, order, hash, records)
    ensures EfiOnly(a) && !EfiOnly(b) && a.files != b.files
  {
    a := Tree({"EFI"}, map["EFI/" + name := body], {});
    assert "EFI" in a.directories && "Recovery" !in a.directories;
    forall p ensures p in Inner(a.files.Keys) <==> p == name {
      assert p in Inner(a.files.Keys) <==> "EFI/" + p == "EFI/" + name;
      assert ("EFI/" + p)[4..] == p && ("EFI/" + name)[4..] == name;
    }
    assert Payload(a) == map[name := body];
    OneFileManifest(a, order, hash, name, body);
    records := [FileDigest(name, |body|, hash(body))];
    b := EfiDirectoryHasSameManifest(a, order, hash, records);
  }

  lemma OnlyElement(paths: seq<string>, name: string)
    requires name in paths && forall p :: p in paths ==> p == name
    requires Distinct(paths)
    ensures paths == [name]
  {
    var last := |paths| - 1;
    assert paths[0] in paths && paths[last] in paths;
    assert paths[0] == name && paths[last] == name;
    assert last == 0;
  }

  lemma OneFileManifest(t: Tree, order: set<string> -> seq<string>, hash: Contents -> Digest, name: string, body: Contents)
    requires Lists(order) && |body| <= MAX_FILE_BYTES && IrregularPayload(t) == {} && Payload(t) == map[name := body]
    ensures IsManifest(t, order, hash, [FileDigest(name, |body|, hash(body))])
  {
    var paths := order(Payload(t).Keys);
    assert Payload(t).Keys == {name};
    assert name in paths;
    OnlyElement(paths, name);
    var r := Records(Payload(t), paths, hash);
    assert r == [FileDigest(name, |body|, hash(body))];
    assert r[..0] == [];
    assert TotalBytes(r) == |body|;
  }

  // Plans and confirmations ------------------------------------------------------------------------

  datatype Bindings = Bindings(
    efiManifest: string, recoveryLock: string, validation: string,
    configuration: string, toolchain: string, evidence: string)

  predicate Complete(b: Bindings) {
    && IsSha256(b.efiManifest) && IsSha256(b.recoveryLock) && IsSha256(b.validation)
    && IsSha256(b.configuration) && IsSha256(b.toolchain) && IsSha256(b.evidence)
  }

  datatype Plan = Plan(
    target: Device, required: int, partitions: seq<string>, destroysData: bool,
    expected: seq<FileDigest>, bindings: Bindings, sourceValidated: bool)

  /** What the plan digest covers: the whole plan with the device id replaced by its public reference. */
  datatype PlanPayload = PlanPayload(reference: string, rest: Plan)

  function PayloadOf(plan: Plan, reference: string -> string): PlanPayload {
    PlanPayload(reference(plan.target.id), plan.(target := plan.target.(id := "")))
  }

  ghost predicate InjectiveDigest(digest: PlanPayload -> Digest) {
    forall a, b :: digest(a) == digest(b) ==> a == b
  }

  lemma DigestDeterminesPlan(a: Plan, b: Plan, reference: string -> string, digest: PlanPayload -> Digest)
    requires InjectiveDigest(digest) && a.target.id == b.target.id
    requires digest(PayloadOf(a, reference)) == digest(PayloadOf(b, reference))
    ensures a == b
  {
    assert PayloadOf(a, reference) == PayloadOf(b, reference);
    assert a.target == a.target.(id := "").(id := a.target.id) && b.target == b.target.(id := "").(id := b.target.id);
    assert a == PayloadOf(a, reference).rest.(target := a.target) && b == PayloadOf(b, reference).rest.(target := b.target);
  }

  datatype Confirmation = Confirmation(
    planDigest: Digest, deviceId: string, capacity: int, phrase: string, issuedAt: real, expiresAt: real)

  datatype Identity = Identity(
    reference: string -> string, digest: PlanPayload -> Digest, phrase: (string, int) -> string)

  function Issue(plan: Plan, now: real, ttl: real, id: Identity): Option<Confirmation> {
    if ttl <= 0.0 || ttl > 900.0 then None
    else Some(Confirmation(
      id.digest(PayloadOf(plan, id.reference)), plan.target.id, plan.target.capacity,
      id.phrase(id.reference(plan.target.id), plan.target.capacity), now, now + ttl))
  }

  predicate ValidFor(c: Confirmation, plan: Plan, now: real, id: Identity) {
    && c.planDigest == id.digest(PayloadOf(plan, id.reference))
    && c.deviceId == plan.target.id && c.capacity == plan.target.capacity
    && c.phrase == id.phrase(id.reference(plan.target.id), plan.target.capacity)
    && c.issuedAt <= now < c.expiresAt
  }

  /** A confirmation issued for one plan authorises that plan and no other, while it has not expired. */
  lemma ConfirmationAuthorisesExactly(planned: Plan, plan: Plan, issued: real, ttl: real, now: real, id: Identity)
    requires InjectiveDigest(id.digest)
    ensures Issue(planned, issued, ttl, id).Some? <==> 0.0 < ttl <= 900.0
    ensures Issue(planned, issued, ttl, id).Some? ==>
      (ValidFor(Issue(planned, issued, ttl, id).value, plan, now, id) <==> plan == planned && issued <= now < issued + ttl)
  {
    if Issue(planned, issued, ttl, id).Some? && ValidFor(Issue(planned, issued, ttl, id).value, plan, now, id) {
      DigestDeterminesPlan(planned, plan, id.reference, id.digest);
    }
  }
}
