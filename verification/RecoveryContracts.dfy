/**
 * Recovery targets, products, bindings, locks and evidence, their JSON form and the lock digest. The
 * canonical JSON digest and Python's `str` on a JSON value are parameters. A lock is written without
 * its session references and read back through `str`, which accepts more than was written; evidence
 * is read back by keyword construction.
 */
module RecoveryContracts {
  import opened Common
  import opened Hashing
  import opened JsonLimits

  datatype Target = Target(productId: string, productName: string, version: string, build: string)

  datatype Product = Product(
    target: Target, imageUrl: string, imageSha: string, imageSize: Option<int>,
    chunklistUrl: string, chunklistSha: string, chunklistSize: Option<int>,
    imageSession: string, chunklistSession: string)

  datatype Binding = Binding(
    target: string, stableModelId: string, configuration: string, buildPlan: string,
    policy: string, catalog: string, toolchain: string, efiManifest: string)

  datatype LockState = Locked | Acquired | Verified

  datatype Lock = Lock(
    state: LockState, product: Product, binding: Binding, sourcePolicy: string, discoveryRecord: string)

  /** The types of the last four fields are annotations only: read back, they hold whatever was there. */
  datatype Evidence = Evidence(
    lockDigest: string, imageDigest: string, chunklistDigest: string, signed: Json,
    chunks: Json, imageSize: Json, tool: Json)

  // Validity, as checked on construction -----------------------------------------------------------

  predicate IsDigit(c: char) { '0' <= c <= '9' }

  predicate IsLowerLetter(c: char) { 'a' <= c <= 'z' }

  /** Length of the leading run of digits. */
  function Digits(s: string): (n: nat)
    ensures n <= |s|
  {
    if s != "" && IsDigit(s[0]) then 1 + Digits(s[1..]) else 0
  }

  predicate IsProductId(s: string) {
    |s| >= 2 && IsLowerLetter(s[0]) && forall i :: 1 <= i < |s| ==> IsLowerLetter(s[i]) || IsDigit(s[i]) || s[i] == '-'
  }

  predicate AllDigits(s: string) {
    s != "" && Digits(s) == |s|
  }

  predicate IsVersion(s: string) {
    var a := Digits(s);
    0 < a < |s| && s[a] == '.' &&
    var rest := s[a + 1..];
    var b := Digits(rest);
    b > 0 && (b == |rest| || (rest[b] == '.' && AllDigits(rest[b + 1..])))
  }

  predicate IsBuild(s: string) {
    |s| >= 5 && IsDigit(s[0]) && IsDigit(s[1]) && 'A' <= s[2] <= 'Z' &&
    var rest := s[3..];
    var n := Digits(rest);
    2 <= n <= 6 && (n == |rest| || (n == |rest| - 1 && IsLowerLetter(rest[n])))
  }

  predicate ValidTarget(t: Target) {
    IsProductId(t.productId) && IsVersion(t.version) && IsBuild(t.build) && !Blank(t.productName)
  }

  predicate ValidSize(size: Option<int>) {
    size.Some? ==> size.value > 0
  }

  predicate ValidProduct(p: Product) {
    && ValidTarget(p.target) && IsSha256(p.imageSha) && IsSha256(p.chunklistSha)
    && ValidSize(p.imageSize) && ValidSize(p.chunklistSize)
  }

  predicate ValidBinding(b: Binding) {
    && IsSha256(b.target) && IsSha256(b.configuration) && IsSha256(b.buildPlan) && IsSha256(b.policy)
    && IsSha256(b.catalog) && IsSha256(b.toolchain) && IsSha256(b.efiManifest) && !Blank(b.stableModelId)
  }

  predicate ValidLock(l: Lock) {
    ValidProduct(l.product) && ValidBinding(l.binding) && IsSha256(l.sourcePolicy) && IsSha256(l.discoveryRecord)
  }

  /** Python's truth value. */
  predicate Truthy(v: Json) {
    match v
    case Null => false
    case Boolean(b) => b
    case Number(n) => n != 0
    case Text(s) => s != ""
    case Array(items) => items != []
    case Object(entries) => entries != []
  }

  /** The comparison with 0 is possible and comes out greater; `True` counts as 1. */
  predicate Positive(v: Json) {
    match v
    case Boolean(b) => b
    case Number(n) => n > 0
    case _ => false
  }

  predicate ValidEvidence(e: Evidence) {
    && IsSha256(e.lockDigest) && IsSha256(e.imageDigest) && IsSha256(e.chunklistDigest)
    && Truthy(e.signed) && Positive(e.chunks) && Positive(e.imageSize)
  }

  /** Evidence of the annotated types. */
  predicate Typed(e: Evidence) {
    e.signed.Boolean? && e.chunks.Number? && e.imageSize.Number? && e.tool.Text?
  }

  // to_dict ----------------------------------------------------------------------------------------

  const PRIVATE := "<private>"

  const AUTHENTICATION := "apple-signed-chunklist"

  function TargetEntries(t: Target): seq<Entry> {
    [ Entry("product_id", Text(t.productId)), Entry("product_name", Text(t.productName)),
      Entry("version", Text(t.version)), Entry("build", Text(t.build)) ]
  }

  function SizeJson(size: Option<int>): Json {
    if size.None? then Null else Number(size.value)
  }

  function ProductEntries(p: Product): seq<Entry> {
    [ Entry("target", Object(TargetEntries(p.target))),
      Entry("image_url", Text(p.imageUrl)), Entry("image_sha256", Text(p.imageSha)),
      Entry("image_size_bytes", SizeJson(p.imageSize)),
      Entry("chunklist_url", Text(p.chunklistUrl)), Entry("chunklist_sha256", Text(p.chunklistSha)),
      Entry("chunklist_size_bytes", SizeJson(p.chunklistSize)),
      Entry("image_session_ref", Text(PRIVATE)), Entry("chunklist_session_ref", Text(PRIVATE)),
      Entry("authentication", Text(AUTHENTICATION)) ]
  }

  function BindingEntries(b: Binding): seq<Entry> {
    [ Entry("target_digest", Text(b.target)), Entry("stable_model_id", Text(b.stableModelId)),
      Entry("configuration_digest", Text(b.configuration)), Entry("build_plan_digest", Text(b.buildPlan)),
      Entry("policy_digest", Text(b.policy)), Entry("catalog_digest", Text(b.catalog)),
      Entry("toolchain_digest", Text(b.toolchain)), Entry("efi_manifest_digest", Text(b.efiManifest)) ]
  }

  function StateName(s: LockState): string {
    match s
    case Locked => "locked"
    case Acquired => "acquired"
    case Verified => "verified"
  }

  function LockEntries(l: Lock): seq<Entry> {
    [ Entry("schema_version", Text("1")), Entry("state", Text(StateName(l.state))),
      Entry("product", Object(ProductEntries(l.product))), Entry("binding", Object(BindingEntries(l.binding))),
      Entry("source_policy_digest", Text(l.sourcePolicy)), Entry("discovery_record_digest", Text(l.discoveryRecord)) ]
  }

  function LockJson(l: Lock): Json {
    Object(LockEntries(l))
  }

  function EvidenceEntries(e: Evidence): seq<Entry> {
    [ Entry("lock_digest", Text(e.lockDigest)), Entry("image_digest", Text(e.imageDigest)),
      Entry("chunklist_digest", Text(e.chunklistDigest)), Entry("signed_chunklist", e.signed),
      Entry("verified_chunks", e.chunks), Entry("image_size_bytes", e.imageSize), Entry("verification_tool", e.tool) ]
  }

  function EvidenceJson(e: Evidence): Json {
    Object(EvidenceEntries(e))
  }

  // from_dict --------------------------------------------------------------------------------------

  function Get(entries: seq<Entry>, key: string): Option<Json> {
    if entries == [] then None
    else if entries[0].key == key then Some(entries[0].item)
    else Get(entries[1..], key)
  }

  lemma {:induction false} GetAt(entries: seq<Entry>, i: nat)
    requires i < |entries| && forall j :: 0 <= j < i ==> entries[j].key != entries[i].key
    ensures Get(entries, entries[i].key) == Some(entries[i].item)
  {
    if i > 0 {
      assert forall j :: 0 <= j < i - 1 ==> entries[1..][j] == entries[j + 1];
      assert entries[1..][i - 1] == entries[i];
      GetAt(entries[1..], i - 1);
    }
  }

  /** `str(data[key])`; nothing when the key is missing. */
  function Field(entries: seq<Entry>, key: string, str: Json -> string): Option<string> {
    var v := Get(entries, key);
    if v.None? then None else Some(str(v.value))
  }

  function TargetFrom(entries: seq<Entry>, str: Json -> string): (r: Option<Target>)
    ensures r.Some? ==> ValidTarget(r.value)
  {
    var productId, productName := Field(entries, "product_id", str), Field(entries, "product_name", str);
    var version, build := Field(entries, "version", str), Field(entries, "build", str);
    if productId.None? || productName.None? || version.None? || build.None? then None
    else
      var t := Target(productId.value, productName.value, version.value, build.value);
      if ValidTarget(t) then Some(t) else None
  }

  /** A missing or null size is unknown; anything but a positive integer is refused. */
  function SizeFrom(v: Option<Json>): Option<Option<int>> {
    match v
    case None => Some(None)
    case Some(Null) => Some(None)
    case Some(Number(n)) => if n > 0 then Some(Some(n)) else None
    case _ => None
  }

  function ProductFrom(entries: seq<Entry>, str: Json -> string): (r: Option<Product>)
    ensures r.Some? ==> ValidProduct(r.value) && r.value.imageSession == r.value.chunklistSession == PRIVATE
  {
    var target := Get(entries, "target");
    if target.None? || !target.value.Object? then None
    else
      var t := TargetFrom(target.value.entries, str);
      var imageUrl, imageSha := Field(entries, "image_url", str), Field(entries, "image_sha256", str);
      var chunklistUrl, chunklistSha := Field(entries, "chunklist_url", str), Field(entries, "chunklist_sha256", str);
      var imageSize, chunklistSize := SizeFrom(Get(entries, "image_size_bytes")), SizeFrom(Get(entries, "chunklist_size_bytes"));
      var authentication := Field(entries, "authentication", str);
      if t.None? || imageUrl.None? || imageSha.None? || chunklistUrl.None? || chunklistSha.None? then None
      else if imageSize.None? || chunklistSize.None? then None
      else if authentication.Some? && authentication.value != AUTHENTICATION then None
      else
        var p := Product(t.value, imageUrl.value, imageSha.value, imageSize.value,
                         chunklistUrl.value, chunklistSha.value, chunklistSize.value, PRIVATE, PRIVATE);
        if ValidProduct(p) then Some(p) else None
  }

  function BindingFrom(entries: seq<Entry>, str: Json -> string): (r: Option<Binding>)
    ensures r.Some? ==> ValidBinding(r.value)
  {
    var target, model := Field(entries, "target_digest", str), Field(entries, "stable_model_id", str);
    var configuration, buildPlan := Field(entries, "configuration_digest", str), Field(entries, "build_plan_digest", str);
    var policy, catalog := Field(entries, "policy_digest", str), Field(entries, "catalog_digest", str);
    var toolchain, efi := Field(entries, "toolchain_digest", str), Field(entries, "efi_manifest_digest", str);
    if target.None? || model.None? || configuration.None? || buildPlan.None? then None
    else if policy.None? || catalog.None? || toolchain.None? || efi.None? then None
    else
      var b := Binding(target.value, model.value, configuration.value, buildPlan.value,
                       policy.value, catalog.value, toolchain.value, efi.value);
      if ValidBinding(b) then Some(b) else None
  }

  function StateFrom(name: string): Option<LockState> {
    if name == "locked" then Some(Locked)
    else if name == "acquired" then Some(Acquired)
    else if name == "verified" then Some(Verified)
    else None
  }

  function LockFrom(v: Json, str: Json -> string): (r: Option<Lock>)
    ensures r.Some? ==> ValidLock(r.value)
  {
    if !v.Object? then None
    else
      var product, binding := Get(v.entries, "product"), Get(v.entries, "binding");
      if product.None? || binding.None? || !product.value.Object? || !binding.value.Object? then None
      else
        var schema, state := Field(v.entries, "schema_version", str), Field(v.entries, "state", str);
        var p, b := ProductFrom(product.value.entries, str), BindingFrom(binding.value.entries, str);
        var policy, record := Field(v.entries, "source_policy_digest", str), Field(v.entries, "discovery_record_digest", str);
        if schema != Some("1") || state.None? || p.None? || b.None? || policy.None? || record.None? then None
        else
          var s := StateFrom(state.value);
          if s.None? || !IsSha256(policy.value) || !IsSha256(record.value) then None
          else Some(Lock(s.value, p.value, b.value, policy.value, record.value))
  }

  /** Keyword construction: exactly the seven fields. Digests are lower-cased, so they must be strings. */
  function EvidenceFrom(v: Json): (r: Option<Evidence>)
    ensures r.Some? ==> ValidEvidence(r.value)
  {
    if !v.Object? || |v.entries| != 7 then None
    else
      var lock, image := Get(v.entries, "lock_digest"), Get(v.entries, "image_digest");
      var chunklist, tool := Get(v.entries, "chunklist_digest"), Get(v.entries, "verification_tool");
      var signed, chunks, size := Get(v.entries, "signed_chunklist"), Get(v.entries, "verified_chunks"), Get(v.entries, "image_size_bytes");
      if lock.None? || image.None? || chunklist.None? || tool.None? then None
      else if signed.None? || chunks.None? || size.None? then None
      else if !lock.value.Text? || !image.value.Text? || !chunklist.value.Text? then None
      else
        var e := Evidence(lock.value.text, image.value.text, chunklist.value.text, signed.value, chunks.value, size.value, tool.value);
        if ValidEvidence(e) then Some(e) else None
  }

  // Round trips ------------------------------------------------------------------------------------

  ghost predicate PrintsText(str: Json -> string) {
    forall s :: str(Text(s)) == s
  }

  /** The lock as it can be read back: session references are never written. */
  function Redacted(l: Lock): Lock {
    l.(product := l.product.(imageSession := PRIVATE, chunklistSession := PRIVATE))
  }

  lemma TargetRoundTrip(t: Target, str: Json -> string)
    requires ValidTarget(t) && PrintsText(str)
    ensures TargetFrom(TargetEntries(t), str) == Some(t)
  {
    var entries := TargetEntries(t);
    GetAt(entries, 0); GetAt(entries, 1); GetAt(entries, 2); GetAt(entries, 3);
  }

  lemma ProductTexts(p: Product)
    ensures Get(ProductEntries(p), "image_url") == Some(Text(p.imageUrl))
    ensures Get(ProductEntries(p), "image_sha256") == Some(Text(p.imageSha))
    ensures Get(ProductEntries(p), "chunklist_url") == Some(Text(p.chunklistUrl))
    ensures Get(ProductEntries(p), "chunklist_sha256") == Some(Text(p.chunklistSha))
    ensures Get(ProductEntries(p), "authentication") == Some(Text(AUTHENTICATION))
  {
    var entries := ProductEntries(p);
    GetAt(entries, 1); GetAt(entries, 2); GetAt(entries, 4); GetAt(entries, 5); GetAt(entries, 9);
  }

  lemma ProductOthers(p: Product)
    ensures Get(ProductEntries(p), "target") == Some(Object(TargetEntries(p.target)))
    ensures Get(ProductEntries(p), "image_size_bytes") == Some(SizeJson(p.imageSize))
    ensures Get(ProductEntries(p), "chunklist_size_bytes") == Some(SizeJson(p.chunklistSize))
  {
    var entries := ProductEntries(p);
    GetAt(entries, 0); GetAt(entries, 3); GetAt(entries, 6);
  }

  lemma ProductRoundTrip(p: Product, str: Json -> string)
    requires ValidProduct(p) && PrintsText(str)
    ensures ProductFrom(ProductEntries(p), str) == Some(p.(imageSession := PRIVATE, chunklistSession := PRIVATE))
  {
    TargetRoundTrip(p.target, str);
    ProductTexts(p);
    ProductOthers(p);
  }

  lemma BindingRoundTrip(b: Binding, str: Json -> string)
    requires ValidBinding(b) && PrintsText(str)
    ensures BindingFrom(BindingEntries(b), str) == Some(b)
  {
    var entries := BindingEntries(b);
    GetAt(entries, 0); GetAt(entries, 1); GetAt(entries, 2); GetAt(entries, 3);
    GetAt(entries, 4); GetAt(entries, 5); GetAt(entries, 6); GetAt(entries, 7);
  }

  lemma LockFields(l: Lock)
    ensures Get(LockEntries(l), "schema_version") == Some(Text("1"))
    ensures Get(LockEntries(l), "state") == Some(Text(StateName(l.state)))
    ensures Get(LockEntries(l), "product") == Some(Object(ProductEntries(l.product)))
    ensures Get(LockEntries(l), "binding") == Some(Object(BindingEntries(l.binding)))
    ensures Get(LockEntries(l), "source_policy_digest") == Some(Text(l.sourcePolicy))
    ensures Get(LockEntries(l), "discovery_record_digest") == Some(Text(l.discoveryRecord))
  {
    var entries := LockEntries(l);
    GetAt(entries, 0); GetAt(entries, 1); GetAt(entries, 2);
    GetAt(entries, 3); GetAt(entries, 4); GetAt(entries, 5);
  }

  lemma StateRoundTrip(s: LockState)
    ensures StateFrom(StateName(s)) == Some(s)
  {
  }

  /** Writing a lock and reading it back loses the session references and nothing else. */
  lemma LockRoundTrip(l: Lock, str: Json -> string)
    requires ValidLock(l) && PrintsText(str)
    ensures LockFrom(LockJson(l), str) == Some(Redacted(l))
  {
    ProductRoundTrip(l.product, str);
    BindingRoundTrip(l.binding, str);
    LockFields(l);
    StateRoundTrip(l.state);
  }

  lemma EvidenceRoundTrip(e: Evidence)
    requires ValidEvidence(e)
    ensures EvidenceFrom(EvidenceJson(e)) == Some(e)
  {
    var entries := EvidenceEntries(e);
    GetAt(entries, 0); GetAt(entries, 1); GetAt(entries, 2); GetAt(entries, 3);
    GetAt(entries, 4); GetAt(entries, 5); GetAt(entries, 6);
  }

  // The lock digest --------------------------------------------------------------------------------

  function Without(entries: seq<Entry>, key: string): seq<Entry> {
    if entries == [] then []
    else if entries[0].key == key then Without(entries[1..], key)
    else [entries[0]] + Without(entries[1..], key)
  }

  /** What identifies a lock: its JSON form without the lifecycle state. */
  function IdentityJson(l: Lock): Json {
    Object(Without(LockEntries(l), "state"))
  }

  function LockDigest(l: Lock, digest: Json -> string): string {
    digest(IdentityJson(l))
  }

  lemma {:induction false} WithoutOne(entries: seq<Entry>, i: nat)
    requires i < |entries| && forall j :: 0 <= j < |entries| && j != i ==> entries[j].key != entries[i].key
    ensures Without(entries, entries[i].key) == entries[..i] + entries[i + 1..]
  {
    var key, rest := entries[i].key, entries[1..];
    assert forall j :: 0 <= j < |rest| ==> rest[j] == entries[j + 1];
    if i == 0 {
      WithoutNone(rest, key);
    } else {
      WithoutOne(rest, i - 1);
      assert entries[..i] + entries[i + 1..] == [entries[0]] + (rest[..i - 1] + rest[i..]);
    }
  }

  lemma {:induction false} WithoutNone(entries: seq<Entry>, key: string)
    requires forall j :: 0 <= j < |entries| ==> entries[j].key != key
    ensures Without(entries, key) == entries
  {
    if entries != [] {
      assert forall j :: 0 <= j < |entries| - 1 ==> entries[1..][j] == entries[j + 1];
      WithoutNone(entries[1..], key);
    }
  }

  lemma IdentityFields(l: Lock)
    ensures IdentityJson(l) == Object([LockEntries(l)[0]] + LockEntries(l)[2..])
  {
    var entries := LockEntries(l);
    WithoutOne(entries, 1);
    assert entries[..1] == [entries[0]];
  }

  /** The digest survives redaction, any change of lifecycle state, and being written and read back. */
  lemma DigestIsStable(l: Lock, state: LockState, digest: Json -> string, str: Json -> string)
    requires ValidLock(l) && PrintsText(str)
    ensures LockDigest(Redacted(l.(state := state)), digest) == LockDigest(l, digest)
    ensures LockFrom(LockJson(l), str).Some?
            && LockDigest(LockFrom(LockJson(l), str).value, digest) == LockDigest(l, digest)
  {
    LockRoundTrip(l, str);
    IdentityFields(l);
    IdentityFields(Redacted(l));
    IdentityFields(Redacted(l.(state := state)));
    assert LockEntries(Redacted(l.(state := state)))[2..] == LockEntries(l)[2..];
    assert LockEntries(Redacted(l))[2..] == LockEntries(l)[2..];
  }

  ghost predicate InjectiveJson(digest: Json -> string) {
    forall a, b :: digest(a) == digest(b) ==> a == b
  }

  lemma EntriesDetermine(a: Product, b: Product)
    requires ProductEntries(a) == ProductEntries(b)
    ensures a.(imageSession := PRIVATE, chunklistSession := PRIVATE) == b.(imageSession := PRIVATE, chunklistSession := PRIVATE)
  {
    var x, y := ProductEntries(a), ProductEntries(b);
    assert x[0] == y[0] && x[1] == y[1] && x[2] == y[2] && x[3] == y[3] && x[4] == y[4] && x[5] == y[5] && x[6] == y[6];
    var s, t := TargetEntries(a.target), TargetEntries(b.target);
    assert s[0] == t[0] && s[1] == t[1] && s[2] == t[2] && s[3] == t[3];
  }

  lemma BindingEntriesDetermine(a: Binding, b: Binding)
    requires BindingEntries(a) == BindingEntries(b)
    ensures a == b
  {
    var x, y := BindingEntries(a), BindingEntries(b);
    assert x[0] == y[0] && x[1] == y[1] && x[2] == y[2] && x[3] == y[3];
    assert x[4] == y[4] && x[5] == y[5] && x[6] == y[6] && x[7] == y[7];
  }

  /** Under an injective digest it identifies a lock exactly up to state and session references. */
  lemma DigestIdentifiesExactly(a: Lock, b: Lock, digest: Json -> string)
    requires InjectiveJson(digest)
    ensures LockDigest(a, digest) == LockDigest(b, digest) <==> Redacted(a) == Redacted(b.(state := a.state))
  {
    IdentityFields(a);
    IdentityFields(b);
    var x, y := LockEntries(a), LockEntries(b);
    if LockDigest(a, digest) == LockDigest(b, digest) {
      var i, j := [x[0]] + x[2..], [y[0]] + y[2..];
      assert i == j;
      assert i[1] == x[2] && i[2] == x[3] && i[3] == x[4] && i[4] == x[5];
      assert j[1] == y[2] && j[2] == y[3] && j[3] == y[4] && j[4] == y[5];
      EntriesDetermine(a.product, b.product);
      BindingEntriesDetermine(a.binding, b.binding);
    }
    if Redacted(a) == Redacted(b.(state := a.state)) {
      SameProductEntries(a.product, b.product);
      assert x[2..] == y[2..];
    }
  }

  lemma SameProductEntries(a: Product, b: Product)
    requires a.(imageSession := PRIVATE, chunklistSession := PRIVATE) == b.(imageSession := PRIVATE, chunklistSession := PRIVATE)
    ensures ProductEntries(a) == ProductEntries(b)
  {
  }
}
