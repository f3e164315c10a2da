/**
 * The written form of Recovery contracts by literal keys and patterns: what a document must hold to be
 * read as a given lock or evidence, and which texts are versions and builds. `RecoveryContracts` is
 * measured against it; the patterns of versions and builds, which that module decides by runs of
 * digits, are here sums of parts.
 */
module RecoveryGrammar {
  import opened Common
  import opened Hashing
  import opened JsonLimits
  import opened RecoveryContracts

  // Patterns --------------------------------------------------------------------------------------

  predicate OnlyDigits(s: string) {
    forall i :: 0 <= i < |s| ==> '0' <= s[i] <= '9'
  }

  lemma {:induction false} LeadingDigits(a: string, rest: string)
    requires OnlyDigits(a) && (rest == "" || !('0' <= rest[0] <= '9'))
    ensures Digits(a + rest) == |a|
  {
    if a == "" {
      assert a + rest == rest;
    } else {
      assert (a + rest)[1..] == a[1..] + rest;
      LeadingDigits(a[1..], rest);
    }
  }

  lemma {:induction false} DigitsAreDigits(s: string)
    ensures OnlyDigits(s[..Digits(s)]) && (Digits(s) < |s| ==> !IsDigit(s[Digits(s)]))
  {
    if s != "" && IsDigit(s[0]) {
      DigitsAreDigits(s[1..]);
      assert s[..Digits(s)] == [s[0]] + s[1..][..Digits(s[1..])];
    }
  }

  /** Two or three numbers separated by dots. */
  ghost predicate DottedVersion(s: string) {
    || (exists a, b :: IsNumber(a) && IsNumber(b) && s == a + "." + b)
    || (exists a, b, c :: IsNumber(a) && IsNumber(b) && IsNumber(c) && s == a + "." + (b + "." + c))
  }

  predicate IsNumber(s: string) {
    s != "" && OnlyDigits(s)
  }

  lemma NumberIsAllDigits(s: string)
    ensures AllDigits(s) <==> IsNumber(s)
  {
    DigitsAreDigits(s);
    if IsNumber(s) {
      LeadingDigits(s, "");
      assert s + "" == s;
    }
    if AllDigits(s) { assert s[..|s|] == s; }
  }

  lemma VersionSplits(s: string)
    requires IsVersion(s)
    ensures DottedVersion(s)
  {
    var a := Digits(s);
    var rest := s[a + 1..];
    var b := Digits(rest);
    DigitsAreDigits(s);
    DigitsAreDigits(rest);
    assert s == s[..a] + "." + rest;
    if b == |rest| {
      assert rest[..b] == rest;
      assert IsNumber(s[..a]) && IsNumber(rest);
    } else {
      var c := rest[b + 1..];
      NumberIsAllDigits(c);
      assert rest == rest[..b] + "." + c;
      assert IsNumber(s[..a]) && IsNumber(rest[..b]) && IsNumber(c);
    }
  }

  lemma JoinedIsVersion(a: string, rest: string)
    requires IsNumber(a)
    ensures IsVersion(a + "." + rest) <==>
            Digits(rest) > 0 && (Digits(rest) == |rest| || (rest[Digits(rest)] == '.' && AllDigits(rest[Digits(rest) + 1..])))
  {
    var s := a + "." + rest;
    LeadingDigits(a, "." + rest);
    DotSplits(a, rest);
    assert Digits(s) == |a|;
  }

  lemma DotSplits(a: string, rest: string)
    ensures var s := a + "." + rest; s == a + ("." + rest) && s[|a|] == '.' && s[|a| + 1..] == rest
  {
  }

  lemma TwoNumbersAreVersion(a: string, b: string)
    requires IsNumber(a) && IsNumber(b)
    ensures IsVersion(a + "." + b)
  {
    NumberIsAllDigits(b);
    JoinedIsVersion(a, b);
  }

  lemma ThreeNumbersAreVersion(a: string, b: string, c: string)
    requires IsNumber(a) && IsNumber(b) && IsNumber(c)
    ensures IsVersion(a + "." + (b + "." + c))
  {
    var rest := b + "." + c;
    LeadingDigits(b, "." + c);
    assert rest == b + ("." + c) && rest[|b|] == '.' && rest[|b| + 1..] == c;
    NumberIsAllDigits(c);
    JoinedIsVersion(a, rest);
  }

  lemma VersionExactly(s: string)
    ensures IsVersion(s) <==> DottedVersion(s)
  {
    if IsVersion(s) {
      VersionSplits(s);
    } else if a, b :| IsNumber(a) && IsNumber(b) && s == a + "." + b {
      TwoNumbersAreVersion(a, b);
    } else if a, b, c :| IsNumber(a) && IsNumber(b) && IsNumber(c) && s == a + "." + (b + "." + c) {
      ThreeNumbersAreVersion(a, b, c);
    }
  }

  /** Two digits, a capital letter, two to six digits, and perhaps a small letter. */
  ghost predicate BuildNumber(s: string) {
    exists n, tail :: BuildOf(s, n, tail)
  }

  predicate BuildOf(s: string, n: string, tail: string) {
    && |s| >= 3 && '0' <= s[0] <= '9' && '0' <= s[1] <= '9' && 'A' <= s[2] <= 'Z'
    && s[3..] == n + tail && 2 <= |n| <= 6 && OnlyDigits(n)
    && (tail == "" || (|tail| == 1 && 'a' <= tail[0] <= 'z'))
  }

  lemma BuildExactly(s: string)
    ensures IsBuild(s) <==> BuildNumber(s)
  {
    if IsBuild(s) {
      var rest := s[3..];
      var n := Digits(rest);
      DigitsAreDigits(rest);
      assert rest == rest[..n] + rest[n..];
      assert BuildOf(s, rest[..n], rest[n..]);
    }
    if n, tail :| BuildOf(s, n, tail) { LeadingDigits(n, tail); }
  }

  // What a document must hold ---------------------------------------------------------------------

  /** The key is there and its value prints as `text`. */
  predicate TextAt(entries: seq<Entry>, key: string, str: Json -> string, text: string) {
    Get(entries, key).Some? && str(Get(entries, key).value) == text
  }

  /** The key is missing or null for an unknown size, else a positive integer. */
  predicate SizeAt(entries: seq<Entry>, key: string, size: Option<int>) {
    match size
    case None => Get(entries, key) == None || Get(entries, key) == Some(Null)
    case Some(n) => n > 0 && Get(entries, key) == Some(Number(n))
  }

  predicate ProductName(s: string) {
    |s| >= 2 && 'a' <= s[0] <= 'z' && forall i :: 0 < i < |s| ==> 'a' <= s[i] <= 'z' || '0' <= s[i] <= '9' || s[i] == '-'
  }

  ghost predicate HoldsTarget(entries: seq<Entry>, str: Json -> string, t: Target) {
    && TextAt(entries, "product_id", str, t.productId) && TextAt(entries, "product_name", str, t.productName)
    && TextAt(entries, "version", str, t.version) && TextAt(entries, "build", str, t.build)
    && ProductName(t.productId) && DottedVersion(t.version) && BuildNumber(t.build) && !Blank(t.productName)
  }

  lemma TargetReadExactly(entries: seq<Entry>, str: Json -> string, t: Target)
    ensures TargetFrom(entries, str) == Some(t) <==> HoldsTarget(entries, str, t)
  {
    VersionExactly(t.version);
    BuildExactly(t.build);
  }

  ghost predicate HoldsProduct(entries: seq<Entry>, str: Json -> string, p: Product) {
    && (exists target :: Get(entries, "target") == Some(Object(target)) && HoldsTarget(target, str, p.target))
    && TextAt(entries, "image_url", str, p.imageUrl) && TextAt(entries, "image_sha256", str, p.imageSha)
    && TextAt(entries, "chunklist_url", str, p.chunklistUrl) && TextAt(entries, "chunklist_sha256", str, p.chunklistSha)
    && SizeAt(entries, "image_size_bytes", p.imageSize) && SizeAt(entries, "chunklist_size_bytes", p.chunklistSize)
    && (Get(entries, "authentication").Some? ==> TextAt(entries, "authentication", str, "apple-signed-chunklist"))
    && IsSha256(p.imageSha) && IsSha256(p.chunklistSha)
    && p.imageSession == "<private>" && p.chunklistSession == "<private>"
  }

  lemma SizeReadExactly(entries: seq<Entry>, key: string, size: Option<int>)
    ensures SizeFrom(Get(entries, key)) == Some(size) <==> SizeAt(entries, key, size)
  {
  }

  lemma ProductReadExactly(entries: seq<Entry>, str: Json -> string, p: Product)
    ensures ProductFrom(entries, str) == Some(p) <==> HoldsProduct(entries, str, p)
  {
    SizeReadExactly(entries, "image_size_bytes", p.imageSize);
    SizeReadExactly(entries, "chunklist_size_bytes", p.chunklistSize);
    var target := Get(entries, "target");
    if target.Some? && target.value.Object? { TargetReadExactly(target.value.entries, str, p.target); }
  }

  ghost predicate HoldsBinding(entries: seq<Entry>, str: Json -> string, b: Binding) {
    && TextAt(entries, "target_digest", str, b.target) && TextAt(entries, "stable_model_id", str, b.stableModelId)
    && TextAt(entries, "configuration_digest", str, b.configuration) && TextAt(entries, "build_plan_digest", str, b.buildPlan)
    && TextAt(entries, "policy_digest", str, b.policy) && TextAt(entries, "catalog_digest", str, b.catalog)
    && TextAt(entries, "toolchain_digest", str, b.toolchain) && TextAt(entries, "efi_manifest_digest", str, b.efiManifest)
    && IsSha256(b.target) && IsSha256(b.configuration) && IsSha256(b.buildPlan) && IsSha256(b.policy)
    && IsSha256(b.catalog) && IsSha256(b.toolchain) && IsSha256(b.efiManifest) && !Blank(b.stableModelId)
  }

  lemma BindingReadExactly(entries: seq<Entry>, str: Json -> string, b: Binding)
    ensures BindingFrom(entries, str) == Some(b) <==> HoldsBinding(entries, str, b)
  {
  }

  predicate StateText(s: LockState, text: string) {
    (s == Locked && text == "locked") || (s == Acquired && text == "acquired") || (s == Verified && text == "verified")
  }

  lemma StateReadExactly(text: string, s: LockState)
    ensures StateFrom(text) == Some(s) <==> StateText(s, text)
  {
  }

  ghost predicate ProductIn(entries: seq<Entry>, str: Json -> string, p: Product) {
    exists product :: Get(entries, "product") == Some(Object(product)) && HoldsProduct(product, str, p)
  }

  ghost predicate BindingIn(entries: seq<Entry>, str: Json -> string, b: Binding) {
    exists binding :: Get(entries, "binding") == Some(Object(binding)) && HoldsBinding(binding, str, b)
  }

  lemma ProductInExactly(entries: seq<Entry>, str: Json -> string, p: Product)
    ensures ProductIn(entries, str, p) <==>
            var v := Get(entries, "product"); v.Some? && v.value.Object? && ProductFrom(v.value.entries, str) == Some(p)
  {
    var v := Get(entries, "product");
    if v.Some? && v.value.Object? { ProductReadExactly(v.value.entries, str, p); }
  }

  lemma BindingInExactly(entries: seq<Entry>, str: Json -> string, b: Binding)
    ensures BindingIn(entries, str, b) <==>
            var v := Get(entries, "binding"); v.Some? && v.value.Object? && BindingFrom(v.value.entries, str) == Some(b)
  {
    var v := Get(entries, "binding");
    if v.Some? && v.value.Object? { BindingReadExactly(v.value.entries, str, b); }
  }

  ghost predicate StateIn(entries: seq<Entry>, str: Json -> string, s: LockState) {
    Get(entries, "state").Some? && StateText(s, str(Get(entries, "state").value))
  }

  ghost predicate HoldsLock(v: Json, str: Json -> string, l: Lock) {
    && v.Object? && TextAt(v.entries, "schema_version", str, "1") && StateIn(v.entries, str, l.state)
    && ProductIn(v.entries, str, l.product) && BindingIn(v.entries, str, l.binding)
    && TextAt(v.entries, "source_policy_digest", str, l.sourcePolicy) && IsSha256(l.sourcePolicy)
    && TextAt(v.entries, "discovery_record_digest", str, l.discoveryRecord) && IsSha256(l.discoveryRecord)
  }

  /** A document is read as this lock exactly when it holds it under these keys. */
  lemma LockReadExactly(v: Json, str: Json -> string, l: Lock)
    ensures LockFrom(v, str) == Some(l) <==> HoldsLock(v, str, l)
  {
    if v.Object? {
      LockFromParts(v, str, l);
      ProductInExactly(v.entries, str, l.product);
      BindingInExactly(v.entries, str, l.binding);
    }
  }

  /** Reading a lock is reading its parts. */
  lemma LockFromParts(v: Json, str: Json -> string, l: Lock)
    requires v.Object?
    ensures var product, binding := Get(v.entries, "product"), Get(v.entries, "binding");
      LockFrom(v, str) == Some(l) <==>
        && product.Some? && product.value.Object? && ProductFrom(product.value.entries, str) == Some(l.product)
        && binding.Some? && binding.value.Object? && BindingFrom(binding.value.entries, str) == Some(l.binding)
        && TextAt(v.entries, "schema_version", str, "1") && StateIn(v.entries, str, l.state)
        && TextAt(v.entries, "source_policy_digest", str, l.sourcePolicy) && IsSha256(l.sourcePolicy)
        && TextAt(v.entries, "discovery_record_digest", str, l.discoveryRecord) && IsSha256(l.discoveryRecord)
  {
    var state := Get(v.entries, "state");
    if state.Some? { StateReadExactly(str(state.value), l.state); }
  }

  /** A value that Python takes for true. */
  predicate CountsAsTrue(v: Json) {
    v !in {Null, Boolean(false), Number(0), Text(""), Array([]), Object([])}
  }

  predicate CountsAsPositive(v: Json) {
    v == Boolean(true) || (v.Number? && v.number > 0)
  }

  /** Exactly these seven keys; three hold digests, and of the other values little is asked. */
  ghost predicate HoldsEvidence(v: Json, e: Evidence) {
    && v.Object? && |v.entries| == 7
    && Get(v.entries, "lock_digest") == Some(Text(e.lockDigest)) && IsSha256(e.lockDigest)
    && Get(v.entries, "image_digest") == Some(Text(e.imageDigest)) && IsSha256(e.imageDigest)
    && Get(v.entries, "chunklist_digest") == Some(Text(e.chunklistDigest)) && IsSha256(e.chunklistDigest)
    && Get(v.entries, "signed_chunklist") == Some(e.signed) && CountsAsTrue(e.signed)
    && Get(v.entries, "verified_chunks") == Some(e.chunks) && CountsAsPositive(e.chunks)
    && Get(v.entries, "image_size_bytes") == Some(e.imageSize) && CountsAsPositive(e.imageSize)
    && Get(v.entries, "verification_tool") == Some(e.tool)
  }

  lemma EvidenceReadExactly(v: Json, e: Evidence)
    ensures EvidenceFrom(v) == Some(e) <==> HoldsEvidence(v, e)
  {
  }
}
