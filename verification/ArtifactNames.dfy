/**
 * The names under which one artifact appears on disk, its lock file and its cache file, and when a
 * name tells which artifact it belongs to. A lock file joins sanitized id, sanitized version and
 * variant with dots; a cache file joins id, version, variant and the beginning of the digest with
 * underscores. Each separator may also occur in what it separates, so names can collide.
 */
module ArtifactNames {

  datatype Variant = Release | Debug

  datatype ArtifactKey = ArtifactKey(id: string, version: string, variant: Variant, sha256: string)

  const GLOBAL_LOCK := ".cache.lock"

  function VariantText(v: Variant): string {
    match v
    case Release => "RELEASE"
    case Debug => "DEBUG"
  }

  predicate IsAlphanumeric(c: char) {
    'a' <= c <= 'z' || 'A' <= c <= 'Z' || '0' <= c <= '9'
  }

  function SanitizeChar(c: char): char {
    if IsAlphanumeric(c) || c == '.' || c == '_' || c == '-' then c else '_'
  }

  /** Anything outside letters, digits, dot, underscore and dash becomes an underscore. */
  function Sanitize(s: string): (r: string)
    ensures |r| == |s|
  {
    seq(|s|, i requires 0 <= i < |s| => SanitizeChar(s[i]))
  }

  function LockFileName(k: ArtifactKey): string {
    ".lock." + (Sanitize(k.id) + "." + (Sanitize(k.version) + "." + VariantText(k.variant)))
  }

  function CacheFileName(k: ArtifactKey): string
    requires |k.sha256| >= 12
  {
    (k.id + "_" + k.version) + CacheFileSuffix(k.variant, k.sha256[..12])
  }

  function CacheFileSuffix(v: Variant, shaPrefix: string): string {
    "_" + VariantText(v) + "_" + shaPrefix + ".zip"
  }

  /** The catalog schema's rule for ids: lower-case letters, digits, underscore and dash. */
  predicate SchemaId(id: string) {
    && id != ""
    && forall i :: 0 <= i < |id| ==> 'a' <= id[i] <= 'z' || '0' <= id[i] <= '9' || id[i] == '_' || id[i] == '-'
  }

  lemma SplitAtFirst(sep: char, x: string, r: string, y: string, q: string)
    requires x + [sep] + r == y + [sep] + q
    requires sep !in x && sep !in y
    ensures x == y && r == q
  {
    var s := x + [sep] + r;
    assert s[|x|] == sep && s[|y|] == sep;
    assert forall i :: 0 <= i < |x| ==> s[i] == x[i];
    assert forall i :: 0 <= i < |y| ==> s[i] == y[i];
    assert x == s[..|x|] && y == s[..|y|];
    assert r == s[|x| + 1..] && q == s[|y| + 1..];
  }

  lemma SplitAtLast(sep: char, x: string, r: string, y: string, q: string)
    requires x + [sep] + r == y + [sep] + q
    requires sep !in r && sep !in q
    ensures x == y && r == q
  {
    var s := x + [sep] + r;
    assert s[|x|] == sep && s[|y|] == sep;
    assert forall i :: |x| < i < |s| ==> s[i] == r[i - |x| - 1];
    assert forall i :: |y| < i < |s| ==> s[i] == q[i - |y| - 1];
    assert x == s[..|x|] && y == s[..|y|];
    assert r == s[|x| + 1..] && q == s[|y| + 1..];
  }

  lemma SchemaIdIsClean(id: string)
    requires SchemaId(id)
    ensures Sanitize(id) == id && '.' !in id
  {
  }

  lemma VariantTextHasNoDot(v: Variant)
    ensures '.' !in VariantText(v)
  {
  }

  lemma VariantTextInjective(v: Variant, w: Variant)
    requires VariantText(v) == VariantText(w)
    ensures v == w
  {
    assert |VariantText(Release)| == 7 && |VariantText(Debug)| == 5;
  }

  /** For ids that follow the schema, a lock file belongs to one id, one variant and one sanitized version. */
  lemma LockNameDetermines(a: ArtifactKey, b: ArtifactKey)
    requires SchemaId(a.id) && SchemaId(b.id)
    requires LockFileName(a) == LockFileName(b)
    ensures a.id == b.id && a.variant == b.variant && Sanitize(a.version) == Sanitize(b.version)
  {
    var prefix := ".lock.";
    var tailA := Sanitize(a.version) + "." + VariantText(a.variant);
    var tailB := Sanitize(b.version) + "." + VariantText(b.variant);
    SchemaIdIsClean(a.id);
    SchemaIdIsClean(b.id);
    assert LockFileName(a)[|prefix|..] == a.id + "." + tailA;
    assert LockFileName(b)[|prefix|..] == b.id + "." + tailB;
    SplitAtFirst('.', a.id, tailA, b.id, tailB);
    VariantTextHasNoDot(a.variant);
    VariantTextHasNoDot(b.variant);
    SplitAtLast('.', Sanitize(a.version), VariantText(a.variant), Sanitize(b.version), VariantText(b.variant));
    VariantTextInjective(a.variant, b.variant);
  }

  /** The names of one artifact, in full. */
  lemma NamesInFull(sha: string)
    requires |sha| >= 12
    ensures LockFileName(ArtifactKey("a", "1+2", Release, sha)) == ".lock.a.1_2.RELEASE"
    ensures LockFileName(ArtifactKey("a", "1+2", Debug, sha)) == ".lock.a.1_2.DEBUG"
    ensures CacheFileName(ArtifactKey("a", "1+2", Release, sha)) == "a_1+2_RELEASE_" + sha[..12] + ".zip"
    ensures CacheFileName(ArtifactKey("a", "1+2", Debug, sha)) == "a_1+2_DEBUG_" + sha[..12] + ".zip"
  {
    assert Sanitize("a") == "a" && Sanitize("1+2") == "1_2";
    assert "a" + "_" + "1+2" == "a_1+2";
    JoinText("a_1+2", "RELEASE", sha[..12], "a_1+2_RELEASE_");
    JoinText("a_1+2", "DEBUG", sha[..12], "a_1+2_DEBUG_");
  }

  lemma JoinText(name: string, variant: string, shaPrefix: string, front: string)
    requires front == name + "_" + variant + "_"
    ensures name + ("_" + variant + "_" + shaPrefix + ".zip") == front + shaPrefix + ".zip"
  {
  }

  /** Letters, digits, '.', '_' and '-' stay, anything else becomes '_'. */
  lemma SanitizedAt(s: string, i: nat)
    requires i < |s|
    ensures Sanitize(s)[i] == s[i] <==>
            'a' <= s[i] <= 'z' || 'A' <= s[i] <= 'Z' || '0' <= s[i] <= '9' || s[i] in "._-"
    ensures Sanitize(s)[i] == s[i] || Sanitize(s)[i] == '_'
  {
    assert "._-"[0] == '.' && "._-"[1] == '_' && "._-"[2] == '-';
  }

  /** The schema's rule is needed: with a dot in an id, two ids share a lock file. */
  lemma DottedIdsCollide()
    ensures LockFileName(ArtifactKey("a.1", "2", Release, "")) == LockFileName(ArtifactKey("a", "1.2", Release, ""))
  {
    assert Sanitize("a.1") == "a.1" && Sanitize("2") == "2" && Sanitize("a") == "a" && Sanitize("1.2") == "1.2";
    assert "a.1" + "." + "2" == "a" + "." + "1.2";
    var v := "." + VariantText(Release);
    assert LockFileName(ArtifactKey("a.1", "2", Release, "")) == ".lock." + ("a.1" + "." + "2") + v;
    assert LockFileName(ArtifactKey("a", "1.2", Release, "")) == ".lock." + ("a" + "." + "1.2") + v;
  }

  lemma SuffixShape(v: Variant, shaPrefix: string)
    requires |shaPrefix| == 12
    ensures var t := CacheFileSuffix(v, shaPrefix);
      && |t| == (match v case Release => 25 case Debug => 23)
      && t[|t| - 18] == (match v case Release => 'E' case Debug => 'G')
      && t[|t| - 16..|t| - 4] == shaPrefix
  {
    assert |VariantText(Release)| == 7 && VariantText(Release)[6] == 'E';
    assert |VariantText(Debug)| == 5 && VariantText(Debug)[4] == 'G';
    var t, u := CacheFileSuffix(v, shaPrefix), "_" + VariantText(v);
    assert t == u + "_" + shaPrefix + ".zip";
    assert |t| == |u| + 17 && t[|t| - 18] == u[|u| - 1];
  }

  lemma SameEnds(x: string, r: string, y: string, q: string)
    requires x + r == y + q && |r| == |q|
    ensures x == y && r == q
  {
    var s := x + r;
    assert x == s[..|x|] && y == s[..|y|] && r == s[|x|..] && q == s[|y|..];
  }

  /** Cache-file names collide exactly when variant, digest prefix and the joined id and version agree. */
  lemma CacheNamesCollideExactly(a: ArtifactKey, b: ArtifactKey)
    requires |a.sha256| >= 12 && |b.sha256| >= 12
    ensures CacheFileName(a) == CacheFileName(b) <==>
            && a.variant == b.variant && a.sha256[..12] == b.sha256[..12]
            && a.id + "_" + a.version == b.id + "_" + b.version
  {
    if CacheFileName(a) == CacheFileName(b) { CacheNameTail(a, b); }
  }

  lemma CacheNameTail(a: ArtifactKey, b: ArtifactKey)
    requires |a.sha256| >= 12 && |b.sha256| >= 12
    requires CacheFileName(a) == CacheFileName(b)
    ensures a.variant == b.variant && a.sha256[..12] == b.sha256[..12]
    ensures a.id + "_" + a.version == b.id + "_" + b.version
  {
    var s := CacheFileName(a);
    var t, u := CacheFileSuffix(a.variant, a.sha256[..12]), CacheFileSuffix(b.variant, b.sha256[..12]);
    SuffixShape(a.variant, a.sha256[..12]);
    SuffixShape(b.variant, b.sha256[..12]);
    assert s[|s| - 18] == t[|t| - 18] && s[|s| - 18] == u[|u| - 18];
    assert a.variant == b.variant;
    SameEnds(a.id + "_" + a.version, t, b.id + "_" + b.version, u);
  }

  /** When versions contain no underscore, a cache file belongs to one id, version and variant. */
  lemma CacheNameDetermines(a: ArtifactKey, b: ArtifactKey)
    requires |a.sha256| >= 12 && |b.sha256| >= 12
    requires '_' !in a.version && '_' !in b.version
    requires CacheFileName(a) == CacheFileName(b)
    ensures a.id == b.id && a.version == b.version && a.variant == b.variant
    ensures LockFileName(a) == LockFileName(b)
  {
    CacheNameTail(a, b);
    SplitAtLast('_', a.id, a.version, b.id, b.version);
  }

  /** Otherwise two different locks can guard one cache file. */
  lemma UnderscoredVersionsCollide(sha: string)
    requires |sha| >= 12
    ensures
      var a, b := ArtifactKey("a_b", "1", Release, sha), ArtifactKey("a", "b_1", Release, sha);
      CacheFileName(a) == CacheFileName(b) && LockFileName(a) != LockFileName(b)
  {
    var a, b := ArtifactKey("a_b", "1", Release, sha), ArtifactKey("a", "b_1", Release, sha);
    assert a.id + "_" + a.version == b.id + "_" + b.version;
    assert LockFileName(a)[7] == '_' && LockFileName(b)[7] == '.';
  }

  /** Different ids, but variant, digest prefix and the joined id and version agree. */
  predicate OneFileTwoIds(a: ArtifactKey, b: ArtifactKey) {
    && a.id != b.id && a.id + "_" + a.version == b.id + "_" + b.version
    && a.variant == b.variant && |a.sha256| >= 12 && |b.sha256| >= 12 && a.sha256[..12] == b.sha256[..12]
  }

  /** For ids that follow the schema this is exactly when two locks guard one cache file. */
  lemma OneFileTwoLocksExactly(a: ArtifactKey, b: ArtifactKey)
    requires SchemaId(a.id) && SchemaId(b.id) && |a.sha256| >= 12 && |b.sha256| >= 12
    ensures CacheFileName(a) == CacheFileName(b) && LockFileName(a) != LockFileName(b) <==> OneFileTwoIds(a, b)
  {
    CacheNamesCollideExactly(a, b);
    if CacheFileName(a) == CacheFileName(b) {
      if a.id == b.id {
        assert a.version == (a.id + "_" + a.version)[|a.id| + 1..] == b.version;
      } else if LockFileName(a) == LockFileName(b) {
        LockNameDetermines(a, b);
        assert false;
      }
    }
  }

  lemma GlobalLockIsNoArtifactLock(k: ArtifactKey)
    ensures LockFileName(k) != GLOBAL_LOCK
  {
    assert LockFileName(k)[1] == 'l' && GLOBAL_LOCK[1] == 'c';
  }
}
