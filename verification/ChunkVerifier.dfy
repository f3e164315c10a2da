/**
 * The streaming verifier for Apple-signed chunklists. `Verify` reads both files through handles
 * whose reads may be short; `Outcome` says what it returns as a function of the two files alone, and
 * `Accepts` says what acceptance means without mentioning any order of work.
 */
module ChunkVerifier {
  import opened Common
  import opened Hashing
  import opened ChunklistFormat
  import opened ChunklistLayout

  const READ_SIZE := 1024 * 1024

  datatype VerifyError =
    | ChunklistTooLarge
    | ChunklistChecksum
    | Malformed(reason: ParseError)
    | Unsigned
    | BadSignature
    | ChunkFailed(index: nat)
    | ImageLargerThanChunklist
    | ImageChecksum
    | Cancelled

  /** An open file. `Read` may return fewer bytes than asked for; `ReadFully` is the buffered read. */
  class FileHandle {
    const content: seq<byte>
    var position: nat

    ghost predicate Valid()
      reads this
    {
      position <= |content|
    }

    constructor (content: seq<byte>)
      ensures Valid() && this.content == content && position == 0
    {
      this.content := content;
      position := 0;
    }

    method Read(limit: nat) returns (chunk: seq<byte>)
      requires Valid()
      modifies this
      ensures Valid() && old(position) <= position <= old(position) + limit
      ensures chunk == content[old(position)..position]
      ensures chunk == [] <==> limit == 0 || old(position) == |content|
    {
      var available := if limit < |content| - position then limit else |content| - position;
      var n: nat :| n <= available && (n == 0 <==> available == 0);
      chunk := content[position..position + n];
      position := position + n;
    }

    method ReadFully(limit: nat) returns (chunk: seq<byte>)
      requires Valid()
      modifies this
      ensures Valid()
      ensures position == if limit < |content| - old(position) then old(position) + limit else |content|
      ensures chunk == content[old(position)..position]
    {
      var n := if limit < |content| - position then limit else |content| - position;
      chunk := content[position..position + n];
      position := position + n;
    }
  }

  // What the verifier decides ---------------------------------------------------------------------

  /** What a successful verification returns: the number of blocks and the size of the image. */
  datatype Verified = Verified(count: nat, size: nat)

  function CheckBlocks<S>(h: HashAlgorithm<S>, entries: seq<Entry>, image: seq<byte>, index: nat)
    : Result<nat, VerifyError>
  {
    if entries == [] then
      if image != [] then Err(ImageLargerThanChunklist) else Ok(0)
    else if |image| < entries[0].size || h.whole(image[..entries[0].size]) != entries[0].digest then
      Err(ChunkFailed(index))
    else
      Grow(CheckBlocks(h, entries[1..], image[entries[0].size..], index + 1), entries[0].size)
  }

  function Grow(r: Result<nat, VerifyError>, n: nat): Result<nat, VerifyError> {
    match r
    case Ok(size) => Ok(size + n)
    case Err(e) => Err(e)
  }

  function ImageOutcome<S>(h: HashAlgorithm<S>, entries: seq<Entry>, image: seq<byte>, expectedImage: Digest)
    : Result<Verified, VerifyError>
  {
    match CheckBlocks(h, entries, image, 1)
    case Err(e) => Err(e)
    case Ok(size) => if h.whole(image) != expectedImage then Err(ImageChecksum) else Ok(Verified(|entries|, size))
  }

  function Outcome<S>(
    h: HashAlgorithm<S>, signatureValid: (Digest, seq<byte>) -> bool,
    image: seq<byte>, file: seq<byte>, expectedImage: Digest, expectedChunklist: Digest)
    : Result<Verified, VerifyError>
  {
    if |file| > MAX_CHUNKLIST_BYTES then Err(ChunklistTooLarge)
    else if h.whole(file) != expectedChunklist then Err(ChunklistChecksum)
    else match Parse(file)
      case Err(reason) => Err(Malformed(reason))
      case Ok(c) =>
        if c.signatureMethod != 1 then Err(Unsigned)
        else if |c.signature| > |file| || !signatureValid(h.whole(file[..|file| - |c.signature|]), c.signature) then
          Err(BadSignature)
        else ImageOutcome(h, c.entries, image, expectedImage)
  }

  // What acceptance means -------------------------------------------------------------------------

  /** `blocks` are pieces of the sizes and digests that the entries declare. */
  ghost predicate Matches<S>(h: HashAlgorithm<S>, entries: seq<Entry>, blocks: seq<seq<byte>>) {
    && |blocks| == |entries|
    && forall i :: 0 <= i < |blocks| ==> |blocks[i]| == entries[i].size && h.whole(blocks[i]) == entries[i].digest
  }

  ghost predicate Covers<S>(h: HashAlgorithm<S>, entries: seq<Entry>, image: seq<byte>) {
    exists blocks :: Matches(h, entries, blocks) && image == Flatten(blocks)
  }

  /** Both digests match, the chunklist is the encoding of a signed list, and the image is its blocks. */
  ghost predicate Accepts<S>(
    h: HashAlgorithm<S>, signatureValid: (Digest, seq<byte>) -> bool,
    image: seq<byte>, file: seq<byte>, expectedImage: Digest, expectedChunklist: Digest, c: Chunklist, pad: byte)
  {
    && WellFormed(c) && c.signatureMethod == 1
    && file == Encode(c, pad) && |file| <= MAX_CHUNKLIST_BYTES
    && h.whole(file) == expectedChunklist
    && h.whole(image) == expectedImage
    && signatureValid(h.whole(EncodeSigned(c, pad)), c.signature)
    && Covers(h, c.entries, image)
  }

  lemma {:induction false} FlattenCons(chunks: seq<seq<byte>>)
    requires chunks != []
    ensures Flatten(chunks) == chunks[0] + Flatten(chunks[1..])
  {
    var last := |chunks| - 1;
    if last > 0 {
      FlattenCons(chunks[..last]);
      assert chunks[..last][1..] == chunks[1..][..last - 1];
      assert chunks[1..][last - 1] == chunks[last];
    } else {
      assert chunks[..last] == [] && chunks[1..] == [];
      assert Flatten(chunks[1..]) == [];
    }
  }

  lemma MatchesCons<S>(h: HashAlgorithm<S>, entries: seq<Entry>, first: seq<byte>, rest: seq<seq<byte>>)
    requires entries != [] && |first| == entries[0].size && h.whole(first) == entries[0].digest
    requires Matches(h, entries[1..], rest)
    ensures Matches(h, entries, [first] + rest)
  {
    var blocks := [first] + rest;
    forall i | 0 <= i < |blocks| ensures |blocks[i]| == entries[i].size && h.whole(blocks[i]) == entries[i].digest {
      if i > 0 { assert blocks[i] == rest[i - 1] && entries[i] == entries[1..][i - 1]; }
    }
  }

  lemma CoversCons<S>(h: HashAlgorithm<S>, entries: seq<Entry>, image: seq<byte>)
    requires entries != [] && entries[0].size <= |image|
    requires h.whole(image[..entries[0].size]) == entries[0].digest
    requires Covers(h, entries[1..], image[entries[0].size..])
    ensures Covers(h, entries, image)
  {
    var first, tail := image[..entries[0].size], image[entries[0].size..];
    var rest :| Matches(h, entries[1..], rest) && tail == Flatten(rest);
    var blocks := [first] + rest;
    MatchesCons(h, entries, first, rest);
    FlattenCons(blocks);
    assert blocks[1..] == rest;
    assert image == first + tail;
  }

  lemma {:induction false} CheckedIsCovered<S>(h: HashAlgorithm<S>, entries: seq<Entry>, image: seq<byte>, index: nat)
    requires CheckBlocks(h, entries, image, index).Ok?
    ensures Covers(h, entries, image)
    ensures CheckBlocks(h, entries, image, index).value == |image|
  {
    if entries == [] {
      assert Matches(h, entries, []) && Flatten([]) == [];
    } else {
      CheckedIsCovered(h, entries[1..], image[entries[0].size..], index + 1);
      CoversCons(h, entries, image);
    }
  }

  lemma {:induction false} CoveredIsChecked<S>(
    h: HashAlgorithm<S>, entries: seq<Entry>, blocks: seq<seq<byte>>, index: nat)
    requires Matches(h, entries, blocks)
    ensures CheckBlocks(h, entries, Flatten(blocks), index).Ok?
  {
    if entries != [] {
      var image := Flatten(blocks);
      FlattenCons(blocks);
      assert blocks[0] == image[..entries[0].size] && image[entries[0].size..] == Flatten(blocks[1..]);
      CoveredIsChecked(h, entries[1..], blocks[1..], index + 1);
    }
  }

  lemma CheckBlocksExact<S>(h: HashAlgorithm<S>, entries: seq<Entry>, image: seq<byte>, index: nat)
    ensures CheckBlocks(h, entries, image, index).Ok? <==> Covers(h, entries, image)
    ensures CheckBlocks(h, entries, image, index).Ok? ==> CheckBlocks(h, entries, image, index).value == |image|
  {
    if CheckBlocks(h, entries, image, index).Ok? {
      CheckedIsCovered(h, entries, image, index);
    }
    if blocks :| Matches(h, entries, blocks) && image == Flatten(blocks) {
      CoveredIsChecked(h, entries, blocks, index);
    }
  }

  /**
   * The verifier accepts exactly the images that are the blocks of an authenticated chunklist with
   * both whole-file digests right, and what it returns is the block count and the image length.
   */
  lemma OutcomeExact<S>(
    h: HashAlgorithm<S>, signatureValid: (Digest, seq<byte>) -> bool,
    image: seq<byte>, file: seq<byte>, expectedImage: Digest, expectedChunklist: Digest, count: nat, size: nat)
    ensures
      Outcome(h, signatureValid, image, file, expectedImage, expectedChunklist) == Ok(Verified(count, size))
      <==> exists c, pad :: Accepts(h, signatureValid, image, file, expectedImage, expectedChunklist, c, pad)
                            && count == |c.entries| && size == |image|
  {
    if Outcome(h, signatureValid, image, file, expectedImage, expectedChunklist) == Ok(Verified(count, size)) {
      var c := Parse(file).value;
      EncodeParse(file);
      CheckBlocksExact(h, c.entries, image, 1);
      assert file[..|file| - |c.signature|] == EncodeSigned(c, file[11]);
      assert Accepts(h, signatureValid, image, file, expectedImage, expectedChunklist, c, file[11]);
    }
    if c: Chunklist, pad: byte :|
      Accepts(h, signatureValid, image, file, expectedImage, expectedChunklist, c, pad)
      && count == |c.entries| && size == |image|
    {
      ParseEncode(c, pad);
      CheckBlocksExact(h, c.entries, image, 1);
      assert file[..|file| - |c.signature|] == EncodeSigned(c, pad);
    }
  }

  /** Where block `k` of the image starts. */
  ghost function Offset(entries: seq<Entry>, k: nat): nat
    requires k <= |entries|
  {
    if k == 0 then 0 else Offset(entries, k - 1) + entries[k - 1].size
  }

  /** Block `k` is there in full and has its digest. */
  ghost predicate GoodBlock<S>(h: HashAlgorithm<S>, entries: seq<Entry>, image: seq<byte>, k: nat)
    requires k < |entries|
  {
    var from := Offset(entries, k);
    var to := from + entries[k].size;
    to <= |image| && h.whole(image[from..to]) == entries[k].digest
  }

  ghost predicate GoodBefore<S>(h: HashAlgorithm<S>, entries: seq<Entry>, image: seq<byte>, from: nat, k: nat)
    requires k <= |entries|
  {
    forall i :: from <= i < k ==> GoodBlock(h, entries, image, i)
  }

  lemma {:induction false} BlocksFrom<S>(h: HashAlgorithm<S>, entries: seq<Entry>, image: seq<byte>, j: nat)
    requires j <= |entries| && Offset(entries, j) <= |image|
    ensures var r := CheckBlocks(h, entries[j..], image[Offset(entries, j)..], j + 1);
      && (forall k :: j <= k < |entries| && !GoodBlock(h, entries, image, k) && GoodBefore(h, entries, image, j, k)
                      ==> r == Err(ChunkFailed(k + 1)))
      && (GoodBefore(h, entries, image, j, |entries|)
          ==> r == if Offset(entries, |entries|) < |image| then Err(ImageLargerThanChunklist) else Ok(|image| - Offset(entries, j)))
    decreases |entries| - j
  {
    var from := Offset(entries, j);
    var rest, tail := entries[j..], image[from..];
    if j == |entries| {
      assert rest == [];
    } else {
      var to := from + entries[j].size;
      assert rest[0] == entries[j] && rest[1..] == entries[j + 1..];
      if to <= |image| {
        assert tail[..entries[j].size] == image[from..to] && tail[entries[j].size..] == image[to..];
      }
      if GoodBlock(h, entries, image, j) { BlocksFrom(h, entries, image, j + 1); }
    }
  }

  /**
   * What the verifier answers in each case, read off the bytes of the two files: the size and digest of
   * the chunklist file, its structure, its method byte, its last 256 bytes, then block by block from the
   * first, and at last the digest of the whole image. Blocks are numbered from 1.
   */
  lemma OutcomeCases<S>(
    h: HashAlgorithm<S>, signatureValid: (Digest, seq<byte>) -> bool,
    image: seq<byte>, file: seq<byte>, expectedImage: Digest, expectedChunklist: Digest)
    ensures var r := Outcome(h, signatureValid, image, file, expectedImage, expectedChunklist);
      if |file| > 33_554_432 then r == Err(ChunklistTooLarge)
      else if h.whole(file) != expectedChunklist then r == Err(ChunklistChecksum)
      else if Parse(file).Err? then r == Err(Malformed(Parse(file).error))
      else
        |file| >= 36 &&
        if file[10] != 1 then r == Err(Unsigned)
        else
          |file| >= 256 &&
          if !signatureValid(h.whole(file[..|file| - 256]), file[|file| - 256..]) then r == Err(BadSignature)
          else
            var entries := Parse(file).value.entries;
            && (forall k :: 0 <= k < |entries| && !GoodBlock(h, entries, image, k) && GoodBefore(h, entries, image, 0, k)
                            ==> r == Err(ChunkFailed(k + 1)))
            && (GoodBefore(h, entries, image, 0, |entries|) ==>
                  r == if Offset(entries, |entries|) < |image| then Err(ImageLargerThanChunklist)
                       else if h.whole(image) != expectedImage then Err(ImageChecksum)
                       else Ok(Verified(|entries|, |image|)))
  {
    if Parse(file).Ok? {
      AcceptedByBytes(file);
      var entries := Parse(file).value.entries;
      BlocksFrom(h, entries, image, 0);
      assert entries[0..] == entries && image[0..] == image;
    }
  }

  lemma {:induction false} SameBlocks<S>(h: HashAlgorithm<S>, entries: seq<Entry>, a: seq<seq<byte>>, b: seq<seq<byte>>)
    requires Injective(h) && Matches(h, entries, a) && Matches(h, entries, b)
    ensures a == b
  {
    forall i | 0 <= i < |a|
      ensures a[i] == b[i]
    {
      assert h.whole(a[i]) == h.whole(b[i]);
    }
  }

  /** With collision-free hashing one chunklist authenticates at most one image. */
  lemma OneImagePerChunklist<S>(
    h: HashAlgorithm<S>, signatureValid: (Digest, seq<byte>) -> bool, file: seq<byte>, expectedChunklist: Digest,
    image: seq<byte>, expectedImage: Digest, other: seq<byte>, expectedOther: Digest)
    requires Injective(h)
    requires Outcome(h, signatureValid, image, file, expectedImage, expectedChunklist).Ok?
    requires Outcome(h, signatureValid, other, file, expectedOther, expectedChunklist).Ok?
    ensures image == other && expectedImage == expectedOther
  {
    var c := Parse(file).value;
    CheckBlocksExact(h, c.entries, image, 1);
    CheckBlocksExact(h, c.entries, other, 1);
    var a :| Matches(h, c.entries, a) && image == Flatten(a);
    var b :| Matches(h, c.entries, b) && other == Flatten(b);
    SameBlocks(h, c.entries, a, b);
  }

  // The streaming implementation ------------------------------------------------------------------

  lemma Extend<S>(h: HashAlgorithm<S>, state: S, prefix: seq<byte>, content: seq<byte>, a: nat, b: nat, c: nat)
    requires a <= b <= c <= |content|
    requires Absorbed(h, state, prefix + content[a..b])
    ensures Absorbed(h, h.update(state, content[b..c]), prefix + content[a..c])
  {
    AbsorbedUpdate(h, state, prefix + content[a..b], content[b..c]);
    assert prefix + content[a..b] + content[b..c] == prefix + content[a..c];
  }

  lemma Start<S>(h: HashAlgorithm<S>, content: seq<byte>, a: nat)
    requires a <= |content|
    ensures Absorbed(h, h.init, [] + content[a..a])
  {
    AbsorbedInit(h);
    assert [] + content[a..a] == [];
  }

  lemma Finish<S>(h: HashAlgorithm<S>, state: S, content: seq<byte>, a: nat, b: nat)
    requires Incremental(h) && a <= b <= |content| && Absorbed(h, state, [] + content[a..b])
    ensures h.finish(state) == h.whole(content[a..b])
  {
    assert [] + content[a..b] == content[a..b];
    AbsorbedFinish(h, state, content[a..b]);
  }

  method HashFile<S>(h: HashAlgorithm<S>, content: seq<byte>, cancellable: bool)
    returns (r: Result<Digest, VerifyError>)
    requires Incremental(h)
    ensures r == Ok(h.whole(content)) || (cancellable && r == Err(Cancelled))
  {
    var handle := new FileHandle(content);
    var state := h.init;
    Start(h, content, 0);
    while true
      invariant handle.Valid() && handle.content == content
      invariant Absorbed(h, state, [] + content[0..handle.position])
      decreases |content| - handle.position
    {
      ghost var from := handle.position;
      var chunk := handle.Read(READ_SIZE);
      if chunk == [] {
        break;
      }
      if cancellable {
        var stop: bool := *;
        if stop { return Err(Cancelled); }
      }
      Extend(h, state, [], content, 0, from, handle.position);
      state := h.update(state, chunk);
    }
    Finish(h, state, content, 0, |content|);
    assert content[0..|content|] == content;
    r := Ok(h.finish(state));
  }

  /** One block of the image: feed it to its own hash and to the image hash until `size` bytes are read. */
  method VerifyChunk<S>(h: HashAlgorithm<S>, image: FileHandle, imageState: S, entry: Entry, cancellable: bool)
    returns (r: Result<bool, VerifyError>, next: S)
    requires Incremental(h) && image.Valid()
    requires Absorbed(h, imageState, [] + image.content[0..image.position])
    modifies image
    ensures image.Valid() && Absorbed(h, next, [] + image.content[0..image.position])
    ensures r.Err? ==> cancellable && r == Err(Cancelled)
    ensures r.Ok? ==>
      var from := old(image.position);
      r.value == (from + entry.size <= |image.content|
                  && h.whole(image.content[from..from + entry.size]) == entry.digest)
    ensures r == Ok(true) ==> image.position == old(image.position) + entry.size
  {
    ghost var content := image.content;
    ghost var from := image.position;
    next := imageState;
    var remaining := entry.size;
    var chunkState := h.init;
    Start(h, content, from);
    while remaining > 0
      invariant image.Valid() && image.position == from + (entry.size - remaining)
      invariant 0 <= remaining <= entry.size
      invariant Absorbed(h, chunkState, [] + content[from..image.position])
      invariant Absorbed(h, next, [] + content[0..image.position])
      decreases remaining
    {
      if cancellable {
        var stop: bool := *;
        if stop { return Err(Cancelled), next; }
      }
      ghost var at := image.position;
      var data := image.Read(if READ_SIZE < remaining then READ_SIZE else remaining);
      if data == [] {
        break;
      }
      Extend(h, chunkState, [], content, from, at, image.position);
      Extend(h, next, [], content, 0, at, image.position);
      chunkState := h.update(chunkState, data);
      next := h.update(next, data);
      remaining := remaining - |data|;
    }
    Finish(h, chunkState, content, from, image.position);
    r := Ok(remaining == 0 && h.finish(chunkState) == entry.digest);
  }

  /** The spool is the entries, back to back. */
  ghost predicate Spooled(spool: seq<byte>, entries: seq<Entry>) {
    && |spool| == ENTRY_SIZE * |entries|
    && forall i :: 0 <= i < |entries| ==> SpooledAt(spool, i, entries[i])
  }

  ghost predicate SpooledAt(spool: seq<byte>, i: nat, entry: Entry)
  {
    && ENTRY_SIZE * i + ENTRY_SIZE <= |spool|
    && entry == UnpackEntry(spool[ENTRY_SIZE * i..ENTRY_SIZE * i + ENTRY_SIZE])
  }

  lemma {:induction false} SpooledEntries(spool: seq<byte>, count: nat)
    requires |spool| == ENTRY_SIZE * count
    ensures Spooled(spool, UnpackEntries(spool, count))
  {
    if count > 0 {
      var rest := spool[ENTRY_SIZE..];
      SpooledEntries(rest, count - 1);
      var entries := UnpackEntries(spool, count);
      forall i | 0 <= i < count
        ensures SpooledAt(spool, i, entries[i])
      {
        if i > 0 {
          assert SpooledAt(rest, i - 1, UnpackEntries(rest, count - 1)[i - 1]);
          assert rest[ENTRY_SIZE * (i - 1)..ENTRY_SIZE * (i - 1) + ENTRY_SIZE]
              == spool[ENTRY_SIZE * i..ENTRY_SIZE * i + ENTRY_SIZE];
        }
      }
    }
  }

  /** After `index` good blocks ending at `at`, the verdict is that of what remains. */
  ghost predicate Reduced<S>(
    verdict: Result<nat, VerifyError>, h: HashAlgorithm<S>, entries: seq<Entry>, content: seq<byte>,
    index: nat, at: nat, size: nat)
  {
    && index <= |entries| && at <= |content|
    && verdict == Grow(CheckBlocks(h, entries[index..], content[at..], index + 1), size)
  }

  lemma ReducedStep<S>(
    verdict: Result<nat, VerifyError>, h: HashAlgorithm<S>, entries: seq<Entry>, content: seq<byte>,
    i: nat, at: nat, size: nat)
    requires Reduced(verdict, h, entries, content, i, at, size) && i < |entries|
    ensures
      var e := entries[i];
      if at + e.size <= |content| && h.whole(content[at..at + e.size]) == e.digest
      then Reduced(verdict, h, entries, content, i + 1, at + e.size, size + e.size)
      else verdict == Err(ChunkFailed(i + 1))
  {
    var e, rest := entries[i], content[at..];
    assert entries[i..][0] == e && entries[i..][1..] == entries[i + 1..];
    if at + e.size <= |content| {
      assert rest[..e.size] == content[at..at + e.size] && rest[e.size..] == content[at + e.size..];
    }
  }

  /** One turn of the loop over the entries: the next entry from the spool and its block of the image. */
  method VerifyNext<S>(
    h: HashAlgorithm<S>, image: FileHandle, imageState: S, entry: Entry, index: nat, imageSize: nat,
    cancellable: bool, ghost entries: seq<Entry>, ghost verdict: Result<nat, VerifyError>)
    returns (r: Result<nat, VerifyError>, next: S)
    requires Incremental(h) && image.Valid()
    requires Absorbed(h, imageState, [] + image.content[0..image.position])
    requires index < |entries| && entry == entries[index]
    requires Reduced(verdict, h, entries, image.content, index, image.position, imageSize)
    modifies image
    ensures image.Valid() && Absorbed(h, next, [] + image.content[0..image.position])
    ensures r.Ok? ==> Reduced(verdict, h, entries, image.content, index + 1, image.position, r.value)
    ensures r.Err? ==> r == verdict || (cancellable && r == Err(Cancelled))
  {
    ReducedStep(verdict, h, entries, image.content, index, image.position, imageSize);
    var good;
    good, next := VerifyChunk(h, image, imageState, entry, cancellable);
    r := match good
      case Err(e) => Err(e)
      case Ok(matches) => if matches then Ok(imageSize + entry.size) else Err(ChunkFailed(index + 1));
  }

  /** The loop over the entries; on success `image` stands where the last block ended. */
  method VerifyBlocks<S>(
    h: HashAlgorithm<S>, image: FileHandle, spool: seq<byte>, count: nat, cancellable: bool,
    ghost entries: seq<Entry>, ghost verdict: Result<nat, VerifyError>)
    returns (r: Result<nat, VerifyError>, imageState: S)
    requires Incremental(h) && Spooled(spool, entries) && |entries| == count
    requires image.Valid() && image.position == 0
    requires Reduced(verdict, h, entries, image.content, 0, 0, 0)
    modifies image
    ensures image.Valid() && Absorbed(h, imageState, [] + image.content[0..image.position])
    ensures r.Ok? ==> Reduced(verdict, h, entries, image.content, count, image.position, r.value)
    ensures r.Err? ==> r == verdict || (cancellable && r == Err(Cancelled))
  {
    var spooled := new FileHandle(spool);
    imageState := h.init;
    Start(h, image.content, 0);
    r := Ok(0);
    var index := 0;
    while index < count
      invariant index <= count && r.Ok?
      invariant spooled.Valid() && spooled.content == spool && spooled.position == ENTRY_SIZE * index
      invariant image.Valid() && Absorbed(h, imageState, [] + image.content[0..image.position])
      invariant Reduced(verdict, h, entries, image.content, index, image.position, r.value)
    {
      if cancellable {
        var stop: bool := *;
        if stop { return Err(Cancelled), imageState; }
      }
      var raw := spooled.ReadFully(ENTRY_SIZE);
      assert SpooledAt(spool, index, entries[index]);
      r, imageState :=
        VerifyNext(h, image, imageState, UnpackEntry(raw), index, r.value, cancellable, entries, verdict);
      if r.Err? { return; }
      index := index + 1;
    }
  }

  method VerifyImage<S>(
    h: HashAlgorithm<S>, content: seq<byte>, spool: seq<byte>, count: nat, expectedImage: Digest, cancellable: bool)
    returns (r: Result<Verified, VerifyError>)
    requires Incremental(h) && |spool| == ENTRY_SIZE * count
    ensures
      || (cancellable && r == Err(Cancelled))
      || r == ImageOutcome(h, UnpackEntries(spool, count), content, expectedImage)
  {
    var image := new FileHandle(content);
    ghost var entries := UnpackEntries(spool, count);
    SpooledEntries(spool, count);
    ghost var verdict := CheckBlocks(h, entries, content, 1);
    assert entries[0..] == entries && content[0..] == content;
    var blocks, imageState := VerifyBlocks(h, image, spool, count, cancellable, entries, verdict);
    if blocks.Err? { return Err(blocks.error); }
    assert entries[count..] == [];
    var extra := image.Read(1);
    if extra != [] {
      return Err(ImageLargerThanChunklist);
    }
    Finish(h, imageState, content, 0, |content|);
    assert content[0..|content|] == content;
    if h.finish(imageState) != expectedImage {
      return Err(ImageChecksum);
    }
    r := Ok(Verified(count, blocks.value));
  }

  /** Copies the entries to the spool while hashing header and entries, as the signature covers both. */
  method SpoolEntries<S>(h: HashAlgorithm<S>, handle: FileHandle, header: seq<byte>, count: nat, cancellable: bool)
    returns (r: Result<Digest, VerifyError>, spool: seq<byte>)
    requires Incremental(h) && handle.Valid() && handle.position + ENTRY_SIZE * count <= |handle.content|
    modifies handle
    ensures handle.Valid()
    ensures r.Err? ==> cancellable && r == Err(Cancelled)
    ensures r.Ok? ==>
      && handle.position == old(handle.position) + ENTRY_SIZE * count
      && spool == handle.content[old(handle.position)..handle.position]
      && r.value == h.whole(header + spool)
  {
    ghost var content, from := handle.content, handle.position;
    AbsorbedInit(h);
    AbsorbedUpdate(h, h.init, [], header);
    assert [] + header == header + content[from..from];
    var digest := h.update(h.init, header);
    spool := [];
    var i := 0;
    while i < count
      invariant i <= count && handle.Valid() && handle.position == from + ENTRY_SIZE * i
      invariant spool == content[from..handle.position]
      invariant Absorbed(h, digest, header + content[from..handle.position])
    {
      if cancellable {
        var stop: bool := *;
        if stop { return Err(Cancelled), spool; }
      }
      ghost var at := handle.position;
      assert ENTRY_SIZE * (i + 1) <= ENTRY_SIZE * count;
      var entry := handle.ReadFully(ENTRY_SIZE);
      Extend(h, digest, header, content, from, at, handle.position);
      digest := h.update(digest, entry);
      spool := spool + entry;
      assert content[from..at] + content[at..handle.position] == content[from..handle.position];
      i := i + 1;
    }
    AbsorbedFinish(h, digest, header + spool);
    r := Ok(h.finish(digest));
  }

  /**
   * `verify_apple_chunklist`. Whatever the reads return, the result is `Outcome`, except that a
   * cancellable run may stop with `Cancelled`. The checks for truncated entries, a truncated
   * signature and trailing data need no error of their own: the size equations rule them out.
   */
  method Verify<S>(
    h: HashAlgorithm<S>, signatureValid: (Digest, seq<byte>) -> bool,
    image: seq<byte>, file: seq<byte>, expectedImage: Digest, expectedChunklist: Digest, cancellable: bool)
    returns (r: Result<Verified, VerifyError>)
    requires Incremental(h)
    ensures
      || r == Outcome(h, signatureValid, image, file, expectedImage, expectedChunklist)
      || (cancellable && r == Err(Cancelled))
  {
    if |file| > MAX_CHUNKLIST_BYTES {
      return Err(ChunklistTooLarge);
    }
    var fileDigest := HashFile(h, file, cancellable);
    if fileDigest.Err? { return Err(fileDigest.error); }
    if fileDigest.value != expectedChunklist { return Err(ChunklistChecksum); }

    var handle := new FileHandle(file);
    var header := handle.ReadFully(HEADER_SIZE);
    if |header| != HEADER_SIZE {
      return Err(Malformed(HeaderTruncated));
    }
    assert header == file[..HEADER_SIZE];
    var fields := UnpackHeader(header);
    var checked := CheckHeader(fields, |file|);
    if checked.Err? {
      return Err(Malformed(checked.error));
    }
    var signed, spool := SpoolEntries(h, handle, header, fields.count, cancellable);
    if signed.Err? { return Err(signed.error); }
    assert header + spool == file[..fields.signatureOffset];
    if fields.signatureMethod != 1 {
      return Err(Unsigned);
    }
    assert handle.position == fields.signatureOffset;
    var signature := handle.ReadFully(256);
    assert handle.position == |file|;
    assert file[fields.signatureOffset..|file|] == file[fields.signatureOffset..];
    if !signatureValid(signed.value, signature) {
      return Err(BadSignature);
    }
    r := VerifyImage(h, image, spool, fields.count, expectedImage, cancellable);
  }
}
