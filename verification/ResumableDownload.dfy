/**
 * One resumable Recovery download and what it leaves on disk. An attempt may fail or be stopped
 * anywhere; a stopped or failed write leaves a prefix of the chunk. The server's answer is arbitrary;
 * `Honest` singles out one that serves the true asset.
 */
module ResumableDownload {
  import opened Common
  import opened Hashing

  type Bytes = seq<byte>

  /** The resume metadata file: absent, unusable, or recording exactly this asset's digest and size. */
  datatype Metadata = Absent | Other | Matching

  datatype ContentLength = NoLength | BadLength | Length(value: int)

  /** `rangeStart` is the start of a well-formed Content-Range (section 14.4 of RFC 9110). */
  datatype Response = Response(status: int, rangeStart: Option<nat>, length: ContentLength, chunks: seq<Bytes>)

  /** `Failed` is a reported error other than a digest mismatch; `Stopped` a crash or an interrupt. */
  datatype Outcome = AlreadyPresent | Published | Mismatch | Failed | Stopped

  const PARTIAL_CONTENT := 206

  const BLOCK: nat := 1024 * 1024

  ghost function Body(response: Option<Response>): Bytes {
    if response.None? then [] else Flatten(response.value.chunks)
  }

  lemma {:induction false} FlattenGrows(chunks: seq<Bytes>, i: nat)
    requires i <= |chunks|
    ensures Flatten(chunks[..i]) <= Flatten(chunks)
    decreases |chunks|
  {
    if i < |chunks| {
      var front := chunks[..|chunks| - 1];
      FlattenGrows(front, i);
      assert front[..i] == chunks[..i];
    } else {
      assert chunks[..i] == chunks;
    }
  }

  lemma ChunkGrows(chunks: seq<Bytes>, i: nat)
    requires i < |chunks|
    ensures Flatten(chunks[..i + 1]) == Flatten(chunks[..i]) + chunks[i]
    ensures Flatten(chunks[..i]) + chunks[i] <= Flatten(chunks)
  {
    assert chunks[..i + 1][..i] == chunks[..i];
    FlattenGrows(chunks, i + 1);
  }

  lemma PrefixTransitive(a: Bytes, b: Bytes, c: Bytes)
    requires a <= b && b <= c
    ensures a <= c
  {
    assert b[..|a|] == a && c[..|b|][..|a|] == c[..|a|];
  }

  lemma PrefixUnder(base: Bytes, a: Bytes, b: Bytes)
    requires a <= b
    ensures base <= base + a <= base + b
  {
    assert (base + b)[..|base + a|] == base + b[..|a|];
  }

  lemma Between(base: Bytes, chunks: seq<Bytes>, i: nat)
    requires i <= |chunks|
    ensures base <= base + Flatten(chunks[..i]) <= base + Flatten(chunks)
  {
    FlattenGrows(chunks, i);
    PrefixUnder(base, Flatten(chunks[..i]), Flatten(chunks));
  }

  lemma StretchedWithin(base: Bytes, part: Bytes, chunk: Bytes, all: Bytes, after: Bytes)
    requires part + chunk <= all
    requires base + part <= after <= base + part + chunk
    ensures base <= after <= base + all
  {
    PrefixTransitive(base, base + part, after);
    PrefixUnder(base, part + chunk, all);
    assert base + part + chunk == base + (part + chunk);
    PrefixTransitive(after, base + (part + chunk), base + all);
  }

  lemma Associative(a: Bytes, b: Bytes, c: Bytes)
    ensures a + b + c == a + (b + c)
  {
  }

  lemma Appended(base: Bytes, chunks: seq<Bytes>, i: nat)
    requires i < |chunks|
    ensures base + Flatten(chunks[..i]) + chunks[i] == base + Flatten(chunks[..i + 1])
  {
    ChunkGrows(chunks, i);
    Associative(base, Flatten(chunks[..i]), chunks[i]);
  }

  /** The answer continues the part: the server honoured the range that was asked for. */
  predicate Resumes(existing: nat, r: Response) {
    existing > 0 && r.status == PARTIAL_CONTENT && r.rangeStart == Some(existing)
  }

  /** The server answered the range request, so the body continues what is there. */
  predicate Continues(existing: nat, r: Response) {
    existing > 0 && r.status == PARTIAL_CONTENT
  }

  /** The headers agree with what was asked for and with the declared size. */
  predicate HeadersAccepted(size: nat, existing: nat, r: Response) {
    && (Continues(existing, r) ==> r.rangeStart == Some(existing))
    && !r.length.BadLength?
    && (r.length.Length? ==> r.length.value == if Continues(existing, r) then size - existing else size)
  }

  /** The part after a complete transfer. */
  ghost function Received(start: Bytes, r: Response): Bytes {
    (if Continues(|start|, r) then start else []) + Flatten(r.chunks)
  }

  /** The answer brings the part to exactly the declared size. */
  ghost predicate Delivers(size: nat, start: Bytes, response: Option<Response>) {
    response.Some? && HeadersAccepted(size, |start|, response.value) && |Received(start, response.value)| == size
  }

  /** A complete answer of an honest server completes the asset. */
  lemma HonestAnswerCompletes(truth: Bytes, start: Bytes, response: Option<Response>)
    requires start <= truth && Honest(truth, |start|, response) && Delivers(|truth|, start, response)
    ensures Received(start, response.value) == truth
  {
    var r := response.value;
    assert Body(response) == Flatten(r.chunks);
    if Continues(|start|, r) {
      assert truth == start + truth[|start|..];
      assert Flatten(r.chunks) == truth[|start|..];
    }
  }

  /** An answer of the right content and with no wrong header is accepted. */
  lemma CorrectAnswerCompletes(truth: Bytes, start: Bytes, response: Option<Response>)
    ensures start <= truth && start != [] && response.Some? && SendsRest(truth, |start|, response.value)
            ==> Delivers(|truth|, start, response) && Received(start, response.value) == truth
    ensures response.Some? && SendsAll(truth, response.value) && (response.value.status != 206 || start == [])
            ==> Delivers(|truth|, start, response) && Received(start, response.value) == truth
  {
    if start <= truth { assert start + truth[|start|..] == truth; }
  }

  lemma WrongHeadersFail(size: nat, start: Bytes, response: Option<Response>)
    ensures response.None? || WrongHeaders(size, |start|, response.value) ==> !Delivers(size, start, response)
  {
  }

  /** A server of `truth`, asked for the bytes from `existing` on: what it labels is what it sends. */
  ghost predicate Honest(truth: Bytes, existing: nat, response: Option<Response>) {
    response.Some? ==>
      var r := response.value;
      if existing > 0 && r.status == PARTIAL_CONTENT
      then r.rangeStart.Some? ==> r.rangeStart.value <= |truth| && Body(response) <= truth[r.rangeStart.value..]
      else Body(response) <= truth
  }

  /** What may be in the part file after an attempt that found `before`, usable or not. */
  ghost predicate Retained(size: nat, before: Option<Bytes>, usable: bool, response: Option<Response>, after: Bytes) {
    && |after| <= size
    && (|| after <= Body(response)
        || (usable && before.Some? && response.Some? && Resumes(|before.value|, response.value)
            && before.value <= after <= before.value + Body(response)))
  }

  lemma PrefixOfTruth(truth: Bytes, before: Bytes, body: Bytes, after: Bytes)
    requires before <= truth && body <= truth[|before|..] && before <= after <= before + body
    ensures after <= truth
  {
    assert after == (before + body)[..|after|];
    assert truth == before + truth[|before|..];
    assert before + body <= before + truth[|before|..];
  }

  ghost predicate WasResumed(before: Bytes, response: Option<Response>, after: Bytes) {
    response.Some? && Resumes(|before|, response.value) && before <= after <= before + Body(response)
  }

  /** How a transfer can have changed an opened part. */
  ghost predicate Transferred(before: Bytes, response: Option<Response>, after: Bytes) {
    && (after == before || after <= Body(response) || WasResumed(before, response, after))
    && (response.Some? && |before| > 0 && response.value.status == PARTIAL_CONTENT
        ==> after == before || WasResumed(before, response, after))
  }

  lemma Continued(
    size: nat, before: Option<Bytes>, usable: bool, start: Bytes, response: Option<Response>, after: Bytes)
    requires usable ==> before.Some?
    requires start == if usable then before.value else []
    requires |after| <= size && Transferred(start, response, after)
    ensures Retained(size, before, usable, response, after) || before == Some(after)
  {
  }

  lemma HonestTransfer(truth: Bytes, before: Bytes, response: Option<Response>, after: Bytes)
    requires before <= truth && Honest(truth, |before|, response) && Transferred(before, response, after)
    ensures after <= truth
  {
    if after != before {
      if WasResumed(before, response, after) {
        PrefixOfTruth(truth, before, Body(response), after);
      } else if response.Some? {
        PrefixTransitive(after, Body(response), truth);
      }
    }
  }

  // Answers, by their literal content -------------------------------------------------------------

  /** A correct answer to a request for the bytes from `existing` on. */
  ghost predicate SendsRest(truth: Bytes, existing: nat, r: Response)
    requires existing <= |truth|
  {
    && r.status == 206 && r.rangeStart == Some(existing) && Flatten(r.chunks) == truth[existing..]
    && (r.length == NoLength || r.length == Length(|truth| - existing))
  }

  /** A correct answer with the whole asset. */
  ghost predicate SendsAll(truth: Bytes, r: Response) {
    Flatten(r.chunks) == truth && (r.length == NoLength || r.length == Length(|truth|))
  }

  /** Headers that are refused when `existing` bytes were there: a wrong range, or a wrong length. */
  predicate WrongHeaders(size: nat, existing: nat, r: Response) {
    || (existing > 0 && r.status == 206 && r.rangeStart != Some(existing))
    || r.length == BadLength
    || (existing > 0 && r.status == 206 && r.length.Length? && r.length.value != size - existing)
    || ((existing == 0 || r.status != 206) && r.length.Length? && r.length.value != size)
  }

  class Acquisition<!S> {
    const h: HashAlgorithm<S>
    const size: nat
    const digest: Digest
    var part: Option<Bytes>
    var metadata: Metadata
    var destination: Option<Bytes>

    constructor (h: HashAlgorithm<S>, size: nat, digest: Digest, part: Option<Bytes>, metadata: Metadata, destination: Option<Bytes>)
      ensures this.h == h && this.size == size && this.digest == digest
      ensures this.part == part && this.metadata == metadata && this.destination == destination
    {
      this.h, this.size, this.digest, this.part, this.metadata, this.destination := h, size, digest, part, metadata, destination;
    }

    /** Any check or file operation may fail, or be the last one before a crash, unless the run is `calm`. */
    method Disturb(calm: bool) returns (done: Option<Outcome>)
      ensures calm ==> done.None?
      ensures done.Some? ==> done.value in {Failed, Stopped}
    {
      if calm { return None; }
      if * { done := None; } else if * { done := Some(Failed); } else { done := Some(Stopped); }
    }

    /** The bytes are the declared asset. */
    ghost predicate Declared(bytes: Bytes) {
      |bytes| == size && h.whole(bytes) == digest
    }

    /** An attempt would continue this part file. */
    predicate Usable()
      reads this
    {
      metadata == Matching && part.Some? && |part.value| <= size
    }

    /** The part file, as far as its metadata vouches for it, is the beginning of `truth`. */
    ghost predicate HoldsPrefix(truth: Bytes)
      reads this
    {
      metadata == Matching && part.Some? ==> part.value <= truth
    }

    /** Hashing a file block by block; no result if the deadline passes meanwhile. */
    method HashBytes(bytes: Bytes, calm: bool) returns (state: Option<S>)
      ensures state.Some? ==> Absorbed(h, state.value, bytes)
      ensures calm ==> state.Some?
    {
      var st, i := h.init, 0;
      AbsorbedInit(h);
      while i < |bytes|
        invariant 0 <= i <= |bytes| && Absorbed(h, st, bytes[..i])
      {
        var done := Disturb(calm);
        if done.Some? { return None; }
        var next := if i + BLOCK <= |bytes| then i + BLOCK else |bytes|;
        AbsorbedUpdate(h, st, bytes[..i], bytes[i..next]);
        assert bytes[..i] + bytes[i..next] == bytes[..next];
        st, i := h.update(st, bytes[i..next]), next;
      }
      assert bytes[..i] == bytes;
      state := Some(st);
    }

    /** A destination that already is the asset ends the attempt; any other one is removed. */
    method KeepOrRemoveDestination(calm: bool) returns (done: Option<Outcome>)
      requires Incremental(h)
      modifies this`destination
      ensures done == Some(AlreadyPresent) ==> destination.Some? && Declared(destination.value)
      ensures done.None? ==> destination.None? && (old(destination).Some? ==> !Declared(old(destination).value))
      ensures done.Some? ==> done.value in {AlreadyPresent, Failed, Stopped} && destination == old(destination)
      ensures calm ==> done.None? || done == Some(AlreadyPresent)
    {
      if destination.None? { return None; }
      if |destination.value| == size {
        var state := HashBytes(destination.value, calm);
        if state.None? { return Some(Failed); }
        AbsorbedFinish(h, state.value, destination.value);
        if h.finish(state.value) == digest { return Some(AlreadyPresent); }
      }
      done := Disturb(calm);
      if done.Some? { return; }
      destination := None;
    }

    /**
     * Opens the resume files. Afterwards the part is the prior one if that was usable, else empty;
     * whenever the attempt ends before, nothing unvouched stands beside matching metadata.
     */
    method OpenResumeFiles(calm: bool) returns (done: Option<Outcome>)
      modifies this`part, this`metadata
      ensures done.None? ==> metadata == Matching && part == if old(Usable()) then old(part) else Some([])
      ensures done.Some? ==> done.value in {Failed, Stopped}
      ensures done.Some? ==> (part == old(part) && metadata == old(metadata)) || part.None? || part == Some([])
      ensures calm ==> done.None?
    {
      done := Disturb(calm);
      if done.Some? { return; }
      if metadata != Matching {
        part := None;
        done := Disturb(calm);
        if done.Some? { return; }
        metadata := Absent;
        done := Disturb(calm);
        if done.Some? { return; }
        metadata := Other;  // created, or cut short while being written
        done := Disturb(calm);
        if done.Some? { return; }
        metadata := Matching;
        done := Disturb(calm);
        if done.Some? { return; }
      }
      if part.None? { part := Some([]); }
      if |part.value| > size {
        part := None;
        done := Disturb(calm);
        if done.Some? { return; }
        part := Some([]);
      }
    }

    /** Accepts, hashes and writes one chunk; a chunk past the declared size is never written. */
    method WriteChunk(chunk: Bytes, state: S, calm: bool) returns (done: Option<Outcome>, state': S)
      requires part.Some? && |part.value| <= size && Absorbed(h, state, part.value)
      modifies this`part
      ensures part.Some? && |part.value| <= size && old(part).value <= part.value <= old(part).value + chunk
      ensures done.None? ==> part.value == old(part).value + chunk && Absorbed(h, state', part.value)
      ensures done.Some? ==> done.value in {Failed, Stopped}
      ensures calm ==> done == if |old(part).value| + |chunk| <= size then None else Some(Failed)
    {
      if |part.value| + |chunk| > size { return Some(Failed), state; }
      AbsorbedUpdate(h, state, part.value, chunk);
      state' := h.update(state, chunk);
      done := Disturb(calm);
      if done.Some? {
        var written: nat :| written <= |chunk|;
        part := Some(part.value + chunk[..written]);
        return;
      }
      part := Some(part.value + chunk);
    }

    /** Appends the body to the part. Ends with the running hash of exactly what is on disk, or early. */
    method Receive(chunks: seq<Bytes>, start: S, calm: bool) returns (done: Option<Outcome>, state: S)
      requires part.Some? && |part.value| <= size && Absorbed(h, start, part.value)
      modifies this`part
      ensures part.Some? && |part.value| <= size
      ensures old(part).value <= part.value <= old(part).value + Flatten(chunks)
      ensures done.None? ==> part.value == old(part).value + Flatten(chunks) && Absorbed(h, state, part.value)
      ensures done.Some? ==> done.value in {Failed, Stopped}
      ensures calm ==> done == if |old(part).value| + |Flatten(chunks)| <= size then None else Some(Failed)
    {
      ghost var base := part.value;
      var i := 0;
      state := start;
      while i < |chunks|
        invariant 0 <= i <= |chunks| && part.Some? && |part.value| <= size
        invariant part.value == base + Flatten(chunks[..i])
        invariant Absorbed(h, state, part.value)
      {
        ChunkGrows(chunks, i);
        Between(base, chunks, i);
        Appended(base, chunks, i);
        done := Disturb(calm);
        if done.Some? { return; }
        done, state := WriteChunk(chunks[i], state, calm);
        StretchedWithin(base, Flatten(chunks[..i]), chunks[i], Flatten(chunks), part.value);
        if done.Some? { return; }
        i := i + 1;
      }
      assert chunks[..i] == chunks;
      done := None;
    }

    /** From the response headers to the last byte written. */
    method Transfer(response: Option<Response>, existing: S, calm: bool) returns (done: Option<Outcome>, state: S)
      requires part.Some? && |part.value| <= size && Absorbed(h, existing, part.value)
      modifies this`part
      ensures part.Some? && |part.value| <= size
      ensures Transferred(old(part).value, response, part.value)
      ensures done.None? ==> response.Some? && HeadersAccepted(size, |old(part).value|, response.value)
                             && part.value == Received(old(part).value, response.value) && Absorbed(h, state, part.value)
      ensures done.Some? ==> done.value in {Failed, Stopped}
      ensures calm && done.Some? ==>
                done == Some(Failed) && !Delivers(size, old(part).value, response)
    {
      state := existing;
      done := Disturb(calm);
      if done.Some? { return; }
      if response.None? { return Some(Failed), state; }
      var r := response.value;
      var existingSize := |part.value|;
      var resumed := existingSize > 0 && r.status == PARTIAL_CONTENT;
      if resumed && r.rangeStart != Some(existingSize) { return Some(Failed), state; }
      if r.length.BadLength? { return Some(Failed), state; }
      var expected := if resumed then size - existingSize else size;
      if r.length.Length? && r.length.value != expected { return Some(Failed), state; }
      if !resumed {
        done := Disturb(calm);
        if done.Some? { return; }
        part := Some([]);
        state := h.init;
        AbsorbedInit(h);
      }
      done, state := Receive(r.chunks, state, calm);
      assert !resumed ==> [] + Flatten(r.chunks) == Flatten(r.chunks);
    }

    /** Size and digest checks, then publication by rename. */
    method PublishVerified(state: S, calm: bool) returns (outcome: Outcome)
      requires Incremental(h) && part.Some? && |part.value| <= size && Absorbed(h, state, part.value)
      requires destination.None? && metadata == Matching
      modifies this
      ensures outcome in {Published, Mismatch, Failed, Stopped}
      ensures destination.Some? ==> destination == old(part) && Declared(destination.value) && part.None?
      ensures outcome == Published ==> destination.Some? && part.None? && metadata == Absent
      ensures outcome == Mismatch ==> part.None? && metadata == Absent && |old(part).value| == size && h.whole(old(part).value) != digest
      ensures part.None? || (part == old(part) && metadata == old(metadata))
      ensures calm ==> outcome == if |old(part).value| != size then Failed
                                  else if h.whole(old(part).value) == digest then Published else Mismatch
      ensures calm && outcome == Failed ==> part == old(part) && metadata == old(metadata)
    {
      if |part.value| != size { return Failed; }
      AbsorbedFinish(h, state, part.value);
      var done := Disturb(calm);
      if done.Some? { return done.value; }
      if h.finish(state) != digest {
        part := None;
        done := Disturb(calm);
        if done.Some? { return Stopped; }
        metadata := Absent;
        return Mismatch;
      }
      destination, part := part, None;
      done := Disturb(calm);
      if done.Some? { return done.value; }
      metadata := Absent;
      outcome := Published;
    }

    /** The size of the part the attempt will ask the server to continue. */
    function Offset(): nat
      reads this
    {
      if Usable() then |part.value| else 0
    }

    /** What the attempt will continue: the usable part, or nothing. */
    ghost function Start(): Bytes
      reads this
    {
      if Usable() then part.value else []
    }

    /** Hashes the opened part and lets the transfer continue or replace it. */
    method Download(response: Option<Response>, calm: bool) returns (done: Option<Outcome>, state: S)
      requires part.Some? && |part.value| <= size
      modifies this`part
      ensures part.Some? && |part.value| <= size && Transferred(old(part).value, response, part.value)
      ensures done.None? ==> response.Some? && HeadersAccepted(size, |old(part).value|, response.value)
                             && part.value == Received(old(part).value, response.value) && Absorbed(h, state, part.value)
      ensures done.Some? ==> done.value in {Failed, Stopped}
      ensures calm && done.Some? ==>
                done == Some(Failed) && !Delivers(size, old(part).value, response)
    {
      var existing := HashBytes(part.value, calm);
      if existing.None? { return Some(Failed), h.init; }
      done, state := Transfer(response, existing.value, calm);
    }

    /** How a calm attempt ends that continues `start`. */
    ghost function Verdict(start: Bytes, response: Option<Response>): Outcome {
      if !Delivers(size, start, response) then Failed
      else if h.whole(Received(start, response.value)) == digest then Published
      else Mismatch
    }

    /** An attempt from its opened files on. */
    method Fetch(response: Option<Response>, calm: bool, ghost truth: Bytes) returns (outcome: Outcome)
      requires Incremental(h) && part.Some? && |part.value| <= size
      requires destination.None? && metadata == Matching
      modifies this
      ensures outcome in {Published, Mismatch, Failed, Stopped}
      ensures destination.Some? ==> Declared(destination.value)
      ensures outcome in {Published, Mismatch} ==> part.None? && metadata == Absent
      ensures outcome == Published ==> response.Some? && destination == Some(Received(old(part).value, response.value))
      ensures part.Some? ==> metadata == Matching && |part.value| <= size && Transferred(old(part).value, response, part.value)
      ensures Declared(truth) && old(part).value <= truth && Honest(truth, |old(part).value|, response)
              ==> (part.Some? ==> part.value <= truth) && outcome != Mismatch
      ensures calm ==> outcome == Verdict(old(part).value, response)
    {
      var done, state := Download(response, calm);
      ghost var received := part.value;
      if Declared(truth) && old(part).value <= truth && Honest(truth, |old(part).value|, response) {
        HonestTransfer(truth, old(part).value, response, received);
      }
      if done.Some? { return done.value; }
      outcome := PublishVerified(state, calm);
      assert received <= truth && |received| == |truth| ==> received == truth;
    }

    ghost predicate HasDeclared()
      reads this
    {
      destination.Some? && Declared(destination.value)
    }

    /** How a calm attempt ends. */
    ghost function CalmOutcome(response: Option<Response>): Outcome
      reads this
    {
      if destination.Some? && Declared(destination.value) then AlreadyPresent else Verdict(Start(), response)
    }

    /**
     * One attempt. `truth` is any candidate for the true asset: an honest server of it keeps the part
     * a prefix of it through every failure, and can never cause a digest mismatch. A calm attempt is
     * determined by what it found and what the server answered.
     */
    method Attempt(response: Option<Response>, calm: bool, ghost truth: Bytes) returns (outcome: Outcome)
      requires Incremental(h)
      modifies this
      ensures outcome in {AlreadyPresent, Published} ==> destination.Some? && Declared(destination.value)
      ensures destination.Some? ==> destination == old(destination) || Declared(destination.value)
      ensures old(destination).Some? && Declared(old(destination).value) ==> destination == old(destination)
      ensures outcome in {Published, Mismatch} ==> part.None? && metadata == Absent
      ensures outcome == Published ==> response.Some? && destination == Some(Received(old(Start()), response.value))
      ensures part.None? || (part == old(part) && metadata == old(metadata))
              || Retained(size, old(part), old(Usable()), response, part.value)
      ensures Declared(truth) && old(HoldsPrefix(truth)) && Honest(truth, old(Offset()), response)
              ==> HoldsPrefix(truth) && outcome != Mismatch
      ensures calm ==> outcome == old(CalmOutcome(response))
      ensures var vouched := old(metadata == Matching && part.Some? && |part.value| <= size);
              var existing := if vouched then |old(part).value| else 0;
              calm && !old(HasDeclared()) ==>
                && (Declared(truth) && existing > 0 && old(part).value <= truth && response.Some? && SendsRest(truth, existing, response.value)
                    ==> outcome == Published && destination == Some(truth))
                && (Declared(truth) && response.Some? && SendsAll(truth, response.value) && (response.value.status != 206 || existing == 0)
                    ==> outcome == Published && destination == Some(truth))
                && (response.None? || WrongHeaders(size, existing, response.value) ==> outcome == Failed)
      ensures calm && old(HasDeclared()) ==> outcome == AlreadyPresent
    {
      var done := Disturb(calm);
      if done.Some? { return done.value; }
      done := KeepOrRemoveDestination(calm);
      if done.Some? { return done.value; }
      done := OpenResumeFiles(calm);
      if done.Some? { return done.value; }
      ghost var start := part.value;
      outcome := Fetch(response, calm, truth);
      CorrectAnswerCompletes(truth, start, response);
      WrongHeadersFail(size, start, response);
      if part.Some? {
        Continued(size, old(part), old(Usable()), start, response, part.value);
      }
    }

    /**
     * Any number of attempts, each answered by its own server, which is told where to continue. The
     * guarantees of one attempt carry over: only the declared asset is ever published and a declared one
     * is kept, a part that any attempt wrote is within the declared size, and with servers that serve
     * the asset the part stays a prefix of it and no attempt ends in a mismatch.
     */
    method AttemptRepeatedly(servers: seq<nat -> Option<Response>>, calm: bool, ghost truth: Bytes)
      returns (outcomes: seq<Outcome>)
      requires Incremental(h)
      modifies this
      ensures |outcomes| <= |servers|
      ensures (exists i :: 0 <= i < |outcomes| && Succeeded(outcomes[i])) ==> destination.Some? && Declared(destination.value)
      ensures |outcomes| < |servers| ==> outcomes != [] && Succeeded(outcomes[|outcomes| - 1])
      ensures destination.Some? ==> destination == old(destination) || Declared(destination.value)
      ensures old(destination).Some? && Declared(old(destination).value) ==> destination == old(destination)
      ensures part.None? || (part == old(part) && metadata == old(metadata)) || |part.value| <= size
      ensures Declared(truth) && old(HoldsPrefix(truth)) && AllHonest(truth, servers) ==> HoldsPrefix(truth) && Mismatch !in outcomes
    {
      outcomes := [];
      while |outcomes| < |servers| && (outcomes == [] || !Succeeded(outcomes[|outcomes| - 1]))
        invariant |outcomes| <= |servers|
        invariant forall i :: 0 <= i < |outcomes| - 1 ==> !Succeeded(outcomes[i])
        invariant outcomes != [] && Succeeded(outcomes[|outcomes| - 1]) ==> destination.Some? && Declared(destination.value)
        invariant destination.Some? ==> destination == old(destination) || Declared(destination.value)
        invariant old(destination).Some? && Declared(old(destination).value) ==> destination == old(destination)
        invariant part.None? || (part == old(part) && metadata == old(metadata)) || |part.value| <= size
        invariant Declared(truth) && old(HoldsPrefix(truth)) && AllHonest(truth, servers) ==> HoldsPrefix(truth) && Mismatch !in outcomes
      {
        var outcome := Attempt(servers[|outcomes|](Offset()), calm, truth);
        outcomes := outcomes + [outcome];
      }
    }
  }

  predicate Succeeded(outcome: Outcome) {
    outcome.AlreadyPresent? || outcome.Published?
  }

  ghost predicate AllHonest(truth: Bytes, servers: seq<nat -> Option<Response>>) {
    forall i, n :: 0 <= i < |servers| ==> Honest(truth, n, servers[i](n))
  }
}
