/**
 * An incremental hash in the manner of hashlib: a state is created, fed chunk by chunk and finished.
 * The algorithm itself is a parameter. What the callers rely on is `Incremental`: finishing a state
 * that has been fed any chunks yields the hash of their concatenation.
 */
module Hashing {
  import opened Common

  type Digest = seq<byte>

  datatype HashAlgorithm<!S> = HashAlgorithm(
    init: S,
    update: (S, seq<byte>) -> S,
    finish: S -> Digest,
    whole: seq<byte> -> Digest)

  ghost function Feed<S>(h: HashAlgorithm<S>, chunks: seq<seq<byte>>): S {
    if chunks == [] then h.init
    else h.update(Feed(h, chunks[..|chunks| - 1]), chunks[|chunks| - 1])
  }

  ghost function Flatten(chunks: seq<seq<byte>>): seq<byte> {
    if chunks == [] then []
    else Flatten(chunks[..|chunks| - 1]) + chunks[|chunks| - 1]
  }

  ghost predicate Incremental<S>(h: HashAlgorithm<S>) {
    forall chunks :: h.finish(Feed(h, chunks)) == h.whole(Flatten(chunks))
  }

  ghost predicate Injective<S>(h: HashAlgorithm<S>) {
    forall a, b :: h.whole(a) == h.whole(b) ==> a == b
  }

  /** `state` is what the hash object holds after reading exactly `data`, in whatever pieces. */
  ghost predicate Absorbed<S>(h: HashAlgorithm<S>, state: S, data: seq<byte>) {
    exists chunks :: state == Feed(h, chunks) && data == Flatten(chunks)
  }

  lemma AbsorbedInit<S>(h: HashAlgorithm<S>)
    ensures Absorbed(h, h.init, [])
  {
    assert Feed(h, []) == h.init && Flatten([]) == [];
  }

  lemma AbsorbedUpdate<S>(h: HashAlgorithm<S>, state: S, data: seq<byte>, chunk: seq<byte>)
    requires Absorbed(h, state, data)
    ensures Absorbed(h, h.update(state, chunk), data + chunk)
  {
    var chunks :| state == Feed(h, chunks) && data == Flatten(chunks);
    var more := chunks + [chunk];
    assert more[..|more| - 1] == chunks;
    assert Feed(h, more) == h.update(state, chunk) && Flatten(more) == data + chunk;
  }

  lemma AbsorbedFinish<S>(h: HashAlgorithm<S>, state: S, data: seq<byte>)
    requires Incremental(h) && Absorbed(h, state, data)
    ensures h.finish(state) == h.whole(data)
  {
  }

  /** A SHA-256 value as the program writes it: 64 hexadecimal digits, of either case. */
  predicate IsSha256(s: string) {
    |s| == 64 && forall c :: c in s ==> '0' <= c <= '9' || 'a' <= c <= 'f' || 'A' <= c <= 'F'
  }
}
