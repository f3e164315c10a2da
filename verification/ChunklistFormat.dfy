/**
 * The binary layout of an Apple CNKL chunklist: a 36-byte little-endian header, `count` entries of
 * 36 bytes (a 32-bit size and a SHA-256 digest) and a signature. `Parse` applies the structural
 * checks in the order of the verifier; `Encode` is its partner.
 */
module ChunklistFormat {
  import opened Common
  import opened Hashing

  const HEADER_SIZE := 36
  const ENTRY_SIZE := 36
  const MAX_CHUNKS := 2_000_000
  const MAX_CHUNKLIST_BYTES := 32 * 1024 * 1024
  const MAGIC: seq<byte> := [0x43, 0x4E, 0x4B, 0x4C]  // "CNKL"

  // Little-endian integers ------------------------------------------------------------------------

  function Pow256(n: nat): (p: nat)
    ensures p > 0
  {
    if n == 0 then 1 else 256 * Pow256(n - 1)
  }

  function DecodeLE(bs: seq<byte>): (n: nat) {
    if bs == [] then 0 else bs[0] + 256 * DecodeLE(bs[1..])
  }

  function EncodeLE(n: nat, width: nat): (bs: seq<byte>)
    ensures |bs| == width
  {
    if width == 0 then [] else [n % 256] + EncodeLE(n / 256, width - 1)
  }

  lemma {:induction false} DecodeBound(bs: seq<byte>)
    ensures DecodeLE(bs) < Pow256(|bs|)
  {
    if bs != [] { DecodeBound(bs[1..]); }
  }

  lemma {:induction false} DecodeEncode(n: nat, width: nat)
    requires n < Pow256(width)
    ensures DecodeLE(EncodeLE(n, width)) == n
  {
    if width > 0 {
      DecodeEncode(n / 256, width - 1);
      assert EncodeLE(n, width)[1..] == EncodeLE(n / 256, width - 1);
    }
  }

  lemma {:induction false} EncodeDecode(bs: seq<byte>)
    ensures EncodeLE(DecodeLE(bs), |bs|) == bs
  {
    if bs != [] {
      EncodeDecode(bs[1..]);
      assert bs == [bs[0]] + bs[1..];
    }
  }

  lemma Widths()
    ensures Pow256(4) == 0x1_0000_0000
    ensures Pow256(8) == 0x1_0000_0000_0000_0000
  {
    assert Pow256(2) == 0x1_0000;
    assert Pow256(4) == 0x1_0000_0000;
    assert Pow256(6) == 0x1_0000_0000_0000;
  }

  // Header and entries ----------------------------------------------------------------------------

  datatype Header = Header(
    magic: seq<byte>, headerSize: nat, fileVersion: nat, chunkMethod: nat, signatureMethod: nat,
    count: nat, offset: nat, signatureOffset: nat)

  datatype Entry = Entry(size: nat, digest: Digest)

  /** "<4sIBBBxQQQ"; the byte at offset 11 is padding and is not looked at. */
  function UnpackHeader(bs: seq<byte>): Header
    requires |bs| == HEADER_SIZE
  {
    Header(bs[..4], DecodeLE(bs[4..8]), bs[8], bs[9], bs[10],
           DecodeLE(bs[12..20]), DecodeLE(bs[20..28]), DecodeLE(bs[28..36]))
  }

  ghost predicate HeaderFits(h: Header) {
    && |h.magic| == 4 && h.headerSize < Pow256(4)
    && h.fileVersion < 256 && h.chunkMethod < 256 && h.signatureMethod < 256
    && h.count < Pow256(8) && h.offset < Pow256(8) && h.signatureOffset < Pow256(8)
  }

  function PackHeader(h: Header, pad: byte): (bs: seq<byte>)
    requires |h.magic| == 4 && h.fileVersion < 256 && h.chunkMethod < 256 && h.signatureMethod < 256
    ensures |bs| == HEADER_SIZE
  {
    h.magic + EncodeLE(h.headerSize, 4) + [h.fileVersion, h.chunkMethod, h.signatureMethod, pad]
    + EncodeLE(h.count, 8) + EncodeLE(h.offset, 8) + EncodeLE(h.signatureOffset, 8)
  }

  lemma Middle(before: seq<byte>, middle: seq<byte>, after: seq<byte>)
    ensures (before + middle + after)[|before|..|before| + |middle|] == middle
  {
  }

  lemma PackedFields(h: Header, pad: byte)
    requires HeaderFits(h)
    ensures var bs := PackHeader(h, pad);
            && bs[4..8] == EncodeLE(h.headerSize, 4) && bs[12..20] == EncodeLE(h.count, 8)
            && bs[20..28] == EncodeLE(h.offset, 8) && bs[28..36] == EncodeLE(h.signatureOffset, 8)
            && bs[..4] == h.magic && bs[8..12] == [h.fileVersion, h.chunkMethod, h.signatureMethod, pad]
  {
    var bs := PackHeader(h, pad);
    var size, flags := EncodeLE(h.headerSize, 4), [h.fileVersion, h.chunkMethod, h.signatureMethod, pad];
    var count, offset, signature := EncodeLE(h.count, 8), EncodeLE(h.offset, 8), EncodeLE(h.signatureOffset, 8);
    var head := h.magic + size + flags;
    assert bs == head + count + (offset + signature);
    Middle(head, count, offset + signature);
    Middle(head + count, offset, signature);
    Middle(head + count + offset, signature, []);
    assert bs == h.magic + size + (flags + count + offset + signature);
    Middle(h.magic, size, flags + count + offset + signature);
    assert bs == h.magic + size + flags + (count + offset + signature);
    Middle(h.magic + size, flags, count + offset + signature);
  }

  lemma UnpackPack(h: Header, pad: byte)
    requires HeaderFits(h)
    ensures UnpackHeader(PackHeader(h, pad)) == h
    ensures PackHeader(h, pad)[11] == pad
  {
    PackedFields(h, pad);
    var flags := PackHeader(h, pad)[8..12];
    assert flags[0] == h.fileVersion && flags[1] == h.chunkMethod && flags[2] == h.signatureMethod && flags[3] == pad;
    DecodeEncode(h.headerSize, 4);
    DecodeEncode(h.count, 8);
    DecodeEncode(h.offset, 8);
    DecodeEncode(h.signatureOffset, 8);
  }

  lemma PackUnpack(bs: seq<byte>)
    requires |bs| == HEADER_SIZE
    ensures HeaderFits(UnpackHeader(bs))
    ensures PackHeader(UnpackHeader(bs), bs[11]) == bs
  {
    DecodeBound(bs[4..8]);
    DecodeBound(bs[12..20]);
    DecodeBound(bs[20..28]);
    DecodeBound(bs[28..36]);
    EncodeDecode(bs[4..8]);
    EncodeDecode(bs[12..20]);
    EncodeDecode(bs[20..28]);
    EncodeDecode(bs[28..36]);
    assert bs == bs[..4] + bs[4..8] + [bs[8], bs[9], bs[10], bs[11]] + bs[12..20] + bs[20..28] + bs[28..36];
  }

  function UnpackEntry(bs: seq<byte>): (e: Entry)
    requires |bs| == ENTRY_SIZE
    ensures |e.digest| == 32
  {
    Entry(DecodeLE(bs[..4]), bs[4..])
  }

  ghost predicate EntryFits(e: Entry) {
    e.size < Pow256(4) && |e.digest| == 32
  }

  function PackEntry(e: Entry): (bs: seq<byte>)
    requires |e.digest| == 32
    ensures |bs| == ENTRY_SIZE
  {
    EncodeLE(e.size, 4) + e.digest
  }

  lemma UnpackPackEntry(e: Entry)
    requires EntryFits(e)
    ensures UnpackEntry(PackEntry(e)) == e
  {
    var bs := PackEntry(e);
    assert bs[..4] == EncodeLE(e.size, 4) && bs[4..] == e.digest;
    DecodeEncode(e.size, 4);
  }

  lemma PackUnpackEntry(bs: seq<byte>)
    requires |bs| == ENTRY_SIZE
    ensures EntryFits(UnpackEntry(bs)) && PackEntry(UnpackEntry(bs)) == bs
  {
    DecodeBound(bs[..4]);
    EncodeDecode(bs[..4]);
    assert bs == bs[..4] + bs[4..];
  }

  function UnpackEntries(bs: seq<byte>, count: nat): (es: seq<Entry>)
    requires |bs| == ENTRY_SIZE * count
    ensures |es| == count
    ensures forall i :: 0 <= i < count ==> |es[i].digest| == 32
  {
    if count == 0 then [] else [UnpackEntry(bs[..ENTRY_SIZE])] + UnpackEntries(bs[ENTRY_SIZE..], count - 1)
  }

  ghost predicate EntriesFit(es: seq<Entry>) {
    forall i :: 0 <= i < |es| ==> EntryFits(es[i])
  }

  function PackEntries(es: seq<Entry>): (bs: seq<byte>)
    requires forall i :: 0 <= i < |es| ==> |es[i].digest| == 32
    ensures |bs| == ENTRY_SIZE * |es|
  {
    if es == [] then [] else PackEntry(es[0]) + PackEntries(es[1..])
  }

  lemma {:induction false} UnpackPackEntries(es: seq<Entry>)
    requires EntriesFit(es)
    ensures UnpackEntries(PackEntries(es), |es|) == es
  {
    if es != [] {
      UnpackPackEntry(es[0]);
      UnpackPackEntries(es[1..]);
      var bs := PackEntries(es);
      assert bs[..ENTRY_SIZE] == PackEntry(es[0]) && bs[ENTRY_SIZE..] == PackEntries(es[1..]);
    }
  }

  lemma {:induction false} PackUnpackEntries(bs: seq<byte>, count: nat)
    requires |bs| == ENTRY_SIZE * count
    ensures EntriesFit(UnpackEntries(bs, count))
    ensures PackEntries(UnpackEntries(bs, count)) == bs
  {
    if count > 0 {
      PackUnpackEntry(bs[..ENTRY_SIZE]);
      PackUnpackEntries(bs[ENTRY_SIZE..], count - 1);
      var es := UnpackEntries(bs, count);
      assert es[1..] == UnpackEntries(bs[ENTRY_SIZE..], count - 1);
      assert bs == bs[..ENTRY_SIZE] + bs[ENTRY_SIZE..];
    }
  }

  // Whole files -----------------------------------------------------------------------------------

  datatype ParseError =
    | HeaderTruncated
    | UnsupportedFormat
    | BadCountOrOffset
    | BadSignatureOffset
    | UnsupportedSignatureMethod
    | UnexpectedSize

  /** What a structurally accepted file says. */
  datatype Chunklist = Chunklist(signatureMethod: nat, entries: seq<Entry>, signature: seq<byte>)

  function SignatureLength(signatureMethod: nat): Option<nat> {
    if signatureMethod == 1 then Some(256) else if signatureMethod == 2 then Some(32) else None
  }

  function CheckHeader(h: Header, fileSize: nat): Result<nat, ParseError> {
    if h.magic != MAGIC || h.headerSize != HEADER_SIZE || h.fileVersion != 1 || h.chunkMethod != 1 then
      Err(UnsupportedFormat)
    else if h.count <= 0 || h.count > MAX_CHUNKS || h.offset != HEADER_SIZE then
      Err(BadCountOrOffset)
    else if h.signatureOffset != h.offset + ENTRY_SIZE * h.count then
      Err(BadSignatureOffset)
    else match SignatureLength(h.signatureMethod)
      case None => Err(UnsupportedSignatureMethod)
      case Some(length) =>
        if fileSize != h.signatureOffset + length then Err(UnexpectedSize) else Ok(length)
  }

  function Parse(file: seq<byte>): Result<Chunklist, ParseError> {
    if |file| < HEADER_SIZE then
      Err(HeaderTruncated)
    else
      var h := UnpackHeader(file[..HEADER_SIZE]);
      match CheckHeader(h, |file|)
      case Err(e) => Err(e)
      case Ok(length) =>
        Ok(Chunklist(h.signatureMethod,
                     UnpackEntries(file[HEADER_SIZE..h.signatureOffset], h.count),
                     file[h.signatureOffset..]))
  }

  ghost predicate WellFormed(c: Chunklist) {
    && 0 < |c.entries| <= MAX_CHUNKS
    && EntriesFit(c.entries)
    && SignatureLength(c.signatureMethod) == Some(|c.signature|)
  }

  function HeaderOf(c: Chunklist): (h: Header)
    ensures |h.magic| == 4
  {
    Header(MAGIC, HEADER_SIZE, 1, 1, c.signatureMethod, |c.entries|, HEADER_SIZE,
           HEADER_SIZE + ENTRY_SIZE * |c.entries|)
  }

  /** The part of the file that the signature covers. */
  function EncodeSigned(c: Chunklist, pad: byte): (bs: seq<byte>)
    requires c.signatureMethod < 256
    requires forall i :: 0 <= i < |c.entries| ==> |c.entries[i].digest| == 32
    ensures |bs| == HEADER_SIZE + ENTRY_SIZE * |c.entries|
  {
    PackHeader(HeaderOf(c), pad) + PackEntries(c.entries)
  }

  function Encode(c: Chunklist, pad: byte): seq<byte>
    requires c.signatureMethod < 256
    requires forall i :: 0 <= i < |c.entries| ==> |c.entries[i].digest| == 32
  {
    EncodeSigned(c, pad) + c.signature
  }

  /** Writing a chunklist and parsing it gives the chunklist back, whatever the pad byte. */
  lemma ParseEncode(c: Chunklist, pad: byte)
    requires WellFormed(c)
    ensures Parse(Encode(c, pad)) == Ok(c)
  {
    var h := HeaderOf(c);
    var file := Encode(c, pad);
    Widths();
    UnpackPack(h, pad);
    UnpackPackEntries(c.entries);
    assert file[..HEADER_SIZE] == PackHeader(h, pad);
    assert file[HEADER_SIZE..h.signatureOffset] == PackEntries(c.entries);
    assert file[h.signatureOffset..] == c.signature;
  }

  lemma ParseShape(file: seq<byte>) returns (h: Header)
    requires Parse(file).Ok?
    ensures |file| >= HEADER_SIZE && h == UnpackHeader(file[..HEADER_SIZE])
    ensures h.signatureOffset == HEADER_SIZE + ENTRY_SIZE * h.count
    ensures 0 < h.count <= MAX_CHUNKS
    ensures h.signatureMethod == 1 || h.signatureMethod == 2
    ensures |file| == h.signatureOffset + (if h.signatureMethod == 1 then 256 else 32)
    ensures Parse(file).value == Chunklist(h.signatureMethod,
      UnpackEntries(file[HEADER_SIZE..h.signatureOffset], h.count), file[h.signatureOffset..])
    ensures HeaderOf(Parse(file).value) == h
  {
    h := UnpackHeader(file[..HEADER_SIZE]);
    assert CheckHeader(h, |file|).Ok?;
  }

  lemma EntriesOfBody(body: seq<byte>, count: nat)
    requires |body| == ENTRY_SIZE * count
    ensures EntriesFit(UnpackEntries(body, count)) && |UnpackEntries(body, count)| == count
    ensures PackEntries(UnpackEntries(body, count)) == body
  {
    PackUnpackEntries(body, count);
  }

  lemma HeadOfFile(file: seq<byte>)
    requires |file| >= HEADER_SIZE
    ensures PackHeader(UnpackHeader(file[..HEADER_SIZE]), file[11]) == file[..HEADER_SIZE]
  {
    PackUnpack(file[..HEADER_SIZE]);
    assert file[..HEADER_SIZE][11] == file[11];
  }

  lemma ThreeParts(file: seq<byte>, i: nat, j: nat)
    requires i <= j <= |file|
    ensures file[..i] + file[i..j] + file[j..] == file
  {
  }

  /** Every accepted file is the encoding of what was parsed from it, pad byte included. */
  lemma EncodeParse(file: seq<byte>)
    requires Parse(file).Ok?
    ensures WellFormed(Parse(file).value)
    ensures Encode(Parse(file).value, file[11]) == file
  {
    var h := ParseShape(file);
    EntriesOfBody(file[HEADER_SIZE..h.signatureOffset], h.count);
    HeadOfFile(file);
    ThreeParts(file, HEADER_SIZE, h.signatureOffset);
  }

  /** Two accepted files say the same exactly when they differ at most in the pad byte. */
  lemma ParseIgnoresOnlyPad(file: seq<byte>, other: seq<byte>)
    requires Parse(file).Ok? && Parse(other).Ok?
    ensures |file| > 11 && |other| > 11
    ensures Parse(file) == Parse(other) <==> file[11 := 0] == other[11 := 0]
  {
    EncodeParse(file);
    EncodeParse(other);
    var c, d := Parse(file).value, Parse(other).value;
    RepadFile(c, file[11]);
    RepadFile(d, other[11]);
    ParseEncode(c, 0);
    ParseEncode(d, 0);
  }

  lemma RepadHeader(h: Header, pad: byte)
    requires |h.magic| == 4 && h.fileVersion < 256 && h.chunkMethod < 256 && h.signatureMethod < 256
    ensures PackHeader(h, pad)[11 := 0] == PackHeader(h, 0)
  {
    var front := h.magic + EncodeLE(h.headerSize, 4) + [h.fileVersion, h.chunkMethod, h.signatureMethod];
    var back := EncodeLE(h.count, 8) + EncodeLE(h.offset, 8) + EncodeLE(h.signatureOffset, 8);
    assert |front| == 11;
    assert PackHeader(h, pad) == front + [pad] + back;
    assert PackHeader(h, 0) == front + [0] + back;
  }

  lemma UpdateInFront(front: seq<byte>, back: seq<byte>, i: nat, b: byte)
    requires i < |front|
    ensures (front + back)[i := b] == front[i := b] + back
  {
  }

  lemma RepadFile(c: Chunklist, pad: byte)
    requires WellFormed(c)
    ensures Encode(c, pad)[11 := 0] == Encode(c, 0)
  {
    RepadHeader(HeaderOf(c), pad);
    UpdateInFront(PackHeader(HeaderOf(c), pad), PackEntries(c.entries), 11, 0);
    UpdateInFront(EncodeSigned(c, pad), c.signature, 11, 0);
  }

  /**
   * Under the 32 MiB file limit the size equations bind long before the declared chunk limit:
   * 932,059 chunks for the signed form, 932,065 for the shorter digest-only form.
   */
  lemma CountIsBoundedByFileLimit(file: seq<byte>)
    requires Parse(file).Ok? && |file| <= MAX_CHUNKLIST_BYTES
    ensures var c := Parse(file).value;
      |c.entries| <= (if c.signatureMethod == 1 then 932_059 else 932_065) < MAX_CHUNKS
  {
    var h := ParseShape(file);
    assert |Parse(file).value.entries| == h.count;
  }
}
