/**
 * Where everything is in an accepted chunklist, byte by byte: literal values and positions only,
 * against which `ChunklistFormat` is measured.
 */
module ChunklistLayout {
  import opened Common
  import opened ChunklistFormat

  // Digits ----------------------------------------------------------------------------------------

  lemma DivideTwice(n: nat, m: nat)
    requires m > 0
    ensures n / (256 * m) == n / 256 / m
  {
    var q, r := n / 256, n % 256;
    var a, b := q / m, q % m;
    assert n == 256 * (a * m + b) + r;
    assert n == (256 * m) * a + (256 * b + r);
    assert 256 * b + r < 256 * m;
    QuotientIs(n, 256 * m, a, 256 * b + r);
  }

  lemma QuotientIs(n: nat, m: nat, a: nat, r: nat)
    requires n == m * a + r && r < m
    ensures n / m == a
  {
    var d := n / m - a;
    assert m * d == r - n % m;
    assert 0 - m < m * d < m;
  }

  /** Byte `i` of the encoding is the `i`-th base-256 digit, the least significant one first. */
  lemma {:induction false} EncodedDigit(n: nat, width: nat, i: nat)
    requires i < width
    ensures EncodeLE(n, width)[i] == n / Pow256(i) % 256
  {
    if i > 0 {
      EncodedDigit(n / 256, width - 1, i - 1);
      DivideTwice(n, Pow256(i - 1));
    }
  }

  lemma DecodedDigit(bs: seq<byte>, i: nat)
    requires i < |bs|
    ensures bs[i] == DecodeLE(bs) / Pow256(i) % 256
  {
    EncodeDecode(bs);
    EncodedDigit(DecodeLE(bs), |bs|, i);
  }

  /** The `width` bytes from `at` on are the digits of `n`. */
  ghost predicate NumberAt(file: seq<byte>, at: nat, width: nat, n: nat) {
    && at + width <= |file| && n < Pow256(width)
    && forall i :: 0 <= i < width ==> file[at + i] == n / Pow256(i) % 256
  }

  lemma NumberAtExactly(file: seq<byte>, at: nat, width: nat, n: nat)
    requires at + width <= |file|
    ensures NumberAt(file, at, width, n) <==> DecodeLE(file[at..at + width]) == n
  {
    var bs := file[at..at + width];
    if DecodeLE(bs) == n {
      DecodeBound(bs);
      forall i | 0 <= i < width ensures file[at + i] == n / Pow256(i) % 256 {
        DecodedDigit(bs, i);
        assert bs[i] == file[at + i];
      }
    }
    if NumberAt(file, at, width, n) {
      forall i | 0 <= i < width ensures EncodeLE(n, width)[i] == bs[i] {
        EncodedDigit(n, width, i);
        assert bs[i] == file[at + i];
      }
      assert EncodeLE(n, width) == bs;
      DecodeEncode(n, width);
    }
  }

  // Which files are accepted ----------------------------------------------------------------------

  /** "CNKL", header size 36, version 1, chunk method 1. */
  predicate SupportedFormat(file: seq<byte>)
    requires |file| >= 36
  {
    && file[0] == 0x43 && file[1] == 0x4E && file[2] == 0x4B && file[3] == 0x4C
    && file[4] == 36 && file[5] == 0 && file[6] == 0 && file[7] == 0
    && file[8] == 1 && file[9] == 1
  }

  /** The header's chunk count, chunk offset and signature offset. */
  ghost predicate HeaderNumbers(file: seq<byte>, count: nat, offset: nat, signatureOffset: nat) {
    NumberAt(file, 12, 8, count) && NumberAt(file, 20, 8, offset) && NumberAt(file, 28, 8, signatureOffset)
  }

  lemma SmallNumberAt(file: seq<byte>)
    requires |file| >= 36
    ensures DecodeLE(file[4..8]) == 36 <==> file[4] == 36 && file[5] == 0 && file[6] == 0 && file[7] == 0
  {
    Widths();
    assert Pow256(0) == 1 && Pow256(1) == 256 && Pow256(2) == 0x1_0000 && Pow256(3) == 0x100_0000;
    NumberAtExactly(file, 4, 4, 36);
    if NumberAt(file, 4, 4, 36) {
      assert file[4 + 0] == 36 / Pow256(0) % 256 && file[4 + 1] == 36 / Pow256(1) % 256;
      assert file[4 + 2] == 36 / Pow256(2) % 256 && file[4 + 3] == 36 / Pow256(3) % 256;
    } else {
      var i :| 0 <= i < 4 && file[4 + i] != 36 / Pow256(i) % 256;
      assert i == 0 || i == 1 || i == 2 || i == 3;
    }
  }

  lemma HasHeaderNumbers(file: seq<byte>) returns (count: nat, offset: nat, signatureOffset: nat)
    requires |file| >= 36
    ensures HeaderNumbers(file, count, offset, signatureOffset)
  {
    count, offset, signatureOffset := DecodeLE(file[12..20]), DecodeLE(file[20..28]), DecodeLE(file[28..36]);
    NumberAtExactly(file, 12, 8, count);
    NumberAtExactly(file, 20, 8, offset);
    NumberAtExactly(file, 28, 8, signatureOffset);
  }

  lemma HeaderFields(file: seq<byte>, count: nat, offset: nat, signatureOffset: nat)
    requires |file| >= 36 && HeaderNumbers(file, count, offset, signatureOffset)
    ensures var h := UnpackHeader(file[..HEADER_SIZE]);
      && h.magic == file[..4] && h.headerSize == DecodeLE(file[4..8])
      && h.fileVersion == file[8] && h.chunkMethod == file[9] && h.signatureMethod == file[10]
      && h.count == count && h.offset == offset && h.signatureOffset == signatureOffset
  {
    var head := file[..36];
    assert head[..4] == file[..4] && head[4..8] == file[4..8] && head[12..20] == file[12..20];
    assert head[20..28] == file[20..28] && head[28..36] == file[28..36];
    NumberAtExactly(file, 12, 8, count);
    NumberAtExactly(file, 20, 8, offset);
    NumberAtExactly(file, 28, 8, signatureOffset);
  }

  lemma MagicBytes(file: seq<byte>)
    requires |file| >= 36
    ensures file[..4] == MAGIC <==> file[0] == 0x43 && file[1] == 0x4E && file[2] == 0x4B && file[3] == 0x4C
  {
    if file[..4] == MAGIC { assert file[..4][0] == 0x43 && file[..4][1] == 0x4E && file[..4][2] == 0x4B && file[..4][3] == 0x4C; }
  }

  /** Every answer of the structural checks, in the order in which they are made. */
  lemma ParseByBytes(file: seq<byte>, count: nat, offset: nat, signatureOffset: nat)
    requires HeaderNumbers(file, count, offset, signatureOffset)
    ensures
      if !SupportedFormat(file) then Parse(file) == Err(UnsupportedFormat)
      else if count == 0 || count > 2_000_000 || offset != 36 then Parse(file) == Err(BadCountOrOffset)
      else if signatureOffset != 36 + 36 * count then Parse(file) == Err(BadSignatureOffset)
      else if file[10] != 1 && file[10] != 2 then Parse(file) == Err(UnsupportedSignatureMethod)
      else if |file| != signatureOffset + (if file[10] == 1 then 256 else 32) then Parse(file) == Err(UnexpectedSize)
      else Parse(file).Ok?
  {
    HeaderFields(file, count, offset, signatureOffset);
    MagicBytes(file);
    SmallNumberAt(file);
  }

  lemma ShortFileIsTruncated(file: seq<byte>)
    ensures Parse(file) == Err(HeaderTruncated) <==> |file| < 36
  {
    if |file| >= 36 {
      var count, offset, signatureOffset := HasHeaderNumbers(file);
      ParseByBytes(file, count, offset, signatureOffset);
    }
  }

  // What an accepted file says --------------------------------------------------------------------

  /** Entry `k`: a 32-bit size and 32 bytes of digest. */
  ghost predicate EntryAt(file: seq<byte>, k: nat, entry: Entry) {
    && 36 * k + 72 <= |file|
    && NumberAt(file, 36 + 36 * k, 4, entry.size) && entry.digest == file[40 + 36 * k..72 + 36 * k]
  }

  lemma SliceOfSlice(file: seq<byte>, a: nat, b: nat, c: nat, d: nat)
    requires a <= b <= |file| && c <= d <= b - a
    ensures file[a..b][c..d] == file[a + c..a + d]
  {
    var slice, inner := file[a..b], file[a + c..a + d];
    forall i | 0 <= i < d - c ensures slice[c..d][i] == inner[i] {}
  }

  lemma {:induction false} EntriesByBytes(body: seq<byte>, count: nat, k: nat)
    requires |body| == ENTRY_SIZE * count && k < count
    ensures 36 * k + 36 <= |body| && UnpackEntries(body, count)[k] == UnpackEntry(body[36 * k..36 * k + 36])
  {
    if k > 0 {
      EntriesByBytes(body[36..], count - 1, k - 1);
      SliceOfSlice(body, 36, |body|, 36 * (k - 1), 36 * (k - 1) + 36);
      assert body[36..|body|] == body[36..];
    }
  }

  lemma EntryByBytes(file: seq<byte>, count: nat, k: nat)
    requires 36 + 36 * count <= |file| && k < count
    ensures EntryAt(file, k, UnpackEntries(file[36..36 + 36 * count], count)[k])
  {
    var at := 36 + 36 * k;
    EntriesByBytes(file[36..36 + 36 * count], count, k);
    SliceOfSlice(file, 36, 36 + 36 * count, 36 * k, 36 * k + 36);
    SliceOfSlice(file, at, at + 36, 0, 4);
    SliceOfSlice(file, at, at + 36, 4, 36);
    var raw := file[at..at + 36];
    assert raw[..4] == raw[0..4] && raw[4..] == raw[4..36];
    NumberAtExactly(file, at, 4, DecodeLE(raw[..4]));
  }

  /** An accepted file holds exactly what was parsed from it, at these positions. */
  lemma AcceptedByBytes(file: seq<byte>)
    requires Parse(file).Ok?
    ensures var c := Parse(file).value;
      && |file| >= 36 && SupportedFormat(file) && HeaderNumbers(file, |c.entries|, 36, 36 + 36 * |c.entries|)
      && 0 < |c.entries| <= 2_000_000 && c.signatureMethod == file[10] && file[10] in {1, 2}
      && |file| == 36 + 36 * |c.entries| + (if file[10] == 1 then 256 else 32)
      && c.signature == file[36 + 36 * |c.entries|..]
      && forall k :: 0 <= k < |c.entries| ==> EntryAt(file, k, c.entries[k])
  {
    ShortFileIsTruncated(file);
    var count, offset, signatureOffset := HasHeaderNumbers(file);
    ParseByBytes(file, count, offset, signatureOffset);
    HeaderFields(file, count, offset, signatureOffset);
    var h := ParseShape(file);
    var c := Parse(file).value;
    assert |c.entries| == count;
    forall k | 0 <= k < count ensures EntryAt(file, k, c.entries[k]) { EntryByBytes(file, count, k); }
  }
}
