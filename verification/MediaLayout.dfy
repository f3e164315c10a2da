/**
 * The on-disk side of the Linux backend: clearing the partition tables of a failed medium through a
 * descriptor whose writes may be short, and the single-partition GPT layout (section 5.3 of the UEFI
 * Specification) that a successful write lays down. The partition starts where the first cleared
 * window ends.
 */
module MediaLayout {
  import opened Common

  const WINDOW: nat := 1024 * 1024

  const SECTOR: nat := 512

  /** Where the second window starts for a device announced as `size` bytes long. */
  function TailOffset(size: nat): nat {
    if size <= WINDOW then 0 else size - WINDOW
  }

  predicate InWindow(i: int, offset: nat) {
    offset <= i < offset + WINDOW
  }

  predicate InWindows(i: int, size: nat) {
    InWindow(i, 0) || InWindow(i, TailOffset(size))
  }

  /** `after` is `before` with exactly the bytes selected by `cleared` set to zero. */
  ghost predicate ZeroedExactly(before: seq<byte>, after: seq<byte>, cleared: int -> bool) {
    && |after| == |before|
    && forall i :: 0 <= i < |before| ==> after[i] == if cleared(i) then 0 else before[i]
  }

  /** An interrupted clearing: some selected bytes are zero, nothing else happened. */
  ghost predicate ZeroedPartly(before: seq<byte>, after: seq<byte>, cleared: int -> bool) {
    && |after| == |before|
    && forall i :: 0 <= i < |before| ==> after[i] == before[i] || (cleared(i) && after[i] == 0)
  }

  class BlockDevice {
    const data: array<byte>
    var position: nat

    constructor (data: array<byte>)
      ensures this.data == data && position == 0
    {
      this.data, position := data, 0;
    }

    /**
     * `os.write` of zeroes: any count up to the one asked for and the device's end, or an error. A
     * `healthy` device makes some progress as long as there is room.
     */
    method WriteZeroes(count: nat, healthy: bool) returns (written: int)
      requires count > 0
      modifies this, data
      ensures written <= count && (written > 0 ==> old(position) + written <= data.Length)
      ensures healthy && old(position) < data.Length ==> written > 0
      ensures position == old(position) + if written > 0 then written else 0
      ensures forall i :: 0 <= i < data.Length ==>
                data[i] == if old(position) <= i < old(position) + written then 0 else old(data[i])
    {
      written := *;
      if healthy && written <= 0 { written := 1; }
      if written > count { written := count; }
      if position + written > data.Length { written := data.Length - position; }
      if written > 0 {
        forall i | position <= i < position + written { data[i] := 0; }
        position := position + written;
      }
    }

    /** Clears one window, however the writes are split up. */
    method ClearWindow(offset: nat, healthy: bool) returns (ok: bool)
      modifies this, data
      ensures healthy && offset + WINDOW <= data.Length ==> ok
      ensures ok ==> offset + WINDOW <= data.Length && ZeroedExactly(old(data[..]), data[..], i => InWindow(i, offset))
      ensures ZeroedPartly(old(data[..]), data[..], i => InWindow(i, offset))
    {
      ghost var before := data[..];
      position := offset;
      var remaining := WINDOW;
      while remaining > 0
        invariant 0 <= remaining <= WINDOW && position == offset + WINDOW - remaining
        invariant remaining < WINDOW ==> position <= data.Length
        invariant forall i :: 0 <= i < data.Length ==> data[i] == if offset <= i < position then 0 else before[i]
      {
        var written := WriteZeroes(remaining, healthy);
        if written <= 0 { return false; }
        remaining := remaining - written;
      }
      assert forall i :: 0 <= i < data.Length ==> data[i] == if InWindow(i, offset) then 0 else before[i];
      ok := true;
    }

    /**
     * Both windows and the final flush. Success means exactly the two windows are zero; after a
     * failure no byte has any value but its own or zero, and none outside the windows changed. On a
     * healthy device it succeeds whenever both windows fit.
     */
    method InvalidateDescriptor(size: nat, healthy: bool) returns (ok: bool)
      modifies this, data
      ensures healthy ==> (ok <==> TailOffset(size) + WINDOW <= data.Length)
      ensures data.Length < WINDOW ==> !ok
      ensures ok ==> TailOffset(size) + WINDOW <= data.Length
                     && ZeroedExactly(old(data[..]), data[..], i => InWindows(i, size))
      ensures ZeroedPartly(old(data[..]), data[..], i => InWindows(i, size))
    {
      ok := ClearWindow(0, healthy);
      if !ok { return; }
      ok := ClearWindow(TailOffset(size), healthy);
      if !ok { return; }
      ok := *;  // fsync
      ok := ok || healthy;
    }
  }

  // Layout -----------------------------------------------------------------------------------------

  datatype Partition = Partition(start: nat, sectors: nat)

  const FIRST_LBA: nat := 2048

  /** The one partition asked of sfdisk, or nothing when the device is too small. */
  function PartitionScript(sectors: nat): (p: Option<Partition>)
    ensures p.Some? <==> sectors >= 2082
  {
    var size := sectors - FIRST_LBA - 33;
    if size <= 0 then None else Some(Partition(FIRST_LBA, size))
  }

  /** Protective MBR, header and 128 entries of 128 bytes. */
  predicate PrimaryGpt(lba: int) {
    0 <= lba < 34
  }

  /** The same entries and header, mirrored at the end. */
  predicate BackupGpt(lba: int, sectors: nat) {
    sectors - 33 <= lba < sectors
  }

  predicate InPartition(lba: int, p: Partition) {
    p.start <= lba < p.start + p.sectors
  }

  /**
   * The partition holds exactly the blocks from 2048 to the last usable one, `sectors - 34`: it
   * touches neither table, and only the blocks before 2048 are left over.
   */
  lemma PartitionIsTheUsableSpace(sectors: nat, lba: int)
    requires PartitionScript(sectors).Some? && 0 <= lba < sectors
    ensures var p := PartitionScript(sectors).value;
            p == Partition(2048, sectors - 2081)
            && (InPartition(lba, p) <==> 2048 <= lba <= sectors - 34)
            && (InPartition(lba, p) ==> !PrimaryGpt(lba) && !BackupGpt(lba, sectors))
            && (!InPartition(lba, p) ==> lba < 2048 || BackupGpt(lba, sectors))
  {
  }

  /** The windows are the first and the last 1 MiB; on a smaller device there is only the first. */
  lemma WindowsExactly(i: nat, size: nat)
    ensures InWindows(i, size) <==> i < 1_048_576 || (size > 1_048_576 && size - 1_048_576 <= i < size)
  {
  }

  /** A byte of the medium and the 512-byte block it lies in. */
  function BlockOf(i: nat): nat {
    i / SECTOR
  }

  lemma BlocksOf512Bytes(i: nat, k: nat)
    ensures BlockOf(i) == k <==> 512 * k <= i < 512 * k + 512
  {
  }

  /**
   * Successful invalidation removes every byte of both table copies, whatever the size of the device
   * is modulo the block size, ...
   */
  lemma InvalidationClearsBothTables(size: nat, before: seq<byte>, after: seq<byte>, i: nat)
    requires WINDOW <= size == |before| && ZeroedExactly(before, after, k => InWindows(k, size))
    requires i < size && (PrimaryGpt(BlockOf(i)) || BackupGpt(BlockOf(i), size / SECTOR))
    ensures after[i] == 0
  {
    var cleared := (k: int) => InWindows(k, size);
    assert InWindows(i, size) by { TablesLieInWindows(size, i); }
    assert cleared(i);
  }

  lemma TablesLieInWindows(size: nat, i: nat)
    requires WINDOW <= size && i < size && (PrimaryGpt(BlockOf(i)) || BackupGpt(BlockOf(i), size / SECTOR))
    ensures InWindows(i, size)
  {
    assert SECTOR * BlockOf(i) <= i < SECTOR * BlockOf(i) + SECTOR;
    assert SECTOR * (size / SECTOR) <= size < SECTOR * (size / SECTOR) + SECTOR;
  }

  /** ... but keeps the partition's own bytes up to the last window: the first ends where it starts. */
  lemma InvalidationKeepsThePartition(size: nat, before: seq<byte>, after: seq<byte>, i: nat)
    requires WINDOW <= size == |before| && ZeroedExactly(before, after, k => InWindows(k, size))
    requires PartitionScript(size / SECTOR).Some?
    requires i < size && InPartition(BlockOf(i), PartitionScript(size / SECTOR).value)
    ensures i < size - WINDOW ==> after[i] == before[i]
    ensures i >= size - WINDOW ==> after[i] == 0
  {
    assert SECTOR * BlockOf(i) <= i < SECTOR * BlockOf(i) + SECTOR;
    assert i >= WINDOW;
  }
}
