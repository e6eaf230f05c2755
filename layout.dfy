/**
  The on-disk layout of an MBR or EBR sector: a 512-byte sector whose bytes
  [446, 510) hold four 16-byte partition records. Each record is decoded field
  by field (the C code instead overlays the `PartitionEntry` struct on the
  buffer); the two 32-bit fields are little-endian.
 */
module Layout {

  type uint8 = x: int | 0 <= x < 0x100
  type uint32 = x: int | 0 <= x < 0x1_0000_0000

  const SectorSize: nat := 512
  const TableOffset: nat := 446
  const EntrySize: nat := 16
  const MaxPartitions: nat := 4
  /** The only type code the walk treats as an extended partition. */
  const ExtendedType: uint8 := 0x05

  /** One sector as returned by a successful 512-byte read. */
  type Sector = s: seq<uint8> | |s| == SectorSize witness seq(512, _ => 0)

  /** The three cylinder/head/sector bytes, carried through but not interpreted. */
  datatype Chs = Chs(b0: uint8, b1: uint8, b2: uint8)

  datatype PartitionEntry = PartitionEntry(
    status: uint8,
    firstChs: Chs,
    partitionType: uint8,
    lastChs: Chs,
    lba: uint32,
    sectorCount: uint32)

  // ---------------------------------------------------------------------------
  // Little-endian 32-bit fields
  // ---------------------------------------------------------------------------

  /** The little-endian unsigned 32-bit number in bytes [at, at + 4) of `s`. */
  function LeU32(s: seq<uint8>, at: nat): (x: uint32)
    requires at + 4 <= |s|
  {
    s[at] as int + 0x100 * s[at + 1] as int + 0x1_0000 * s[at + 2] as int + 0x100_0000 * s[at + 3] as int
  }

  /** The four bytes of `x`, least significant first. */
  function EncodeU32(x: uint32): (r: seq<uint8>)
    ensures |r| == 4
  {
    var x1 := x / 0x100;
    var x2 := x1 / 0x100;
    [x % 0x100, x1 % 0x100, x2 % 0x100, x2 / 0x100]
  }

  lemma DecodeEncodeU32(x: uint32)
    ensures LeU32(EncodeU32(x), 0) == x
  {
    var r := EncodeU32(x);
    var x1 := x / 0x100;
    var x2 := x1 / 0x100;
    assert x == r[0] + 0x100 * x1;
    assert x1 == r[1] + 0x100 * x2;
    assert x2 == r[2] as int + 0x100 * r[3] as int;
  }

  /** Base-256 digits are unique: the low byte and the rest are recovered from their sum. */
  lemma SplitByte(lo: uint8, hi: int)
    requires hi >= 0
    ensures (lo + 0x100 * hi) % 0x100 == lo
    ensures (lo + 0x100 * hi) / 0x100 == hi
  {
  }

  lemma EncodeDecodeU32(s: seq<uint8>, at: nat)
    requires at + 4 <= |s|
    ensures EncodeU32(LeU32(s, at)) == s[at..at + 4]
  {
    var x := LeU32(s, at);
    var h2: int := s[at + 2] as int + 0x100 * s[at + 3] as int;
    var h1: int := s[at + 1] as int + 0x100 * h2;
    assert x == s[at] as int + 0x100 * h1;
    SplitByte(s[at], h1);
    SplitByte(s[at + 1], h2);
    SplitByte(s[at + 2], s[at + 3]);
  }

  // ---------------------------------------------------------------------------
  // 16-byte partition records
  // ---------------------------------------------------------------------------

  /** Decodes one record: status at byte 0, CHS at 1-3, type at 4, CHS at 5-7, LBA at 8-11, count at 12-15. */
  function DecodeEntry(rec: seq<uint8>): (e: PartitionEntry)
    requires |rec| == EntrySize
  {
    PartitionEntry(
      rec[0],
      Chs(rec[1], rec[2], rec[3]),
      rec[4],
      Chs(rec[5], rec[6], rec[7]),
      LeU32(rec, 8),
      LeU32(rec, 12))
  }

  /** The 16 bytes that a record holding `e` consists of. */
  function EncodeEntry(e: PartitionEntry): (rec: seq<uint8>)
    ensures |rec| == EntrySize
  {
    [e.status, e.firstChs.b0, e.firstChs.b1, e.firstChs.b2,
     e.partitionType, e.lastChs.b0, e.lastChs.b1, e.lastChs.b2]
    + EncodeU32(e.lba) + EncodeU32(e.sectorCount)
  }

  /** Encoding an entry and decoding the record gives back every field. */
  lemma DecodeEncodeEntry(e: PartitionEntry)
    ensures DecodeEntry(EncodeEntry(e)) == e
  {
    var rec := EncodeEntry(e);
    assert rec[8..12] == EncodeU32(e.lba);
    assert rec[12..16] == EncodeU32(e.sectorCount);
    DecodeEncodeU32(e.lba);
    DecodeEncodeU32(e.sectorCount);
    assert LeU32(rec, 8) == LeU32(rec[8..12], 0);
    assert LeU32(rec, 12) == LeU32(rec[12..16], 0);
  }

  /** Every 16-byte record is the encoding of its decoding: decoding loses no byte. */
  lemma EncodeDecodeEntry(rec: seq<uint8>)
    requires |rec| == EntrySize
    ensures EncodeEntry(DecodeEntry(rec)) == rec
  {
    EncodeDecodeU32(rec, 8);
    EncodeDecodeU32(rec, 12);
    assert rec == rec[..8] + rec[8..12] + rec[12..16];
  }

  // ---------------------------------------------------------------------------
  // The four table slots of a sector
  // ---------------------------------------------------------------------------

  /** The byte offset of slot `i` within a sector. */
  function SlotStart(i: nat): nat
  {
    TableOffset + EntrySize * i
  }

  /**
    Slot `i` of a sector, as `table_entry_ptr[i]` reads it: the record in bytes
    [446 + 16 i, 462 + 16 i).
   */
  function SlotEntry(s: Sector, i: nat): PartitionEntry
    requires i < MaxPartitions
  {
    DecodeEntry(s[SlotStart(i)..SlotStart(i) + EntrySize])
  }

  /** The four entries of the table in sector `s`, slot 0 first. */
  function TableEntries(s: Sector): seq<PartitionEntry>
  {
    seq(MaxPartitions, i requires 0 <= i < MaxPartitions => SlotEntry(s, i))
  }

  /**
    Slot `i` holds exactly the bytes [446 + 16 i, 462 + 16 i), which lie inside
    the table and before the boot signature: they are the encoding of the
    decoded entry, whose type is byte 4 of the record and whose LBA and count
    are the little-endian words at bytes 8 and 12.
   */
  lemma SlotEntryBytes(s: Sector, i: nat)
    requires i < MaxPartitions
    ensures TableOffset <= SlotStart(i) && SlotStart(i) + EntrySize <= 510
    ensures EncodeEntry(SlotEntry(s, i)) == s[SlotStart(i)..SlotStart(i) + EntrySize]
    ensures SlotEntry(s, i).status == s[SlotStart(i)]
    ensures SlotEntry(s, i).partitionType == s[SlotStart(i) + 4]
    ensures SlotEntry(s, i).lba == LeU32(s, SlotStart(i) + 8)
    ensures SlotEntry(s, i).sectorCount == LeU32(s, SlotStart(i) + 12)
  {
    EncodeDecodeEntry(s[SlotStart(i)..SlotStart(i) + EntrySize]);
  }

  /** The sector `s` with slot `i` overwritten by the record of `e`; every other byte is kept. */
  function WithSlot(s: Sector, i: nat, e: PartitionEntry): (r: Sector)
    requires i < MaxPartitions
    ensures SlotEntry(r, i) == e
    ensures forall j :: 0 <= j < MaxPartitions && j != i ==> SlotEntry(r, j) == SlotEntry(s, j)
    ensures forall k :: 0 <= k < SectorSize && !(SlotStart(i) <= k < SlotStart(i) + EntrySize) ==> r[k] == s[k]
  {
    var a := SlotStart(i);
    var r: Sector := s[..a] + EncodeEntry(e) + s[a + EntrySize..];
    assert r[a..a + EntrySize] == EncodeEntry(e);
    DecodeEncodeEntry(e);
    SlotEntryBytes(r, i);
    forall j | 0 <= j < MaxPartitions && j != i
      ensures SlotEntry(r, j) == SlotEntry(s, j)
    {
      var b := SlotStart(j);
      assert r[b..b + EntrySize] == s[b..b + EntrySize];
    }
    r
  }
}
