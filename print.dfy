/**
  The numbers and the label that `print_partition` reports for one entry. The
  C code formats them with `printf`; only the values are modelled here, as one
  `ReportLine` per printed line.
 */
module Print {
  import opened Wrappers
  import opened Layout

  const U32Modulus: int := 0x1_0000_0000
  const U64Modulus: int := 0x1_0000_0000_0000_0000
  const BytesPerMegabyte: nat := 1024 * 1024

  /** The values of one printed line: device, start, end, sectors, size in MiB, id and type label. */
  datatype ReportLine = ReportLine(
    device: string,
    start: uint32,
    end: uint32,
    sectors: uint32,
    sizeMb: uint32,
    id: uint8,
    typeName: string)

  /**
    The last sector of the range, computed as the C code does in `uint32_t`
    arithmetic: `lba + sector_count` wraps modulo 2^32, then `- 1` wraps again.
    The two wraps amount to one reduction of `lba + sector_count - 1`.
   */
  function EndSector(lba: uint32, sectorCount: uint32): (r: uint32)
    ensures r == (lba + sectorCount - 1) % U32Modulus
  {
    var sum := (lba + sectorCount) % U32Modulus;
    assert lba + sectorCount >= U32Modulus ==> sum == lba + sectorCount - U32Modulus;
    (sum - 1) % U32Modulus
  }

  /**
    The end sector is exactly `lba + sector_count - 1` when the range fits, and
    one before the wrapped sum in every case (so a zero count at LBA 0 gives
    2^32 - 1).
   */
  lemma EndSectorWraps(lba: uint32, sectorCount: uint32)
    ensures 1 <= lba + sectorCount <= U32Modulus ==> EndSector(lba, sectorCount) == lba + sectorCount - 1
    ensures (EndSector(lba, sectorCount) + 1) % U32Modulus == (lba + sectorCount) % U32Modulus
    ensures sectorCount == 0 && lba == 0 ==> EndSector(lba, sectorCount) == U32Modulus - 1
  {
    var sum := lba + sectorCount;
    if sum >= U32Modulus {
      assert (sum % U32Modulus) == sum - U32Modulus;
    }
  }

  /**
    The size in MiB: `sector_count * 512` computed in `uint64_t`, divided with
    truncation by 2^20, then cast back to `uint32_t`; neither the product nor
    the cast loses anything, so it is `sector_count / 2048`.
   */
  function SizeMb(sectorCount: uint32): (r: uint32)
    ensures r == sectorCount / 2048
  {
    var bytes := (sectorCount * SectorSize) % U64Modulus;
    assert bytes == sectorCount * 512;
    assert bytes / BytesPerMegabyte == sectorCount / 2048;
    (bytes / BytesPerMegabyte) % U32Modulus
  }

  /**
    Neither the 64-bit product (below 2^41) nor the cast back (the quotient is
    below 2^21) loses anything: the size is the floor of `sector_count / 2048`.
   */
  lemma SizeMbIsFloor(sectorCount: uint32)
    ensures SizeMb(sectorCount) * 2048 <= sectorCount < (SizeMb(sectorCount) + 1) * 2048
    ensures SizeMb(sectorCount) < 0x20_0000
  {
    var bytes := sectorCount * 512;
    assert bytes < U64Modulus;
    assert bytes / BytesPerMegabyte == sectorCount / 2048;
  }

  lemma SizeMbBoundary()
    ensures SizeMb(2048) == 1 && SizeMb(2047) == 0
  {
  }

  /** "Extended" for type 0x05 and "Linux" for every other type code. */
  function Label(partitionType: uint8): (r: string)
    ensures r == "Extended" <==> partitionType == ExtendedType
    ensures r == "Linux" <==> partitionType != ExtendedType
  {
    if partitionType == ExtendedType then "Extended" else "Linux"
  }

  /** The values `print_partition` prints for an entry it does not skip. */
  function Line(device: string, e: PartitionEntry): ReportLine
  {
    ReportLine(device, e.lba, EndSector(e.lba, e.sectorCount), e.sectorCount,
               SizeMb(e.sectorCount), e.partitionType, Label(e.partitionType))
  }

  /**
    What `print_partition` prints for `e`: nothing for type 0, else one line.
    The partition number the C function receives is never printed, so it is
    not a parameter here.
   */
  function PrintPartition(device: string, e: PartitionEntry): (r: Option<ReportLine>)
    ensures r.None? <==> e.partitionType == 0
    ensures r.Some? ==>
      && r.value.device == device
      && r.value.start == e.lba
      && r.value.sectors == e.sectorCount
      && r.value.id == e.partitionType
      && r.value.end == EndSector(e.lba, e.sectorCount)
      && r.value.sizeMb == SizeMb(e.sectorCount)
      && r.value.typeName == Label(e.partitionType)
  {
    if e.partitionType == 0 then None else Some(Line(device, e))
  }

  /** The lines printed for a run of entries none of which is skipped: line k for entry k. */
  function Lines(device: string, entries: seq<PartitionEntry>): seq<ReportLine>
  {
    seq(|entries|, k requires 0 <= k < |entries| => Line(device, entries[k]))
  }

  /** Printing two runs of entries prints the lines of the first, then those of the second. */
  lemma LinesConcat(device: string, xs: seq<PartitionEntry>, ys: seq<PartitionEntry>)
    ensures Lines(device, xs + ys) == Lines(device, xs) + Lines(device, ys)
  {
    assert forall k :: 0 <= k < |xs| + |ys| ==>
      Lines(device, xs + ys)[k] == (Lines(device, xs) + Lines(device, ys))[k];
  }
}
