/**
  A small disk image with one EBR chain: the MBR holds a primary Linux
  partition at LBA 2048 (2048 sectors) in slot 0 and an extended container at
  LBA 4096 in slot 1; the EBR at byte offset 4096 * 512 holds one logical
  partition at LBA 100 (50 sectors) in slot 0, the other slots being unused.
 */
module Scenario {
  import opened Layout
  import opened Print
  import opened TableWalk

  /** A sector of zero bytes. */
  function Blank(): Sector
  {
    seq(SectorSize, _ => 0)
  }

  const NoChs := Chs(0, 0, 0)
  const Unused := PartitionEntry(0, NoChs, 0, NoChs, 0, 0)
  const Primary := PartitionEntry(0x80, NoChs, 0x83, NoChs, 2048, 2048)
  const Container := PartitionEntry(0, NoChs, ExtendedType, NoChs, 4096, 8192)
  const Logical := PartitionEntry(0, NoChs, 0x83, NoChs, 100, 50)

  function Mbr(): Sector
  {
    WithSlot(WithSlot(Blank(), 0, Primary), 1, Container)
  }

  function Ebr(): Sector
  {
    WithSlot(Blank(), 0, Logical)
  }

  function ExampleDisk(): Disk
  {
    map[0 := Mbr(), 4096 * SectorSize := Ebr()]
  }

  /** An all-zero sector decodes to four unused slots. */
  lemma BlankTable()
    ensures forall i :: 0 <= i < MaxPartitions ==> SlotEntry(Blank(), i) == Unused
  {
    forall i | 0 <= i < MaxPartitions
      ensures SlotEntry(Blank(), i) == Unused
    {
      var rec := Blank()[SlotStart(i)..SlotStart(i) + EntrySize];
      assert forall k :: 0 <= k < EntrySize ==> rec[k] == 0;
    }
  }

  lemma MbrTable()
    ensures TableEntries(Mbr()) == [Primary, Container, Unused, Unused]
  {
    BlankTable();
    var once := WithSlot(Blank(), 0, Primary);
    assert SlotEntry(Mbr(), 0) == SlotEntry(once, 0) == Primary;
    assert SlotEntry(Mbr(), 2) == SlotEntry(once, 2) == SlotEntry(Blank(), 2);
    assert SlotEntry(Mbr(), 3) == SlotEntry(once, 3) == SlotEntry(Blank(), 3);
  }

  lemma EbrTable()
    ensures TableEntries(Ebr()) == [Logical, Unused, Unused, Unused]
  {
    BlankTable();
  }

  /** The tables the example image holds, as far as the walk is concerned. */
  ghost predicate HoldsExampleTables(disk: Disk)
  {
    && 0 in disk && TableEntries(disk[0]) == [Primary, Container, Unused, Unused]
    && 4096 * SectorSize in disk && TableEntries(disk[4096 * SectorSize]) == [Logical, Unused, Unused, Unused]
  }

  lemma ExampleDiskTables()
    ensures HoldsExampleTables(ExampleDisk())
  {
    MbrTable();
    EbrTable();
  }

  /** Unused slots contribute nothing. */
  lemma {:induction false} UnusedSlots(disk: Disk, n: nat, fuel: nat)
    requires n <= 3
    ensures WalkEntries(disk, seq(n, _ => Unused), fuel) == Walked([], false)
  {
    var es := seq(n, _ => Unused);
    NoExtendedIsFlat(disk, es, fuel);
    if n > 0 {
      assert es[1..] == seq(n - 1, _ => Unused);
      UnusedSlots(disk, n - 1, fuel);
      NoExtendedIsFlat(disk, es[1..], fuel);
    }
  }

  lemma EbrWalk(disk: Disk, fuel: nat)
    requires HoldsExampleTables(disk)
    ensures Walk(disk, 4096 * SectorSize, fuel) == Walked([Logical], false)
  {
    UnusedSlots(disk, 3, fuel);
    assert [Logical, Unused, Unused, Unused] == [Logical] + seq(3, _ => Unused);
    WalkEntriesCons(disk, Logical, seq(3, _ => Unused), fuel);
  }

  lemma MbrWalk(disk: Disk, fuel: nat, child: Walked)
    requires HoldsExampleTables(disk)
    requires child == ChildWalk(disk, Container, fuel)
    ensures Walk(disk, 0, fuel) == Walked([Primary, Container] + child.entries, child.truncated)
  {
    var tail := seq(2, _ => Unused);
    assert Walk(disk, 0, fuel) == WalkEntries(disk, [Primary] + ([Container] + tail), fuel) by {
      assert [Primary, Container, Unused, Unused] == [Primary] + ([Container] + tail);
    }
    var rest := WalkEntries(disk, [Container] + tail, fuel);
    assert rest == Walked([Container] + child.entries, child.truncated) by {
      UnusedSlots(disk, 2, fuel);
      WalkEntriesCons(disk, Container, tail, fuel);
      assert [Container] + child.entries + [] == [Container] + child.entries;
    }
    assert ChildWalk(disk, Primary, fuel) == Walked([], false);
    WalkEntriesCons(disk, Primary, [Container] + tail, fuel);
    assert [Primary] + [] + rest.entries == [Primary, Container] + child.entries;
  }

  /**
    The walk reports the primary entry, then the extended container, then the
    logical entry of its EBR, with the logical LBA left as stored: three
    entries, for every bound that allows one nested table.
   */
  lemma ExampleWalk(fuel: nat)
    requires fuel >= 1
    ensures Walk(ExampleDisk(), 0, fuel) == Walked([Primary, Container, Logical], false)
  {
    var disk := ExampleDisk();
    ExampleDiskTables();
    assert ChildOffset(Container) == 4096 * SectorSize;
    EbrWalk(disk, fuel - 1);
    MbrWalk(disk, fuel, Walked([Logical], false));
  }

  /** With no fuel the container is still reported, but its EBR is not read. */
  lemma ExampleWalkWithoutFuel()
    ensures Walk(ExampleDisk(), 0, 0) == Walked([Primary, Container], true)
  {
    ExampleDiskTables();
    MbrWalk(ExampleDisk(), 0, Walked([], true));
    assert [Primary, Container] + [] == [Primary, Container];
  }

  /** The three printed lines: the primary spans sectors 2048 to 4095 (1 MiB), the container is labelled "Extended". */
  lemma ExampleReport(device: string)
    ensures var lines := Lines(device, [Primary, Container, Logical]);
      && |lines| == 3
      && lines[0].start == 2048 && lines[0].end == 4095 && lines[0].sizeMb == 1 && lines[0].typeName == "Linux"
      && lines[1].start == 4096 && lines[1].typeName == "Extended"
      && lines[2].start == 100 && lines[2].end == 149 && lines[2].sizeMb == 0 && lines[2].typeName == "Linux"
  {
    SizeMbIsFloor(2048);
    SizeMbIsFloor(50);
  }
}
