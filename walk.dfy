/**
  The recursive walk of `read_and_print_partition_table`: read one sector,
  visit its four slots in order, append and print every slot of non-zero type,
  and after appending a slot of type 0x05 walk the sector at byte offset
  `lba * 512` before going on with the next slot.

  The C function has no cycle guard and may recurse forever, so the model
  carries `fuel`: the number of nested extended-partition recursions still
  allowed. When an 0x05 slot is met with no fuel left, the entry is still
  appended but its chain is not followed, and the result is marked
  `truncated`. `WalkFuelMonotone` shows that an untruncated result is what any
  larger fuel gives, i.e. what the C code computes.
 */
module TableWalk {
  import opened Wrappers
  import opened Layout
  import opened Print
  import Lists

  /**
    What a `lseek` to each byte offset followed by a 512-byte `read` yields.
    An offset that is not a key stands for a failed seek or a short read.
   */
  type Disk = map<int, Sector>

  function ReadSector(disk: Disk, offset: int): Option<Sector>
  {
    if offset in disk then Some(disk[offset]) else None
  }

  /**
    The byte offset of the table an 0x05 entry points to: `lba * 512`, computed
    in `off_t`, taken here to be 64 bits wide so that the product never wraps,
    and with no base offset added.
   */
  function ChildOffset(e: PartitionEntry): int
  {
    e.lba * SectorSize
  }

  /** The child offset is sector-aligned, below 2^41, and its sector number is the entry's LBA. */
  lemma ChildOffsetSector(e: PartitionEntry)
    ensures 0 <= ChildOffset(e) < 0x200_0000_0000
    ensures ChildOffset(e) % SectorSize == 0 && ChildOffset(e) / SectorSize == e.lba
  {
  }

  // ---------------------------------------------------------------------------
  // The walk as a function
  // ---------------------------------------------------------------------------

  /** The entries a walk appends, in order, and whether it stopped for lack of fuel. */
  datatype Walked = Walked(entries: seq<PartitionEntry>, truncated: bool)

  /** The walk of the table in the sector at `offset`; a failed read finds nothing. */
  function Walk(disk: Disk, offset: int, fuel: nat): Walked
    decreases fuel, 1, 0
  {
    match ReadSector(disk, offset)
    case None => Walked([], false)
    case Some(sector) => WalkEntries(disk, TableEntries(sector), fuel)
  }

  /**
    What the walk finds below slot entry `e`: nothing unless its type is 0x05;
    for 0x05, the walk of the sector at `ChildOffset(e)`, or a truncated empty
    result when no fuel is left.
   */
  function ChildWalk(disk: Disk, e: PartitionEntry, fuel: nat): Walked
    decreases fuel, 0, 0
  {
    if e.partitionType != ExtendedType then Walked([], false)
    else if fuel == 0 then Walked([], true)
    else Walk(disk, ChildOffset(e), fuel - 1)
  }

  /** The entry of a slot if it is in use (type non-zero), else nothing. */
  function InUse(e: PartitionEntry): seq<PartitionEntry>
  {
    if e.partitionType != 0 then [e] else []
  }

  /** The remaining slot entries `es` in order, each followed by what its chain holds (pre-order). */
  function WalkEntries(disk: Disk, es: seq<PartitionEntry>, fuel: nat): Walked
    decreases fuel, 0, |es|
  {
    if es == [] then Walked([], false)
    else
      var child := ChildWalk(disk, es[0], fuel);
      var rest := WalkEntries(disk, es[1..], fuel);
      Walked(InUse(es[0]) + child.entries + rest.entries, child.truncated || rest.truncated)
  }

  // ---------------------------------------------------------------------------
  // What the walk appends
  // ---------------------------------------------------------------------------

  /** True when `e` is the decoding of some slot of some sector of the disk. */
  ghost predicate FromDisk(disk: Disk, e: PartitionEntry)
  {
    exists offset, i :: offset in disk && 0 <= i < MaxPartitions && SlotEntry(disk[offset], i) == e
  }

  /** What every appended entry satisfies: it is in use, and it was read from a slot on the disk. */
  ghost predicate Reported(disk: Disk, e: PartitionEntry)
  {
    e.partitionType != 0 && FromDisk(disk, e)
  }

  /** The walk never appends an entry of type 0, nor one that no slot on the disk holds. */
  lemma {:induction false} WalkReported(disk: Disk, offset: int, fuel: nat)
    ensures forall k :: 0 <= k < |Walk(disk, offset, fuel).entries| ==>
      Reported(disk, Walk(disk, offset, fuel).entries[k])
    decreases fuel, 1, 0
  {
    if offset in disk {
      var es := TableEntries(disk[offset]);
      forall k | 0 <= k < |es| ensures FromDisk(disk, es[k]) {
        assert SlotEntry(disk[offset], k) == es[k];
      }
      WalkEntriesReported(disk, es, fuel);
    }
  }

  lemma {:induction false} WalkEntriesReported(disk: Disk, es: seq<PartitionEntry>, fuel: nat)
    requires forall k :: 0 <= k < |es| ==> FromDisk(disk, es[k])
    ensures forall k :: 0 <= k < |WalkEntries(disk, es, fuel).entries| ==>
      Reported(disk, WalkEntries(disk, es, fuel).entries[k])
    decreases fuel, 0, |es|
  {
    if es != [] {
      var e := es[0];
      assert FromDisk(disk, e);
      var child := ChildWalk(disk, e, fuel);
      if e.partitionType == ExtendedType && fuel > 0 {
        WalkReported(disk, ChildOffset(e), fuel - 1);
        assert child == Walk(disk, ChildOffset(e), fuel - 1);
      }
      assert forall k :: 0 <= k < |es[1..]| ==> es[1..][k] == es[k + 1];
      WalkEntriesReported(disk, es[1..], fuel);
      var rest := WalkEntries(disk, es[1..], fuel).entries;
      var all := InUse(e) + child.entries + rest;
      assert WalkEntries(disk, es, fuel).entries == all;
      forall k | 0 <= k < |all| ensures Reported(disk, all[k]) {
        if k < |InUse(e)| {
          assert all[k] == e;
        } else if k < |InUse(e)| + |child.entries| {
          assert all[k] == child.entries[k - |InUse(e)|];
        } else {
          assert all[k] == rest[k - |InUse(e)| - |child.entries|];
        }
      }
    }
  }

  // ---------------------------------------------------------------------------
  // Order, recursion and fuel
  // ---------------------------------------------------------------------------

  /** Walking two runs of slot entries finds what the first yields, then what the second yields. */
  lemma {:induction false} WalkEntriesConcat(disk: Disk, xs: seq<PartitionEntry>, ys: seq<PartitionEntry>, fuel: nat)
    ensures WalkEntries(disk, xs + ys, fuel).entries == WalkEntries(disk, xs, fuel).entries + WalkEntries(disk, ys, fuel).entries
    ensures WalkEntries(disk, xs + ys, fuel).truncated == (WalkEntries(disk, xs, fuel).truncated || WalkEntries(disk, ys, fuel).truncated)
    decreases |xs|
  {
    if xs == [] {
      assert xs + ys == ys;
    } else {
      assert (xs + ys)[0] == xs[0] && (xs + ys)[1..] == xs[1..] + ys;
      WalkEntriesConcat(disk, xs[1..], ys, fuel);
      var head := InUse(xs[0]) + ChildWalk(disk, xs[0], fuel).entries;
      var restX := WalkEntries(disk, xs[1..], fuel).entries;
      var restY := WalkEntries(disk, ys, fuel).entries;
      assert head + (restX + restY) == head + restX + restY;
    }
  }

  /** Walking one slot entry `e` ahead of `es` finds `e` if in use, then its chain, then what `es` yields. */
  lemma WalkEntriesCons(disk: Disk, e: PartitionEntry, es: seq<PartitionEntry>, fuel: nat)
    ensures WalkEntries(disk, [e] + es, fuel)
         == Walked(InUse(e) + ChildWalk(disk, e, fuel).entries + WalkEntries(disk, es, fuel).entries,
                   ChildWalk(disk, e, fuel).truncated || WalkEntries(disk, es, fuel).truncated)
  {
    assert ([e] + es)[0] == e && ([e] + es)[1..] == es;
  }

  /**
    Pre-order: what the walk finds for slot `i` comes after everything found for
    the slots before it, is the slot's own entry (if in use) followed by all its
    chain holds, and is followed by what the slots after it yield.
   */
  lemma WalkEntriesSplit(disk: Disk, es: seq<PartitionEntry>, i: nat, fuel: nat)
    requires i < |es|
    ensures WalkEntries(disk, es, fuel).entries
         == WalkEntries(disk, es[..i], fuel).entries + InUse(es[i]) + ChildWalk(disk, es[i], fuel).entries
            + WalkEntries(disk, es[i + 1..], fuel).entries
  {
    var mid := [es[i]] + es[i + 1..];
    assert es == es[..i] + mid;
    WalkEntriesConcat(disk, es[..i], mid, fuel);
    WalkEntriesCons(disk, es[i], es[i + 1..], fuel);
  }

  /**
    A failed seek or read ends only the nested invocation: the 0x05 entry is
    still reported, its chain contributes nothing, and the walk goes on with
    the next slot.
   */
  lemma UnreadableChild(disk: Disk, e: PartitionEntry, es: seq<PartitionEntry>, fuel: nat)
    requires e.partitionType == ExtendedType && fuel > 0 && ChildOffset(e) !in disk
    ensures WalkEntries(disk, [e] + es, fuel)
         == Walked([e] + WalkEntries(disk, es, fuel).entries, WalkEntries(disk, es, fuel).truncated)
  {
    WalkEntriesCons(disk, e, es, fuel);
    assert ChildWalk(disk, e, fuel) == Walked([], false);
    assert [e] + [] == [e];
  }

  /** The in-use entries of `es` in order: an independent definition with no recursion into chains. */
  function InUseEntries(es: seq<PartitionEntry>): (r: seq<PartitionEntry>)
    ensures |r| <= |es|
    ensures forall e :: e in r <==> e in es && e.partitionType != 0
  {
    if es == [] then [] else InUse(es[0]) + InUseEntries(es[1..])
  }

  /** The filter keeps order: the in-use entries of two runs are those of the first, then those of the second. */
  lemma {:induction false} InUseEntriesConcat(xs: seq<PartitionEntry>, ys: seq<PartitionEntry>)
    ensures InUseEntries(xs + ys) == InUseEntries(xs) + InUseEntries(ys)
    decreases |xs|
  {
    if xs == [] {
      assert xs + ys == ys;
    } else {
      assert (xs + ys)[0] == xs[0] && (xs + ys)[1..] == xs[1..] + ys;
      InUseEntriesConcat(xs[1..], ys);
      assert InUse(xs[0]) + (InUseEntries(xs[1..]) + InUseEntries(ys))
          == InUse(xs[0]) + InUseEntries(xs[1..]) + InUseEntries(ys);
    }
  }

  /**
    Only type 0x05 is followed: when no slot has that type (0x0F included),
    the walk finds exactly the in-use slots, whatever the fuel, and never runs out.
   */
  lemma {:induction false} NoExtendedIsFlat(disk: Disk, es: seq<PartitionEntry>, fuel: nat)
    requires forall k :: 0 <= k < |es| ==> es[k].partitionType != ExtendedType
    ensures WalkEntries(disk, es, fuel) == Walked(InUseEntries(es), false)
    decreases |es|
  {
    if es != [] {
      assert ChildWalk(disk, es[0], fuel) == Walked([], false);
      assert forall k :: 0 <= k < |es[1..]| ==> es[1..][k] == es[k + 1];
      NoExtendedIsFlat(disk, es[1..], fuel);
      assert InUse(es[0]) + [] == InUse(es[0]);
    }
  }

  /** A table whose four slots all have type 0 yields nothing, however deep the walk may go. */
  lemma EmptyTable(disk: Disk, offset: int, fuel: nat)
    requires offset in disk
    requires forall i :: 0 <= i < MaxPartitions ==> SlotEntry(disk[offset], i).partitionType == 0
    ensures Walk(disk, offset, fuel) == Walked([], false)
  {
    var es := TableEntries(disk[offset]);
    assert forall k :: 0 <= k < |es| ==> es[k] == SlotEntry(disk[offset], k);
    NoExtendedIsFlat(disk, es, fuel);
    assert InUseEntries(es) == InUse(es[0]) + InUseEntries(es[1..]);
    assert InUseEntries(es[1..]) == InUse(es[1]) + InUseEntries(es[2..]);
    assert InUseEntries(es[2..]) == InUse(es[2]) + InUseEntries(es[3..]);
    assert InUseEntries(es[3..]) == InUse(es[3]) + InUseEntries(es[4..]);
    assert es[4..] == [];
  }

  /**
    More fuel changes nothing once a walk did not run out: an untruncated
    result is the one every larger bound gives, i.e. what the unbounded C
    recursion computes.
   */
  lemma {:induction false} WalkFuelMonotone(disk: Disk, offset: int, fuel: nat, more: nat)
    requires fuel <= more && !Walk(disk, offset, fuel).truncated
    ensures Walk(disk, offset, more) == Walk(disk, offset, fuel)
    decreases fuel, 1, 0
  {
    if offset in disk {
      WalkEntriesFuelMonotone(disk, TableEntries(disk[offset]), fuel, more);
    }
  }

  lemma {:induction false} WalkEntriesFuelMonotone(disk: Disk, es: seq<PartitionEntry>, fuel: nat, more: nat)
    requires fuel <= more && !WalkEntries(disk, es, fuel).truncated
    ensures WalkEntries(disk, es, more) == WalkEntries(disk, es, fuel)
    decreases fuel, 0, |es|
  {
    if es != [] {
      var e := es[0];
      if e.partitionType == ExtendedType {
        assert fuel > 0;
        WalkFuelMonotone(disk, ChildOffset(e), fuel - 1, more - 1);
      }
      assert ChildWalk(disk, e, more) == ChildWalk(disk, e, fuel);
      WalkEntriesFuelMonotone(disk, es[1..], fuel, more);
    }
  }

  /**
    Every chain below the table at `offset` ends within `depth` nested tables:
    each 0x05 slot met on the way leads, with one level fewer, to a table of the
    same kind (an unreadable table ends its chain at once).
   */
  ghost predicate ChainsEndWithin(disk: Disk, offset: int, depth: nat)
    decreases depth
  {
    offset in disk ==>
      forall i :: 0 <= i < MaxPartitions && SlotEntry(disk[offset], i).partitionType == ExtendedType ==>
        depth > 0 && ChainsEndWithin(disk, ChildOffset(SlotEntry(disk[offset], i)), depth - 1)
  }

  /** Fuel that covers the depth of every chain is enough: the walk does not run out. */
  lemma {:induction false} DeepEnoughFuel(disk: Disk, offset: int, depth: nat, fuel: nat)
    requires ChainsEndWithin(disk, offset, depth) && depth <= fuel
    ensures !Walk(disk, offset, fuel).truncated
    decreases fuel, 1, 0
  {
    if offset in disk {
      var es := TableEntries(disk[offset]);
      forall k | 0 <= k < |es| && es[k].partitionType == ExtendedType
        ensures depth > 0 && ChainsEndWithin(disk, ChildOffset(es[k]), depth - 1)
      {
        assert es[k] == SlotEntry(disk[offset], k);
      }
      DeepEnoughFuelEntries(disk, es, depth, fuel);
    }
  }

  lemma {:induction false} DeepEnoughFuelEntries(disk: Disk, es: seq<PartitionEntry>, depth: nat, fuel: nat)
    requires depth <= fuel
    requires forall k :: 0 <= k < |es| && es[k].partitionType == ExtendedType ==>
      depth > 0 && ChainsEndWithin(disk, ChildOffset(es[k]), depth - 1)
    ensures !WalkEntries(disk, es, fuel).truncated
    decreases fuel, 0, |es|
  {
    if es != [] {
      var e := es[0];
      if e.partitionType == ExtendedType {
        DeepEnoughFuel(disk, ChildOffset(e), depth - 1, fuel - 1);
      }
      assert forall k :: 0 <= k < |es[1..]| ==> es[1..][k] == es[k + 1];
      DeepEnoughFuelEntries(disk, es[1..], depth, fuel);
    }
  }

  /**
    An EBR whose first slot is of type 0x05 and points back at its own sector:
    every bound runs out, and the walk has found at least one entry per level,
    so the C recursion never ends.
   */
  lemma {:induction false} SelfReferencingEbr(disk: Disk, offset: int, fuel: nat)
    requires offset in disk
    requires SlotEntry(disk[offset], 0).partitionType == ExtendedType
    requires ChildOffset(SlotEntry(disk[offset], 0)) == offset
    ensures Walk(disk, offset, fuel).truncated
    ensures |Walk(disk, offset, fuel).entries| >= fuel + 1
    decreases fuel
  {
    var es := TableEntries(disk[offset]);
    var e := es[0];
    assert e == SlotEntry(disk[offset], 0);
    if fuel > 0 {
      SelfReferencingEbr(disk, offset, fuel - 1);
    }
    assert Walk(disk, offset, fuel) == WalkEntries(disk, es, fuel);
    assert ChildWalk(disk, e, fuel).truncated;
    assert |ChildWalk(disk, e, fuel).entries| >= fuel;
  }

  // ---------------------------------------------------------------------------
  // The walk as the C loop performs it, one slot at a time
  // ---------------------------------------------------------------------------

  /**
    What one invocation of the C function has produced so far: the list's
    contents, the lines printed, the counter and whether fuel ran out.
   */
  datatype Progress = Progress(entries: seq<PartitionEntry>, lines: seq<ReportLine>, counter: int, truncated: bool)

  /** The effect of `append_partition`, `++*partition_counter` and `print_partition` on one entry. */
  function Appended(p: Progress, device: string, e: PartitionEntry): Progress
  {
    Progress(p.entries + [e], p.lines + [Line(device, e)], p.counter + 1, p.truncated)
  }

  /** The effect of a nested walk that found `w`. */
  function Absorbed(p: Progress, device: string, w: Walked): Progress
  {
    Progress(p.entries + w.entries, p.lines + Lines(device, w.entries), p.counter + |w.entries|,
             p.truncated || w.truncated)
  }

  /** One iteration of the slot loop, on slot entry `e`. */
  function SlotStep(p: Progress, device: string, disk: Disk, e: PartitionEntry, fuel: nat): Progress
  {
    var appended := if e.partitionType != 0 then Appended(p, device, e) else p;
    if e.partitionType != ExtendedType then appended
    else if fuel == 0 then appended.(truncated := true)
    else Absorbed(appended, device, Walk(disk, ChildOffset(e), fuel - 1))
  }

  /** The iterations of the slot loop over the remaining slot entries `es`, starting from `p`. */
  function SlotLoop(p: Progress, device: string, disk: Disk, es: seq<PartitionEntry>, fuel: nat): Progress
    decreases |es|
  {
    if es == [] then p
    else SlotLoop(SlotStep(p, device, disk, es[0], fuel), device, disk, es[1..], fuel)
  }

  /** One slot step absorbs the slot's own entry (if in use) followed by what its chain holds. */
  lemma SlotStepAbsorbs(p: Progress, device: string, disk: Disk, e: PartitionEntry, fuel: nat)
    ensures var child := ChildWalk(disk, e, fuel);
      SlotStep(p, device, disk, e, fuel) == Absorbed(p, device, Walked(InUse(e) + child.entries, child.truncated))
  {
    var child := ChildWalk(disk, e, fuel);
    LinesConcat(device, InUse(e), child.entries);
    assert Lines(device, InUse(e)) == if e.partitionType != 0 then [Line(device, e)] else [];
    if e.partitionType != 0 {
      assert p.entries + [e] + child.entries == p.entries + (InUse(e) + child.entries);
      assert p.lines + [Line(device, e)] + Lines(device, child.entries)
          == p.lines + (Lines(device, InUse(e)) + Lines(device, child.entries));
    } else {
      assert InUse(e) + child.entries == child.entries;
    }
  }

  /** Absorbing two walks one after the other is absorbing their concatenation. */
  lemma AbsorbedTwice(p: Progress, device: string, w1: Walked, w2: Walked)
    ensures Absorbed(Absorbed(p, device, w1), device, w2)
         == Absorbed(p, device, Walked(w1.entries + w2.entries, w1.truncated || w2.truncated))
  {
    LinesConcat(device, w1.entries, w2.entries);
    assert p.entries + w1.entries + w2.entries == p.entries + (w1.entries + w2.entries);
    assert p.lines + Lines(device, w1.entries) + Lines(device, w2.entries)
        == p.lines + (Lines(device, w1.entries) + Lines(device, w2.entries));
  }

  /** The slot loop adds to what it starts from exactly what the walk finds, with one line each. */
  lemma {:induction false} SlotLoopWalks(p: Progress, device: string, disk: Disk, es: seq<PartitionEntry>, fuel: nat)
    ensures SlotLoop(p, device, disk, es, fuel) == Absorbed(p, device, WalkEntries(disk, es, fuel))
    decreases |es|
  {
    if es == [] {
      assert p.entries + [] == p.entries && p.lines + [] == p.lines;
    } else {
      var e := es[0];
      var child := ChildWalk(disk, e, fuel);
      var here := Walked(InUse(e) + child.entries, child.truncated);
      var rest := WalkEntries(disk, es[1..], fuel);
      SlotStepAbsorbs(p, device, disk, e, fuel);
      SlotLoopWalks(Absorbed(p, device, here), device, disk, es[1..], fuel);
      AbsorbedTwice(p, device, here, rest);
    }
  }

  /**
    `read_and_print_partition_table`: appends to `list`, bumps the counter and
    prints a line for every entry the walk finds, in the walk's order. A failed
    seek or read returns at once, having done nothing, and the caller goes on
    with its next slot.
   */
  method ReadAndPrintPartitionTable(device: string, disk: Disk, offset: int, list: Lists.PartitionList,
                                    counter: int, fuel: nat)
    returns (printed: seq<ReportLine>, counterOut: int, truncated: bool)
    requires list.Valid()
    modifies list.Repr
    ensures list.Valid() && fresh(list.Repr - old(list.Repr))
    ensures list.Contents == old(list.Contents) + Walk(disk, offset, fuel).entries
    ensures printed == Lines(device, Walk(disk, offset, fuel).entries)
    ensures counterOut == counter + |Walk(disk, offset, fuel).entries|
    ensures truncated == Walk(disk, offset, fuel).truncated
    decreases fuel, 1
  {
    printed, counterOut, truncated := [], counter, false;
    var sector := ReadSector(disk, offset);
    if sector.None? {
      assert list.Contents == old(list.Contents) + [];
      return;
    }
    var buf := sector.value;
    ghost var table := TableEntries(buf);
    ghost var start := Progress(list.Contents, [], counter, false);
    ghost var final := SlotLoop(start, device, disk, table, fuel);
    for i := 0 to MaxPartitions
      invariant list.Valid() && fresh(list.Repr - old(list.Repr))
      invariant SlotLoop(Progress(list.Contents, printed, counterOut, truncated), device, disk, table[i..], fuel) == final
    {
      var e := SlotEntry(buf, i);
      assert table[i..][0] == e && table[i..][1..] == table[i + 1..];
      printed, counterOut, truncated := VisitSlot(device, disk, e, list, printed, counterOut, truncated, fuel);
    }
    assert table[MaxPartitions..] == [];
    SlotLoopWalks(start, device, disk, table, fuel);
    assert [] + Lines(device, Walk(disk, offset, fuel).entries) == Lines(device, Walk(disk, offset, fuel).entries);
  }

  /**
    The body of the slot loop of `read_and_print_partition_table`, on slot
    entry `e`: a slot of non-zero type is appended, counted and printed; a
    slot of type 0x05 is then followed by a nested walk of its table.
   */
  method VisitSlot(device: string, disk: Disk, e: PartitionEntry, list: Lists.PartitionList,
                   printed: seq<ReportLine>, counter: int, truncated: bool, fuel: nat)
    returns (printedOut: seq<ReportLine>, counterOut: int, truncatedOut: bool)
    requires list.Valid()
    modifies list.Repr
    ensures list.Valid() && fresh(list.Repr - old(list.Repr))
    ensures Progress(list.Contents, printedOut, counterOut, truncatedOut)
         == SlotStep(Progress(old(list.Contents), printed, counter, truncated), device, disk, e, fuel)
    decreases fuel, 0
  {
    printedOut, counterOut, truncatedOut := printed, counter, truncated;
    if e.partitionType != 0 {
      list.Append(e);
      counterOut := counterOut + 1;
      var line := PrintPartition(device, e);
      if line.Some? {
        printedOut := printedOut + [line.value];
      }
    }
    ghost var appended := Progress(list.Contents, printedOut, counterOut, truncatedOut);
    assert appended == if e.partitionType != 0 then Appended(Progress(old(list.Contents), printed, counter, truncated), device, e)
                       else Progress(old(list.Contents), printed, counter, truncated);
    if e.partitionType == ExtendedType {
      if fuel == 0 {
        truncatedOut := true;
      } else {
        var childPrinted, childCounter, childTruncated :=
          ReadAndPrintPartitionTable(device, disk, ChildOffset(e), list, counterOut, fuel - 1);
        printedOut := printedOut + childPrinted;
        counterOut := childCounter;
        truncatedOut := truncatedOut || childTruncated;
      }
    }
  }

  /**
    The core of `main`: an empty list, a zero counter and a walk from byte
    offset 0, after which the list is freed. Every entry found is printed
    exactly once, line k for entry k, and the counter ends at their number.
   */
  method ListPartitions(device: string, disk: Disk, fuel: nat)
    returns (printed: seq<ReportLine>, count: int, truncated: bool)
    ensures count == |Walk(disk, 0, fuel).entries| == |printed|
    ensures forall k :: 0 <= k < count ==>
      Some(printed[k]) == PrintPartition(device, Walk(disk, 0, fuel).entries[k])
    ensures truncated == Walk(disk, 0, fuel).truncated
  {
    var list := new Lists.PartitionList();
    list.Init();
    printed, count, truncated := ReadAndPrintPartitionTable(device, disk, 0, list, 0, fuel);
    WalkReported(disk, 0, fuel);
    list.Free();
  }
}
