# myfdisk partition-table walker, modelled in Dafny

`myfdisk` reads the MBR of a block device, lists each partition it finds, and
descends into the chain of extended boot records (EBRs). The C program does
three things, and this project models each one:

- **Entry decoding.** A 512-byte sector holds four 16-byte partition records
  starting at byte 446. Each record has:
  - a status byte;
  - a three-byte CHS address;
  - a type byte;
  - a second three-byte CHS address;
  - the first sector (LBA) as a little-endian 32-bit word;
  - the sector count as a little-endian 32-bit word.

  The C code casts the buffer to `PartitionEntry`. The model decodes the
  bytes explicitly instead (module `Layout`) and proves that decoding and
  encoding are inverse in both directions.
- **The list and the printed values.**
  - The append-only head/tail linked list is a class (`Lists.PartitionList`).
    Its ghost `Nodes`/`Contents` sequences are tied to the real `head`,
    `tail` and `next` fields.
  - `print_partition` is modelled as the values it prints (`Print.ReportLine`):
    - the end sector, in `uint32_t` wrap-around arithmetic;
    - the size in MiB, a 64-bit product divided with truncation;
    - the "Extended"/"Linux" label.
- **The recursive walk.** `read_and_print_partition_table` is modelled twice:
  - as an imperative method over the list (`TableWalk.ReadAndPrintPartitionTable`);
  - as a pure specification function (`TableWalk.Walk`) that gives the
    entries in pre-order.

  The method is proved against the function. The disk is a map from byte
  offset to sector; a missing offset stands for a failed `lseek` or a short
  `read`. The C code has no cycle guard, so the model carries `fuel`, the
  number of nested EBR recursions allowed. A result that ran out of fuel is
  marked `truncated`. `TableWalk.WalkFuelMonotone` shows that any
  untruncated result is what the unbounded C recursion produces, and
  `TableWalk.DeepEnoughFuel` that fuel covering the depth of every chain
  gives such a result.

Modules:
- `Wrappers` (Option);
- `Layout` (bytes, records, slots);
- `Print` (print_partition);
- `Lists` (the linked list);
- `TableWalk` (the walk and the core of `main`);
- `Scenario` (a worked disk image with one EBR).

Where the program's description and the code differ, the model follows the
code:
- **Only type `0x05` starts a recursive walk.** Type `0x0F` (LBA-addressed
  extended) is reported as an ordinary "Linux" partition and its chain is not
  followed.
- **A failed seek or read ends only the current invocation.** The caller's
  loop goes on with its next slot. The whole walk is not abandoned
  (`TableWalk.UnreadableChild`).
- **Offsets are never rebased.** The child table is read at `lba * 512`
  (myfdisk.c:101), with the LBA taken as absolute. No EBR or
  extended-partition base is added, either to the recursion offset or to the
  reported start of a logical partition.
- **An unreadable MBR is not an error.** When sector 0 cannot be read (a
  device shorter than one sector), `read_and_print_partition_table` returns
  having printed nothing, and `main` still exits with status 0
  (myfdisk.c:88-91, 124-128); an exit status of 1 is not produced for it. The
  model's walk from offset 0 then yields no entries and no lines.
- **The partition number is never printed.** `print_partition` receives it
  but does not print it, so the model's lines carry no number.

## Model

| member | source | states |
|---|---|---|
| `Layout.DecodeEntry` | myfdisk.c:11-18 | the entry a 16-byte record holds: status from byte 0, the CHS triples from bytes 1-3 and 5-7, the type from byte 4, LBA and count as little-endian words from bytes 8-11 and 12-15 (characterised by the round-trip lemmas below) |
| `Layout.SlotEntry` | myfdisk.c:93-95 | `table_entry_ptr[i]`: the entry decoded from slot i of a sector (characterised by `Layout.SlotEntryBytes`) |
| `Layout.TableEntries` | myfdisk.c:93-94 | the four slot entries of a sector, slot 0 first, in the order the loop visits them |
| `Layout.DecodeEncodeU32` | myfdisk.c:16-17 | decoding the four little-endian bytes of a 32-bit value gives the value back |
| `Layout.EncodeDecodeU32` | myfdisk.c:16-17 | any four bytes are the little-endian encoding of the word they decode to |
| `Layout.DecodeEncodeEntry` | myfdisk.c:11-18 | decoding the 16-byte record of an entry restores every field (status, both CHS triples, type, LBA, count) |
| `Layout.EncodeDecodeEntry` | myfdisk.c:11-18 | every 16-byte record is the encoding of its decoding: the field layout covers all 16 bytes with no padding |
| `Layout.SlotEntryBytes` | myfdisk.c:93-95 | slot i is decoded from bytes [446+16i, 462+16i), inside the table and before byte 510; its type is byte 4 of the record, its LBA and count the little-endian words at bytes 8 and 12 |
| `Layout.WithSlot` | myfdisk.c:93 | writing a record into slot i makes slot i decode to it and leaves the other three slots and every byte outside the record unchanged |
| `Print.EndSector` | myfdisk.c:68 | `end_sector` computed with two `uint32_t` wraps equals (lba + count - 1) mod 2^32 |
| `Print.EndSectorWraps` | myfdisk.c:67-68 | the end sector is exactly lba + count - 1 when the range fits in 32 bits, one less than the wrapped sum in every case, and 2^32 - 1 for a zero count at LBA 0 |
| `Print.SizeMb` | myfdisk.c:69 | `size_mb`, the 64-bit product divided by 2^20 and cast to 32 bits, equals floor(count / 2048) |
| `Print.SizeMbIsFloor` | myfdisk.c:69 | the size is floor(count / 2048) MiB: the 64-bit product never overflows and the result stays below 2^21, so the cast back to 32 bits loses nothing |
| `Print.SizeMbBoundary` | myfdisk.c:69 | a count of 2048 sectors is 1 MiB and 2047 sectors is 0 MiB |
| `Print.Label` | myfdisk.c:78 | the label is "Extended" exactly when the type is 0x05 and "Linux" exactly when it is not |
| `Print.PrintPartition` | myfdisk.c:62-79 | nothing is printed exactly when the type is 0; otherwise one line with the device, start = LBA, the wrapped end sector, the count, the size in MiB, the type id and its label |
| `Lists.Node.constructor` | myfdisk.c:41-42 | a new node holds a copy of the entry and has no successor |
| `Lists.PartitionList.Init` | myfdisk.c:30-33 | head and tail are null and the list is empty |
| `Lists.PartitionList.Append` | myfdisk.c:35-49 | contents become old contents + [entry]; the tail is a fresh node holding the entry with no successor; the head changes only when the list was empty, and then equals the tail; the list stays well formed |
| `Lists.PartitionList.Free` | myfdisk.c:51-60 | the loop visits every node from head to tail and ends at null; afterwards head and tail are null and the list is empty |
| `TableWalk.ReadSector` | myfdisk.c:83-91 | the sector at a byte offset, or nothing when the seek or the 512-byte read fails |
| `TableWalk.Walk` | myfdisk.c:81-105 | what one invocation appends, in order: nothing when its sector cannot be read, else what the four slots of its table yield; plus whether the fuel bound cut a chain |
| `TableWalk.WalkEntries` | myfdisk.c:94-104 | what a run of slots yields: each in-use slot's entry, followed at once by everything its chain holds, then the next slot |
| `TableWalk.ChildWalk` | myfdisk.c:100-103 | what a slot's chain holds: nothing unless its type is exactly 0x05, else the walk of the table at lba * 512 with one level of fuel fewer (or a truncated empty result when no fuel is left) |
| `TableWalk.ChildOffsetSector` | myfdisk.c:100-101 | the nested table is read at a sector-aligned byte offset below 2^41 whose sector number is the entry's LBA (off_t arithmetic, no wrap, no base added) |
| `TableWalk.WalkReported` | myfdisk.c:94-98 | every entry the walk appends has non-zero type and is the decoding of some slot of some sector on the disk |
| `TableWalk.WalkEntriesConcat` | myfdisk.c:94-104 | walking two runs of slots yields the first run's entries followed by the second's, and runs out of fuel when either does |
| `TableWalk.WalkEntriesCons` | myfdisk.c:94-103 | one slot yields its entry if in use, then everything its chain holds, before anything of the following slots |
| `TableWalk.WalkEntriesSplit` | myfdisk.c:94-104 | pre-order: for every slot i, the result is what slots 0..i-1 yield, then slot i's entry (if in use), then its whole chain, then what slots i+1.. yield |
| `TableWalk.InUseEntries` | myfdisk.c:95 | the in-use filter keeps exactly the entries of non-zero type: an entry is in the result if and only if it is in the input with a non-zero type, and the result is no longer than the input |
| `TableWalk.InUseEntriesConcat` | myfdisk.c:94-95 | the filter keeps order: filtering two runs gives the first run's in-use entries, then the second's |
| `TableWalk.NoExtendedIsFlat` | myfdisk.c:95-103 | when no slot has type 0x05 (0x0F included) the walk yields exactly the in-use slots in order, for every fuel, and never runs out |
| `TableWalk.EmptyTable` | myfdisk.c:94-98 | a table whose four slots have type 0 yields nothing and is not truncated |
| `TableWalk.UnreadableChild` | myfdisk.c:83-91 | an 0x05 entry whose table cannot be read is still reported, its chain contributes nothing, and the walk continues with the next slot |
| `TableWalk.WalkFuelMonotone` | myfdisk.c:100-102 | once a walk does not run out of fuel, every larger fuel gives the same entries: the result is the unbounded recursion's |
| `TableWalk.DeepEnoughFuel` | myfdisk.c:100-102 | when every chain below a table ends within `depth` nested tables, any fuel of at least `depth` gives a walk that does not run out, which by `TableWalk.WalkFuelMonotone` is the unbounded recursion's result |
| `TableWalk.SelfReferencingEbr` | myfdisk.c:100-102 | an EBR whose first slot is 0x05 and points at its own sector runs out of every fuel, having found at least fuel + 1 entries: the C recursion never ends |
| `TableWalk.SlotStep` | myfdisk.c:95-103 | one iteration of the slot loop on the list contents, lines, counter and truncation flag: append, count and print the slot if in use, then, for type 0x05, absorb the nested walk |
| `TableWalk.SlotLoop` | myfdisk.c:94-104 | the iterations of the slot loop over the remaining slots, in order |
| `TableWalk.SlotStepAbsorbs` | myfdisk.c:95-103 | one iteration of the slot loop appends, counts and prints the slot's entry (if in use) followed by what its chain yields |
| `TableWalk.SlotLoopWalks` | myfdisk.c:94-104 | the four loop iterations, run from any starting list, lines and counter, add exactly what the pre-order walk finds, one line per entry |
| `TableWalk.VisitSlot` | myfdisk.c:95-103 | one loop iteration on the real list: the new list contents, lines, counter and truncation flag are those of one slot step from the old ones |
| `TableWalk.ReadAndPrintPartitionTable` | myfdisk.c:81-105 | after a call the list holds the old contents followed by the walk's entries, one line was printed per entry in that order, and the counter grew by exactly their number; a failed seek or read changes nothing |
| `TableWalk.ListPartitions` | myfdisk.c:119-126 | from an empty list and a zero counter the count equals the number of entries found and of lines printed, and line k is what print_partition prints for entry k |
| `Scenario.ExampleWalk` | myfdisk.c:81-105 | an MBR with a primary at LBA 2048 and an extended entry at LBA 4096, whose EBR holds a logical at LBA 100, yields [primary, extended, logical] with the logical LBA unchanged, for every fuel of at least 1 |
| `Scenario.ExampleWalkWithoutFuel` | myfdisk.c:100-102 | with no fuel the same disk yields [primary, extended] and is marked truncated |
| `Scenario.ExampleReport` | myfdisk.c:67-78 | the three lines of that disk: the primary spans sectors 2048 to 4095 (1 MiB), the container is labelled "Extended", the logical spans 100 to 149 (0 MiB) |

## Left out

- `main`'s argument check, `open`/`close`, the usage message, the exit codes and the header line (myfdisk.c:107-118, 123, 127-128): process and I/O glue. `TableWalk.ListPartitions` keeps the list setup, the walk from offset 0 and the freeing.
- The real `lseek`/`read` calls and `perror`: the disk is a map from byte offset to sector, and a missing offset stands for either failure.
- `printf` field widths and hexadecimal formatting: the model keeps only the printed values.
- `malloc` failure followed by `exit`: `new` never fails in Dafny.
- Releasing each node with `free`: Dafny has no deallocation, so `Lists.PartitionList.Free` walks the nodes and then clears the pointers.
- The meaning of the CHS bytes and the status byte: they are decoded and carried through but not interpreted.
- `TableWalk.ReadAndPrintPartitionTable`: bounded by `fuel`. The C recursion is unbounded and does not terminate on a cyclic EBR chain (`TableWalk.SelfReferencingEbr`); a result that is not `truncated` is the unbounded one (`TableWalk.WalkFuelMonotone`).
- `TableWalk.ReadAndPrintPartitionTable`: the counter is an unbounded integer, so the overflow of C's `int` after 2^31 - 1 entries is not modelled.
- Platform assumptions of the C code: `off_t` is taken to be 64 bits wide, so `(off_t) lba * 512` (myfdisk.c:101) never wraps; with a 32-bit `off_t` it overflows once the LBA reaches 2^22, which `TableWalk.ChildOffset` does not model. The cast at myfdisk.c:93 also reads the 32-bit fields through a pointer that is not 4-byte aligned (446 mod 4 = 2), which the model's byte-wise decoding sidesteps.
- Host byte order and struct layout: the C cast relies on a little-endian host and on `PartitionEntry` having no padding (its 32-bit fields fall at offsets 8 and 12). The model decodes little-endian bytes at those offsets explicitly.
