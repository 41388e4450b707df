# Verification model of ext4_rs

This project models the parts of ext4_rs that decide whether a file system survives: the jbd2 write-ahead journal and
its recovery, the device that captures an operation's writes into a transaction, the extent tree, file reads and writes
over it, the HTree directory index, directory blocks and the directory tree, the block and inode allocators, and
extended attributes. Code that changes state step by step is written as methods over classes, arrays and loops, each
proved against a function or relation; the promises of the code are then proved of those.

How the pieces hang together:

- `JournalCodec`, `JournalBlocks`, `RecoverFlag` and `JournalLog` are the byte formats and the scan; `CrashDisk` is a
  device on which writes stay pending until a flush and a crash keeps any subset of them. `Journal` and
  `JournalRecovery` issue the writes of a commit and of a recovery; `JournalReplay`, `JournalMeaning`, `JournalQuiet`,
  `JournalCommitted`, `JournalCrash`, `JournalAtomic` and `JournalCrashSafe` prove what survives. `JournalFlag` follows
  the RECOVER flag; `JournalLimits` and `JournalExample` say exactly where the guarantees end.
- `JournaledDevice`, `JournaledFs` and `DeviceRuns` are the operations on top: nesting, captured writes, commit or drop,
  power loss at any moment, over runs of any length.
- `Records`, `TreeLevels` and `TreeShape` are ordered index trees kept level by level, shared by the extent tree
  (`Extents`, `ExtentStore`, `ExtentTree`, `ExtentRuns`, `ExtentBatch`, `ExtentHole`, `ExtentTruncate`, `FreedRuns`) and
  the HTree (`HashLeaves`, `HashStore`, `HashIndex`, `HashTree`). `FileBytes` and `FileData` are file contents over
  extents.
- `Bitmap`, `BlockGroups`, `BlockAlloc` and `InodeAlloc` are the allocators; `XattrLayout`, `XattrSerialize`,
  `XattrNames` and `XattrStore` the attributes; `DirBlock`, `NameTree` and `Namespace` the directories.

The formats follow the Linux kernel documentation "ext4 Data Structures and Algorithms", sections 3.6 (journal), 4.2.3
(extent tree), 4.3.2 (hash tree directories) and 4.4 (extended attributes). The CRC32C, the directory hash and the
attribute hash are arbitrary functions, so nothing depends on what they compute.

Conditions the results rest on, where the code does not check them itself:

- Journal: the journal file maps one-to-one to blocks that hold neither file-system data nor the ext4 superblock, and
  its superblock has 1 <= s_first < s_maxlen within the file; block numbers fit the tag and revoke fields of the format;
  the revokes fit one block; the sequence does not reach 2^32 - 1. The transaction fits the log and changes no block
  that it revokes; both are proved necessary. Operations write whole blocks outside the journal. The two writes that set
  and clear RECOVER on the live superblock are whole-block writes.
- Extents: a new extent overlaps no other, ends below block 2^32 - 1 and starts at a physical block above 0; physical
  blocks are below 2^48, the width of their field. The 32-bit sum that gives the start of a freed run wraps, as in a
  release build; with overflow checks a sum past 2^32 panics. Node blocks lie below physical block 2^32, since a search
  follows the low half of a child pointer only. The two neighbour checks of an insertion read device block 0 in place of
  the leaf; what they find there does not continue into the new extent.
- File data: no two logical blocks share a physical one, and nothing is mapped at or beyond the end of the file.
- Names: entries are proper names without a slash, and callers create a name only where there is none, as the FUSE layer
  does. Link counts stay below 65535.

## Findings

Failures of the code that the project establishes. Each has its exact condition and an input.

- Removing blocks computes the physical start to free in 32 bits (`src/ext4_impls/extents.rs:1417`). A truncation or a
  punched range whose run starts at physical block 2^32 or above frees blocks of another owner and leaks its own:
  `ExtentTruncate.NarrowedMeaning` and `ExtentTruncate.PunchedExact`, with `ExtentTruncate.HighBlockLeaks` as input.
- A transaction larger than the log area is accepted and overwrites its own descriptor. Power lost after its commit block
  loses it although the commit block is durable: `JournalLimits.OverflowLosesCommit`, `JournalLimits.DurableIff`, with
  `JournalExample.OversizedIsLost` as input. The code guards only the descriptor's capacity
  (`src/ext4_impls/journal/mod.rs:391-396`).
- A block both staged and revoked in one transaction is checkpointed but skipped by replay, so a crash can leave part of
  the transaction: `JournalLimits.AtomicIffHarmless`, with `JournalExample.RevokedIsTorn` as input.
- Two unwritten extents that merge to exactly 32768 blocks lose the flag and read as initialised, since the merge admits
  32768 and that length has no unwritten encoding: `Extents.InsertIsUpdateIff`, with `Extents.FlagLostWitness` as input.
- For that reason one contiguous preallocation of 32768 blocks, which is split at 32767 on purpose, is merged back and
  reads as initialised: `ExtentRuns.BatchIsUpdateIff`, with `ExtentRuns.LongRunLoses` as input.
- A hole behind a preallocated extent is reported as unwritten, although the documentation of the lookup promises
  otherwise: `ExtentHole.Reported`, with `ExtentHole.HoleReported` as input.
- An attribute name longer than 255 bytes is stored with a truncated length byte and not found again:
  `XattrStore.XattrFile.Set`, with `XattrStore.LongNameIsLost` as input.
- A `Set` or `Remove` that runs out of space has already cleared the attributes in the inode body, and changes the
  contents exactly if there were any; only the surrounding transaction brings them back: `XattrStore.XattrFile.Set`,
  `XattrStore.XattrFile.Remove`, with `XattrStore.NoSpaceDropsOthers` as input.
- `system.posix_acl_access` or `system.posix_acl_default` stored with a name of its own is listed but not found:
  `XattrStore.ListedIffFound`, with `XattrStore.ListedNotFound` as input.
- A write into part of a fresh block leaves what the device held around it visible in the file: a byte that was not
  written changes exactly if it lies in a filled hole over a device byte other than 0, and none does if the spare blocks
  hold zeros. `FileData.File.WriteAt` and `FileBytes.FilledBytes`, with `FileBytes.StaleByteShows` as input.

The comment at the largest file size says 16 TB; the constant is 16 GiB (`src/ext4_defs/consts.rs:43`), and the model has
the constant.

## Model

| member | source | states |
|---|---|---|
| JournalCodec.TagRoundTrip | src/ext4_defs/journal.rs:339-441 | For every tag and all three formats, with or without 64BIT, the emitted bytes parse back to the tag as that format stores it (block number and checksum cut to the field widths), and the parser consumes exactly what was emitted. |
| JournalCodec.StoredExactly | src/ext4_defs/journal.rs:339-441 | A tag comes back unchanged, but for the two placement flags, exactly when its block number and checksum fit the fields of the format. |
| JournalCodec.AssembleDescriptor | src/ext4_defs/journal.rs:636-686 | For every non-empty tag list within the capacity, the filling loop never overruns the block or its checksum tail and builds the specified descriptor block. |
| JournalCodec.ParseDescriptorBlock | src/ext4_defs/journal.rs:694-724 | The parsing loop, which stops at LAST_TAG, a short rest or a malformed tag, computes the specified parse of any buffer, errors included. |
| JournalCodec.DescriptorRoundTrip | src/ext4_defs/journal.rs:602-724 | Any non-empty tag list within the capacity, assembled with or without a checksum tail, parses back to the same tags with SAME_UUID on all but the first and LAST_TAG on the last. |
| JournalCodec.FinalizedTailVerifies | src/ext4_defs/journal.rs:752-770 | A block whose tail checksum was finalized passes the tail verification, whatever function the checksum is. |
| JournalCodec.CommitBlockValid | src/ext4_defs/journal.rs:730-748 | A commit block carries the sequence it was built with, and passes its own checksum if it has one. |
| JournalCodec.ReadRevokeBlock | src/ext4_defs/journal.rs:556-589 | The parsing loop of a revoke block computes the specified list of block numbers for any buffer, errors included. |
| JournalCodec.RevokeRoundTrip | src/ext4_defs/journal.rs:530-589 | A revoke block built from any set of numbers that fits reads back as its sequence and those numbers, cut to 32 bits without 64BIT. |
| JournalCodec.EscapeRoundTrip | src/ext4_impls/journal/mod.rs:366-372 | A logged copy never starts with the journal magic, and the ESCAPE flag is enough to restore the block. |
| JournalCodec.UpdateSuperblockParses | src/ext4_defs/journal.rs:239-260 | Patching the head and refreshing the checksum changes the two log-position fields a parse sees, and no other field. |
| JournalBlocks.UpdateSuperblockExactly | src/ext4_defs/journal.rs:239-260 | The updated journal superblock is exactly the old one with the two words at their places, on a journal with checksums a fitting one, and no other byte changed. |
| JournalBlocks.SuperblockRoundTrip | src/ext4_defs/journal.rs:168-221 | An emitted journal superblock parses back to the same fields. |
| JournalBlocks.FeatureMasks | src/ext4_defs/journal.rs:262-300 | 64BIT, CSUM_V2 and CSUM_V3 are the masks 0x2, 0x8 and 0x10 of the feature word and choose the tag layout. |
| JournalBlocks.CommitBlockBytes | src/ext4_defs/journal.rs:730-748 | A commit block byte by byte: header, checksum type and size, the checksum of the block over itself, and zeros. |
| JournalBlocks.ChecksumMeaning | src/ext4_defs/journal.rs:738-770 | A commit, descriptor or revoke block passes exactly when its four checksum bytes hold the checksum of the block with zeros in their place. |
| JournalBlocks.CapacityExact | src/ext4_defs/journal.rs:602-632 | The descriptor capacity is the largest tag count: that many tags fit with header, UUID and checksum tail, and one more does not. |
| RecoverFlag.PatchRecoverExactly | src/ext4_defs/super_block.rs:126-143 | Patching a superblock block is exactly: bit 2 of the feature word as asked, the checksum field that of the bytes in front of it, and every other bit and byte kept. |
| RecoverFlag.ClearedAlike | src/ext4_defs/super_block.rs:126-143 | Two blocks are equal after clearing RECOVER exactly when they are equal but for that bit and the checksum field. |
| JournalCodec.PatchRecoverTwice | src/ext4_defs/super_block.rs:126-143 | Setting or clearing RECOVER does not depend on the earlier state of the flag: the last patch decides the whole block. |
| CrashDisk.CrashInsideEpoch | src/ext4_impls/journal/mod.rs:398-512 | Writes stay pending until a flush and a crash keeps any subset: every crash during a trace of flushed batches leaves all earlier batches whole and an arbitrary subset of one. |
| JournalLog.Scan | src/ext4_impls/journal/mod.rs:180-278 | The loop that moves the cursor, the next sequence and the accumulators computes the recursive walk of the log, for every log and every error. |
| JournalLog.ScanSound | src/ext4_impls/journal/mod.rs:180-278 | On any log at all: an Ok result has consecutive sequence numbers from s_sequence on, and every data index is s_first or lies below s_maxlen and above s_first or s_start; with the head not in front of the log area, all lie in [s_first, s_maxlen). |
| JournalLog.StopsExactly | src/ext4_impls/journal/mod.rs:203-252 | The walk stops exactly at a block without the magic, of another sequence, of an unknown type, or at a commit block that fails its checksum on a journal with checksums. |
| JournalLog.ScanLaid | src/ext4_impls/journal/mod.rs:180-278 | Transactions laid out from s_start, wrapping at s_maxlen back to s_first, then an uncommitted tail, then such a block or no more: the scan returns exactly the transactions with the positions of their data, drops the tail, and answers the last sequence, or the one before s_sequence. |
| JournalLog.ScanIsLaid | src/ext4_impls/journal/mod.rs:180-278 | Whatever the log holds, an Ok scan is that of some transactions and some tail laid out in it. |
| JournalLog.ScanFails | src/ext4_impls/journal/mod.rs:219-221 | A descriptor in that place that does not parse makes the scan fail with its error. |
| JournalLog.ScanClean | src/ext4_impls/journal/mod.rs:195-201 | A clean log holds no transaction, and its last sequence is the one before s_sequence. |
| JournalLog.AdvanceByRing | src/ext4_impls/journal/mod.rs:222-236 | The log area is a ring: advancing n blocks is adding n modulo its length. |
| JournalLog.BuildRevokeTable | src/ext4_impls/journal/mod.rs:523-552 | The three nested loops build the specified table, or fail on a bad checksum or a malformed block. |
| JournalLog.RevokeTableMeaning | src/ext4_impls/journal/mod.rs:523-552 | The table blocks replaying block b at sequence s exactly when some revoke block of a scanned transaction lists b with sequence at least s. |
| Journal.CommitWithCrash | src/ext4_impls/journal/mod.rs:300-516 | The commit issues exactly the specified writes and flushes, in order, up to the injected stop point; on an error it has touched nothing. |
| Journal.InOrderFacts | src/ext4_impls/journal/mod.rs:335-346 | The journaled blocks are each staged block once, with its staged content. |
| Journal.InOrderRises | src/ext4_impls/journal/mod.rs:335-346 | They are logged and checkpointed by increasing block number. |
| JournalRecovery.Recover | src/ext4_impls/journal/mod.rs:558-609 | Scan, revoke table, replay, head update and RECOVER off issue exactly the specified trace, and nothing when the scan finds no transaction. |
| JournalReplay.RecoveredIsRun | src/ext4_impls/journal/mod.rs:558-609 | The recovered image is what that trace leaves on an idle device, with nothing pending. |
| JournalMeaning.ReplayRight | src/ext4_impls/journal/mod.rs:565-581 | Replaying any scanned transactions gives each block outside the log the data of the last one that logged it and is not revoked at its sequence or later, and leaves the others. |
| JournalMeaning.RecoverMeaning | src/ext4_impls/journal/mod.rs:558-609 | The same for a whole recovery; the ext4 superblock additionally has RECOVER clear and its checksum refreshed, no other byte changed, and a log without transactions leaves the device as it is. |
| JournalFlag.SameFsMeaning | src/ext4_impls/journal/mod.rs:455-516 | Images with the same file system are equal outside the log, byte for byte, but for RECOVER and its checksum field. |
| JournalReplay.RecoverCrashIdempotent | src/ext4_impls/journal/mod.rs:558-609 | A crash at any point of a recovery, with any subset of its unflushed writes kept, followed by a recovery, gives the same file system as one recovery. |
| JournalReplay.SecondRecoveryIsNoop | src/ext4_impls/journal/mod.rs:558-609 | Recovering a recovered device issues no write at all. |
| JournalQuiet.QuietRecovers | src/ext4_impls/journal/mod.rs:559-562 | A log without a commit header at the live sequence or later makes recovery return early and change nothing; the head and the sequence stay for the next commit. |
| JournalQuiet.BodySurvivorQuiet | src/ext4_impls/journal/mod.rs:388-424 | Any subset of a log body reaching the medium, over the leftovers of an earlier use of the same sequence, leaves no live commit header and the file system untouched. |
| JournalCommitted.LoggedPending | src/ext4_impls/journal/mod.rs:442-455 | With body and commit block durable, in a transaction that fits the log, a scan finds exactly this transaction and replay writes exactly its blocks that are not revoked. |
| JournalCrashSafe.CommitCrashCases | src/ext4_impls/journal/mod.rs:300-516 | Every crash image of a commit is from before its commit block, from the checkpoint, or from after it. |
| JournalCrashSafe.CommitCrashAtomic | src/ext4_impls/journal/mod.rs:300-516 | Crash atomicity: for a transaction within the limits, whatever a crash at any point leaves of the unflushed writes, recovery gives all of it if its commit block is on disk and nothing of it otherwise, and the journal is ready for the next transaction. |
| JournalCrashSafe.CommitComplete | src/ext4_impls/journal/mod.rs:300-516 | A commit that runs to its end leaves all staged blocks in place, nothing pending, and the journal quiet at the next sequence. |
| JournalFlag.CommitFlag | src/ext4_impls/journal/mod.rs:458-512 | Where a commit stops, whatever a loss of power keeps of its unflushed writes: RECOVER is set after the commit block and during the checkpoint, clear after a full commit, with a fitting checksum; the rest of the superblock is the old one, or the staged one. |
| JournalFlag.DescriptorOfCommit | src/ext4_impls/journal/mod.rs:348-386 | The descriptor of a commit parses to one tag for each journaled block in order: its number, whether its copy was escaped, and in the widest layout the checksum of the copy under this sequence. |
| JournalLimits.AtomicIffHarmless | src/ext4_impls/journal/mod.rs:478-581 | Every crash of a commit that fits the log is all-or-nothing exactly when no block is both staged with new content and revoked. |
| JournalLimits.OverflowLosesCommit | src/ext4_impls/journal/mod.rs:348-424 | A transaction larger than the log overwrites its own descriptor; a crash right after its commit block recovers to the file system without it. |
| JournalLimits.DurableIff | src/ext4_impls/journal/mod.rs:442-476 | Power lost right after the commit block: recovery gives the staged file system exactly when it equals the old one, or the transaction fits the log and revokes nothing it changes. |
| JournalExample.Satisfiable | src/ext4_impls/journal/mod.rs:300-516 | The conditions of the crash theorems are met by a concrete journal and a transaction staging any block. |
| JournalExample.OversizedIsLost | src/ext4_impls/journal/mod.rs:348-424 | A concrete transaction larger than its log that the code accepts, with a crash image that loses it. |
| JournalExample.RevokedIsTorn | src/ext4_impls/journal/mod.rs:478-581 | A concrete transaction that stages and revokes one block, with a crash image that is neither all nor nothing. |
| JournaledDevice.JournalDevice.Begin | src/ext4_impls/journal/device.rs:52-58 | Opening nests: only the outermost opens a transaction, with the given sequence, and readers see no change. |
| JournaledDevice.JournalDevice.End | src/ext4_impls/journal/device.rs:63-74 | Only the outermost close hands the transaction over, and from then on readers see the inner device; a nested close changes nothing they see. |
| JournaledDevice.JournalDevice.ReadOffset | src/ext4_impls/journal/device.rs:99-122 | A read of any range, overlaid block by block, returns exactly what the view holds there. |
| JournaledDevice.JournalDevice.WriteOffset | src/ext4_impls/journal/device.rs:124-155 | A captured write of any range changes exactly those bytes of the view, stages exactly the blocks it reaches, and leaves the inner device alone; without a transaction it goes straight through. |
| JournaledDevice.OverlayIsStaged | src/ext4_impls/journal/device.rs:99-122 | What readers see while a transaction is open is the image its commit leaves. |
| JournaledFs.FileSystem.JournalBegin | src/ext4_impls/ext4.rs:135-141 | Reads the live sequence through the device and opens with it: a begin step of a run, failing only when the journal superblock does not parse. |
| JournaledFs.FileSystem.JournalEnd | src/ext4_impls/ext4.rs:148-159 | Closing is an end step of a run: the outermost close commits on success, drops on failure, and reports the error of a refused commit. With a crash point set it leaves an image that a loss of power during that commit may leave. |
| JournaledFs.StopThenMount | src/ext4_impls/ext4.rs:148-159 | Mounting what an injected stop left is a cut end of a run, so the durability of whole runs covers it. |
| DeviceRuns.StepKeeps | src/ext4_impls/ext4.rs:135-181 | Every begin, write, revoke, end, cut end and remount keeps: the journal is quiet at its live sequence, an open transaction carries exactly that sequence and stays clear of the log, and the file system changes by the transaction made durable only. |
| DeviceRuns.DeviceRunIsFold | src/ext4_impls/ext4.rs:135-181 | Durability over whole runs of nested operations with power losses anywhere: the disk is the fold, in order, of the transactions of outermost ends that returned Ok and of cut ones whose commit block made it. |
| DeviceRuns.OpenView | src/ext4_impls/journal/device.rs:99-155 | While operations are open, nested or not, the device below is untouched and readers see the bytes before with exactly the writes so far in place. |
| DeviceRuns.OperationCommits | src/ext4_impls/ext4.rs:166-171 | An outermost operation that commits leaves the file system readers saw at its end: the bytes at its begin with all its writes in place (outside the log, and up to the RECOVER flag). |
| DeviceRuns.OperationAborts | src/ext4_impls/ext4.rs:146-171 | An outermost operation that fails, or whose commit is refused, leaves no trace: the device and the view are those from before its begin. |
| DeviceRuns.NestedEndKeepsView | src/ext4_impls/journal/device.rs:63-74 | The end of a nested operation, failed or not, changes nothing readers see. |
| JournalRuns.RunIsFold | src/ext4_impls/journal/mod.rs:300-609 | The same fold, one level down: over commits, refusals, aborts, interrupted commits with interrupted recoveries, and remounts given as events of the journal. |
| Extents.MergeFlag | src/ext4_impls/extents.rs:278-363 | Merging keeps start and physical run, and keeps the flag unless an unwritten run becomes exactly 32768 blocks long. |
| Extents.FindSlotLookup | src/ext4_defs/extents.rs:283-333 | Searching by key and checking the range answers what a linear search of all extents does. |
| Records.BinarySearch | src/ext4_defs/extents.rs:283-333 | The binary search returns the last slot whose key is at most the one searched for, or slot 0. |
| Extents.InsertedLookup | src/ext4_impls/extents.rs:100-217 | Inserting an extent apart from all others is a map update on its range, unless the merge drops the flag. |
| Extents.InsertIsUpdateIff | src/ext4_impls/extents.rs:278-301 | It is a map update exactly when no merge makes an unwritten run of 32768 blocks. |
| Extents.FlagLostWitness | src/ext4_impls/extents.rs:278-301 | Two unwritten runs of 16384 blocks, apart and mergeable, whose merge drops the flag. |
| Extents.PunchedLookup | src/ext4_impls/extents.rs:866-920 | Splitting an extent around a range strictly inside it unmaps exactly that range and keeps the other blocks and their flags. |
| ExtentTree.ExtentTree.FindExtent | src/ext4_impls/extents.rs:20-97 | At any depth the search visits the nodes the key is routed to and answers the physical block of the mapping, or 0. |
| TreeShape.FillSplits | src/ext4_impls/extents.rs:589-627 | Splitting a full index node leaves the tree complete but for the new node's entry one level up, keys sorted, links exact, blocks distinct. |
| TreeShape.LeafSplits | src/ext4_impls/extents.rs:545-584 | Splitting a full leaf around a new entry inserts it into the ordered list and leaves the index short of exactly the new leaf's entry. |
| TreeShape.GrownFill | src/ext4_impls/extents.rs:631-678 | After the root grew by a level, the entry that did not fit goes into the child, and the tree is complete. |
| ExtentTree.ExtentTree.CorrectParentIndex | src/ext4_impls/extents.rs:428-457 | Lowers exactly the keys on the way to the leftmost leaf. |
| ExtentTree.ExtentTree.InsertIndexAtLevel | src/ext4_impls/extents.rs:589-627 | A separator inserted at any level, splitting upward as long as nodes overflow, completes the tree without changing the leaves. Its level takes it in its node, or with half of that node moved to the first free block, or in a grown tree. |
| ExtentTree.ExtentTree.SplitLeaf | src/ext4_impls/extents.rs:545-584 | A full leaf split, with its index entry inserted above, gives a complete tree with the new extent in its place; the leaf and its new sibling hold halves that differ by at most one entry. |
| ExtentTree.ExtentTree.InsertExtent | src/ext4_impls/extents.rs:100-217 | At any depth, through merge, room in the leaf, leaf split, node split and root growth: the tree stays valid (sorted, uniform depth, bounded and distinct nodes) and its map is the old one updated, unless the merge drops the flag. It takes at most one node for each level and one for growth, so it fails only with no more free nodes than the tree is deep. |
| ExtentTree.ExtentTree.PunchInside | src/ext4_impls/extents.rs:866-920 | Removing a range strictly inside an extent restricts the map to the kept blocks and returns the physical run unmapped, its start cut to 32 bits; it fails only with no more free nodes than the tree is deep. |
| ExtentRuns.BatchIsUpdateIff | src/ext4_impls/inode.rs:292-388 | Whatever mix of contiguous runs and maximum-length splits an allocation forms: block start + j maps to the j-th block with the flag asked for and nothing else changes, exactly when no insertion drops the flag. |
| ExtentRuns.InitialisedNeverLoses | src/ext4_impls/inode.rs:335-343 | A batch of initialised blocks never drops a flag. |
| ExtentRuns.LongRunLoses | src/ext4_impls/inode.rs:335-343 | One contiguous run of 32768 preallocated blocks is split at 32767, merged again, and reads as initialised. |
| ExtentBatch.GroupSegments | src/ext4_impls/inode.rs:319-333 | The grouping loop yields the physically contiguous segments. |
| ExtentRuns.SegmentsMaximal | src/ext4_impls/inode.rs:319-333 | No segment goes on where the one before it ends. |
| ExtentBatch.MapBatch | src/ext4_impls/inode.rs:292-388 | Mapping a batch into a tree of any depth inserts exactly those extents; the map is the updated one exactly under that condition. It fails only with fewer free nodes than so many insertions may take. |
| ExtentTruncate.KeptLookup | src/ext4_impls/extents.rs:1109-1180 | Cutting a list of extents at a block keeps the map in front of it, flags included, and unmaps the rest. |
| ExtentTruncate.FreedMeaning | src/ext4_impls/extents.rs:1109-1180 | The runs cut off, before their starts are narrowed, are exactly the physical blocks of the unmapped logical blocks. |
| FreedRuns.NarrowExact | src/ext4_impls/extents.rs:1408-1419 | With every start cut to 32 bits, runs that share no block still hold the same blocks exactly when each starts below 2^32. |
| ExtentTruncate.NarrowedMeaning | src/ext4_impls/extents.rs:1408-1419 | What a cut hands to the allocator is exactly the blocks it unmaps if every run cut off starts below 2^32; and only then, where no two logical blocks share a physical one. |
| ExtentTruncate.PunchedExact | src/ext4_impls/extents.rs:1408-1419 | A range inside one extent is handed over exactly when its physical run starts below 2^32. |
| ExtentTruncate.HighBlockLeaks | src/ext4_impls/extents.rs:1408-1419 | An extent at physical block 2^32, cut to one block: block 1, which the file never had, is freed, and the unmapped block is not. |
| ExtentTruncate.RemoveTail | src/ext4_impls/extents.rs:1057-1250 | On a non-empty tree of depth 0 the walk over the root slots leaves exactly the cut list and hands over its runs with 32-bit starts: exactly the unmapped blocks if and only if every run starts below 2^32. |
| ExtentTruncate.Truncate | src/ext4_impls/file.rs:719-745 | Truncation refuses to grow, and otherwise unmaps exactly the blocks beyond the new size; it frees exactly these if and only if every run of them starts below physical block 2^32. |
| ExtentHole.ReportedMapped | src/ext4_impls/inode.rs:115-124 | A mapped block is reported unwritten exactly when it is. |
| ExtentHole.HoleReported | src/ext4_impls/inode.rs:115-124 | A hole behind a preallocated block is reported unwritten too. |
| ExtentHole.RemoveHole | src/ext4_impls/extents.rs:924-1052 | Removing a range without extents, in a tree of depth at most 1, rewrites the leaf it visits and changes nothing. |
| FileBytes.FilledBytes | src/ext4_impls/file.rs:515-553 | Filling holes changes exactly the bytes of the file under which the device still held something, and none if the spare blocks hold zeros. |
| FileBytes.StaleByteShows | src/ext4_impls/file.rs:515-553 | One byte written to the start of an empty file: the byte behind it, a hole before, reads as what the spare block held. |
| FileBytes.ByteWritten | src/ext4_impls/file.rs:515-553 | With an injective map, writing into one block of a file changes those bytes of the file and no other. |
| FileData.File.ReadView | src/ext4_impls/file.rs:292-378 | The unaligned first piece and the block loop return exactly the requested bytes. |
| FileData.File.ReadAt | src/ext4_impls/file.rs:268-379 | Returns min(len, size - offset) bytes, zeros in holes and unwritten extents, and leaves the rest of the buffer alone. |
| FileData.File.FillHoles | src/ext4_impls/file.rs:466-502 | Maps every hole of the range to spare blocks, or reports the first hole left when they run out; nothing else is mapped. It fails only with fewer free nodes than so many insertions may take. |
| FileData.File.WriteAt | src/ext4_impls/file.rs:400-672 | On a range without preallocated blocks (holes that only look preallocated included, up to depth 1): the first n bytes read back, bytes of blocks already mapped and all mappings outside the range stay, size is the maximum; n is short only when the spare blocks ran out, and then ends where the first hole without one begins. Any other byte changes exactly if it lies in a filled hole over a device byte other than 0. ENOSPC comes only with no spare block for a hole that comes first, or with fewer free nodes than mapping the range may take. |
| HashLeaves.SortFirst | src/ext4_impls/htree.rs:820-875 | Sorting a leaf by hash does not change what a scan finds. |
| HashLeaves.SplitPoint | src/ext4_impls/htree.rs:841-855 | The split point is a place where the hash changes, the middle if it is one, and there is none exactly when all hashes are equal. |
| HashTree.LookupSlot | src/ext4_impls/htree.rs:263-275 | The linear lookup of an index block finds the slot whose range covers the hash. |
| HashIndex.IndexAgreesWithScan | src/ext4_impls/htree.rs:302-346 | A probe and a scan of one leaf answer what a scan of all leaves in any order does. |
| HashIndex.SplitFinds | src/ext4_impls/htree.rs:820-875 | No search notices a leaf split on a hash boundary. |
| HashIndex.InsertFinds | src/ext4_impls/htree.rs:880-916 | Inserting a new name changes the search for that name only. |
| HashTree.HashTree.FindEntry | src/ext4_impls/htree.rs:329-346 | A probe through the index blocks and a scan of the leaf find exactly the entry of that name. |
| HashTree.HashTree.AddToIndex | src/ext4_impls/htree.rs:660-705 | An index entry inserted at a level, through node splits and depth growth, completes the index and leaves the leaves alone. |
| HashTree.HashTree.SplitLeaf | src/ext4_impls/htree.rs:820-875 | A split leaf leaves every search as it was and the index short of exactly the new leaf's entry. |
| HashTree.HashTree.AddEntry | src/ext4_impls/htree.rs:880-916 | After a successful insertion the new name and every earlier one are found with the right inode and absent names stay absent. It succeeds if the leaf has a gap; otherwise it fails only if the half has none after the split, all names of the leaf share a hash, the spare blocks do not last, or the index is full at its largest depth. |
| Bitmap.FindClr | src/utils/bitmap.rs:34-93 | The least clear bit of the range, through its bit, byte and tail loops, or none exactly when there is none. |
| Bitmap.BitsFree | src/utils/bitmap.rs:99-103 | Clears exactly the bits of the range. |
| BlockGroups.AddressRoundTrip | src/ext4_impls/balloc.rs:14-68 | Group and index are the inverse of the address, with and without a first data block. |
| BlockAlloc.Allocator.AllocBatch | src/ext4_impls/balloc.rs:473-707 | The blocks are the first asked for of those free and unreserved, group by group from the start group, rising within each; they are now marked, the counters exact, and the group to go on with is the one behind the last visited. |
| BlockAlloc.Allocator.AllocBlock | src/ext4_impls/balloc.rs:78-202 | One block, of the first group from the goal's on with one to pick; it fails exactly when none has, which with reserved zones marked is when every group is full from the goal's index on. |
| BlockAlloc.MarkedPick | src/ext4_impls/balloc.rs:118-190 | With the system zones marked in use, the block picked in a group is its first clear one from the goal's index on. |
| BlockAlloc.Allocator.FreeBlocks | src/ext4_impls/balloc.rs:378-447 | A free range crossing any number of groups clears exactly its bits and returns them to exact group, superblock and inode counters. |
| BlockAlloc.AllocThenFree | src/ext4_impls/balloc.rs:378-447 | Freeing what one allocation returned restores every mark. |
| BlockAlloc.AllocateAndFree | src/ext4_impls/balloc.rs:378-707 | A batch allocated and then freed block by block: every mark and the counters of groups, superblock and inode are what they were. |
| InodeAlloc.NumberRoundTrip | src/ext4_impls/inode.rs:9-22 | Inode numbers and (group, index) pairs correspond. |
| InodeAlloc.InodeAllocator.Alloc | src/ext4_impls/ialloc.rs:7-83 | Hands out the lowest free inode, or ENOSPC exactly when all are in use; counters stay exact, and only that group's high-water mark changes, to the least that covers the inode. |
| InodeAlloc.InodeAllocator.Free | src/ext4_impls/ialloc.rs:85-123 | Clears exactly that inode's bit and keeps the counters exact and the high-water mark. |
| InodeAlloc.AllocThenFreeInode | src/ext4_impls/ialloc.rs:7-123 | Allocating and freeing restores every bit and every free count. |
| XattrLayout.NoOverlap | src/ext4_impls/xattr.rs:121-175 | In a serialised region entries, values and the terminator do not overlap. |
| XattrLayout.ParseSerialized | src/ext4_impls/xattr.rs:224-267 | A serialised region parses back to its attributes, in order. |
| XattrSerialize.SortFacts | src/ext4_impls/xattr.rs:128-129 | The attributes are sorted by index and name, none lost. |
| XattrSerialize.Serialize | src/ext4_impls/xattr.rs:50-91 | Succeeds exactly when every entry, value and the terminator fit, and then the region holds all of them. |
| XattrStore.RegionParses | src/ext4_impls/xattr.rs:50-91 | Serialising and parsing gives the attributes sorted by index and name. |
| XattrNames.SplitThenJoin | src/ext4_impls/xattr.rs:179-208 | Joining the parts of a full name gives the name back. |
| XattrNames.JoinThenSplit | src/ext4_impls/xattr.rs:179-208 | Splitting a joined name gives the stored parts back exactly when they are parts the splitter produces. |
| XattrStore.XattrFile.Get | src/ext4_impls/xattr.rs:328-339 | The value of the first entry of that name, or ENODATA. |
| XattrStore.XattrFile.Set | src/ext4_impls/xattr.rs:430-458 | EEXIST, ENODATA, ENOTSUP and ENOSPC in exactly their cases; on success it is a map update exactly when the stored name has at most 255 bytes; on ENOSPC the attributes in the inode body are gone, so the contents stay exactly when it held none. |
| XattrStore.LongNameIsLost | src/ext4_impls/xattr.rs:77 | Any name of 256 to 900 bytes, set on an empty file, is stored with success and then not found. |
| XattrStore.NoSpaceDropsOthers | src/ext4_impls/xattr.rs:507-509 | After a small attribute, setting another of any value too large for body and block fails, and the first is gone. |
| XattrStore.XattrFile.Remove | src/ext4_impls/xattr.rs:465-479 | Removes exactly that attribute, from whichever places hold it, or reports ENODATA. |
| XattrStore.XattrFile.Store | src/ext4_impls/xattr.rs:484-511 | Succeeds exactly when the set is empty, fits the body while no block is in use, or fits a block that exists or can be allocated; the file then holds exactly the set, sorted, in that place, a block with its header and checksum. |
| XattrStore.NamesInOrder | src/ext4_impls/xattr.rs:342-350 | The names listed are those of the entries one by one: in storage order, each as often as it is stored. |
| XattrStore.ListedIffFound | src/ext4_impls/xattr.rs:342-350 | For any stored entries, a name is listed exactly when a search finds it or an entry is stored under parts the splitter never produces but joins to it. |
| XattrStore.ListedNotFound | src/ext4_impls/xattr.rs:342-350 | An access list stored with a name of its own is listed under a name that a search does not find. |
| DirBlock.Find | src/ext4_impls/dir.rs:102-131 | On a block tiled by records the walk ends, and finds the first live record of that name, or none exactly when no live record has it. |
| DirBlock.TryInsert | src/ext4_impls/dir.rs:327-403 | Splits the first live record with room: the block stays tiled, the checksum tail is kept, and exactly the new entry is added behind it; refuses exactly when no live record has room. |
| DirBlock.RoundedUp | src/ext4_impls/dir.rs:334-373 | The room asked for and the room a record uses are the least multiples of four that hold them. |
| DirBlock.NewBlock | src/ext4_impls/dir.rs:411-429 | The first record of a fresh block fills it. |
| DirBlock.Remove | src/ext4_impls/dir.rs:431-480 | Merges the record into its predecessor, or leaves an unused first slot: the block stays tiled and exactly the first entry of that name is gone. |
| DirBlock.SetTarget | src/ext4_impls/dir.rs:486-511 | Exactly the first entry of that name has a new inode and kind. |
| NameTree.PathFromRoot | src/fuse_interface/mod.rs:787-807 | In a sound tree every directory is reached from the root by proper names. |
| NameTree.RenameSound | src/fuse_interface/mod.rs:758-780 | Moving a name to a free one, its directory not moved below itself, keeps the tree: one parent per directory, no loop, exact link counts. |
| NameTree.ExchangeSound | src/fuse_interface/mod.rs:827-871 | Exchanging two names keeps the tree, for every mix of files and directories. |
| Namespace.Namespace.IsAncestor | src/fuse_interface/mod.rs:787-807 | The upward walk ends and answers whether a directory is the other or above it. |
| Namespace.Namespace.Create | src/ext4_impls/file.rs:27-97 | A new file or directory keeps the tree and adds exactly its name; without an inode or room for an entry it answers ENOSPC and changes nothing. |
| Namespace.Namespace.Link | src/ext4_impls/file.rs:27-67 | A further name for a file adds exactly that name and one link, or answers ENOSPC and changes nothing. |
| Namespace.Namespace.Unlink | src/ext4_impls/ext4.rs:293-323 | Removes exactly that name and one link, and the inode with its last link. |
| Namespace.Namespace.RemoveDirectory | src/ext4_impls/dir.rs:571-603 | Removes exactly an empty directory and its parent's credit, and refuses otherwise. |
| Namespace.Namespace.Rename | src/fuse_interface/mod.rs:690-783 | Answers each error in exactly its case and then has changed nothing; otherwise exactly the one name moved, replacing a file or an empty directory, and the tree is sound. The inode table loses the replaced inode, or a link of it, and moves a directory's credit between the parents; no other inode changes. Without room for the entry only the replaced name is gone. |
| Namespace.Namespace.Exchange | src/fuse_interface/mod.rs:827-871 | Answers each error in exactly its case; otherwise exactly the two names traded targets, no inode but the two parents changes, and these by what they gained and lost; the tree is sound. |

## Left out

- DirBlock.TryInsert: the unaligned reads of whole in-memory records near the end of a block are modelled as reads of
  their fields only.
- HashTree.HashTree.AddEntry: whether a leaf has a gap for the entry, before and after a split, is a parameter, since the
  records of a leaf are kept as a list of entries.
- HashTree.HashTree.GrowDepth: at most one indirect level; with LARGEDIR the code inserts at the lowest index level
  whatever node overflowed.
- Lookups of `.` and `..` in indexed directories, which live in the root block and are never probed.
- ExtentTree.ExtentTree.InsertExtent: what is left behind when space for a node runs out midway; the surrounding
  transaction drops it. The in-memory inode only: a merge in the root is not written back by the code at that place.
- ExtentTree.ExtentTree.PunchInside: removal of an extent's prefix, of whole extents with survivors to their right, and
  across leaves; the compaction of the code does not cover them.
- ExtentHole.RemoveHole: trees with two or more index levels.
- ExtentTruncate.RemoveTail: trees with index nodes, and empty trees, on which the code panics.
- FileData.File.WriteAt: writes over preallocated blocks, which first remove them; read-back verification of each block,
  which cannot fail on the modelled device; that data blocks and node blocks are disjoint, since free blocks are given
  as lists of distinct numbers and nodes are kept apart from data.
- FileData.File.ReadAt: log messages.
- BlockAlloc.Allocator.AllocBatch: counters have no upper bound; the second search of a group is one probe.
- `allocate_new_block`, `balloc_alloc_block_from`, `append_inode_pblk` and `get_last_extent`: variants of what is modelled.
- InodeAlloc.InodeAllocator.Alloc: every group holds s_inodes_per_group inodes, as the format demands.
- Checksums of group descriptors, bitmaps, node blocks, directory blocks and inodes, but for those of the journal and
  the ext4 superblock.
- XattrStore.XattrFile.Set: values in inodes of their own (EA_INODE), where the code succeeds and the contract has ENOSPC;
  and the checksum's dependence on the block number.
- XattrStore.XattrFile.Get: an attribute whose value lies in an inode of its own; the model reads an empty value.
- XattrStore.XattrFile.Remove: attributes whose values lie in inodes of their own, which the code frees or stores again.
- XattrStore.XattrFile.Store: large values stored in inodes of their own.
- Namespace.Namespace.Create: whether every entry finds room is a parameter, and a failure leaves the state before,
  since the surrounding transaction is dropped; without a journal the new inode would stay marked.
- Namespace.Namespace.Link: whether the entry finds room is a parameter.
- Namespace.Namespace.Rename: file contents freed with a replaced name, and indexed directories; a failure for lack of
  space after the old target was removed leaves a sound tree without it, which the surrounding transaction drops.
- Data-block checksums in tags, which recovery does not verify; commit timestamps and the metadata flag of a staged
  block, which nothing reads.
- Direct writes to the capturing device without a transaction, other than those of the commit itself, in whole runs.
- File and FUSE I/O, path parsing, permissions, access lists, locks, timestamps, ioctl and poll.
