# scftl: a model and its proofs

scftl is a flash translation layer whose disk takes snapshots: `flush` makes everything that was
written permanent at once, and after a crash `recovery` brings back exactly the contents of one
flush. The repository builds an xv6 file system on it, whose log can therefore do without a log
area, and compares that with an ordinary redo log. This project models that code in Dafny and
proves what it is for. Every Dafny file is verified together with the others:
`dafny verify dfyconfig.toml`.

## What is proved

**The snapshot disk (`src/ftl.c`, `src/disk.c`, `src/flashemu.c`, `src/crash-test.c`).** The
device is an array of cells in which everything that is not synced may turn into anything when
power is lost. On it stand the block list, the mapping tables, the merge buffer, the checkpoints
and the layer, each a class whose arrays are updated in place as in the source.

- `CrashRuns.Run`: any sequence of reads, writes, flushes, steps of the collector and power losses,
  with crashes inside any of them and inside recoveries, is a run of a specification with two arrays,
  the one that the host reads and the one that a recovery brings back. A crash inside a flush leaves
  the old snapshot or the new one, and throughout the run every page is programmed only once between
  erases and the pages of a block in ascending order. Without crash simulation nothing in the run is
  interrupted, so every flush completes. `CrashRuns.SnapshotIsOneFlush` says what that means for the data, and
  `CrashRuns.CrashTest` is the repository's own crash test, which passes whatever it asks.
  `CrashRuns.Lifetime` starts from the formatting of the device, with no assumption about it.
- `SnapshotDisk.Disk.Flush`: the loop that runs the collector before a flush ends, from every
  reachable state, and with the flush done unless a simulated crash comes first. The measure is made of the copies left, the blocks in use and the position in
  the victim; `Collector.SpentMeansReady` and `BlockManagement.VictimBound` are the counting behind it.
- `Collector.ReserveHolds`: the reserve of 36 ready blocks outlasts every interleaving of writes and
  copies up to the next flush, so no block is taken that is not erased. `Sizing` keeps the account of the
  space for any sizes: each write and copy takes a sector and a pair of the log, the collector takes victims
  with up to so many live sectors, a flush settles it. Over all its runs a block is ready exactly if an epoch
  writes and copies no more than the reserve without one block holds (`Sizing.Sizes.ReserveLastsIff`), the
  collector always gets a flush going exactly if it retires more blocks than the epoch takes
  (`Sizing.Sizes.CopiesLastIff`), and the log of the map stays in its region exactly if
  `Sizing.Sizes.LogLastsIff` says so. These conditions are enough for all sizes, and exact where the collector
  does not run out of victims before it runs out of copies. `Accounts` shows that the steps of the layer are
  moves of the account.
- `Checkpointing.Checkpoint.WriteBack` and `TranslationLayer.Ftl.RecoverCheckpoints`: at every flash
  operation on the way from one full checkpoint to the next, recovery would find the same map;
  `Snapshot.ReplayIdempotent` is why the old log may be replayed on the new checkpoint.
- The invariant `Good` holds at every step: the tables are inverse to each other and the counts exact,
  the log replays to the current map, and no page of the committed map is where a block may be erased
  or a page programmed before the next commit (`LayerState.CommittedUntouched`).

**The logs on top (`xv6/asynclog.c`, `xv6/sclog.c`, `xv6/sclog-gcm.c`).** `Transactions` specifies a
disk with atomic transactions. `LogRuns.RedoRun` shows that the redo log refines it over a disk on which
any subset of the unflushed writes may survive, with crashes anywhere, also repeatedly in recovery.
`LogRuns.SnapshotRun` shows that the log over the snapshot disk refines the same specification, and
that the group form refines it with commits that become durable together: a recovery brings back what the
operations saw when the last of them ended, and loses fewer than 200 nonempty commits
(`Transactions.HomeIsOneCommit`). Both say exactly which operations are admitted, when `log_write` fails, and
when a commit finds no room on the disk, from the events alone. Three promises turn out to hold only under
conditions:

- An operation is admitted on a reservation of ten blocks. If no operation writes more than `b` different
  blocks, `log_write` of the redo log never panics exactly if `10 + 2 * b` is less than what the log takes,
  the smaller of `LOGSIZE` and the size of the area without its header (`Admission.NeverPanics`). With the
  area that `mkfs` makes that is `b < 10` (`Admission.ShippedSize`). For operations that use their
  reservation no area is large enough, since the test for a full log comes before the search for the block
  (`Admission.NoSizeSuffices`); `Admission.PanicRun` drives the log there.
- The log over the snapshot disk has no such test, and its list never overruns exactly if operations keep to
  their reservation (`Admission.NeverOverruns`).
- The group form flushes once in 200 commits, while the disk takes 2048 writes between flushes and
  silently drops the others. A commit stores its transaction whole, whatever the contents, exactly if the
  writes so far and its own blocks fit (`GroupCommits.StoredWholeIff`). Over all runs they always fit exactly
  if no transaction has more than ten blocks (`GroupCommits.GroupFits`), which is so when operations do not
  overlap (`GroupCommits.AloneFits`). If they overlap, no bound on their blocks helps
  (`GroupCommits.NoBoundFits`): operations of one block each that log eleven blocks together get to the overflow
  at their 187th commit, which reports success, and the disk stores two of the eleven blocks
  (`GroupCommits.LostBlocks`).

**The buffer cache (`xv6/bio.c`, `xv6/ide.c`).** The links always form one ring of all buffers in the
order of their last release, no sector is cached twice, what is recycled is on the disk, and pinned
buffers stay. Releasing a buffer keeps the cache coherent exactly if it is pinned or has been written
since it was changed (`BufferCache.Bcache.Brelse`). Up to a release that does not, every sequence of calls is a
run of a specification without buffers (`CacheRuns.CacheLife`), in which each answer is to the call that was
made, a call with a buffer is about the sector that was got with it, a sector is what it was given last and is
on the disk what was written last (`CacheRuns.Transparent`). `CachedLog` puts the log over the snapshot disk
on the cache: the buffers that are pinned are those of the transaction, and everyone sees what the log says.
After a commit the buffers agree with the disk exactly if the disk has stored the transaction whole
(`CachedLog.Commit`). `CachedRuns.CachedRun` is the run theorem of the log with all reads and writes going
through the cache.

**The radix array (`bench/sv6/include/radix_array.hh`).** `RadixArrays.Fill` refines the filling of a flat
array whatever the compression, and leaves other iterators valid. The array stays compressed: no node is made
that lies inside the filled range, so each slot in it is stored as one (`RadixArrays.StoredAsOne`), and
`RadixArrays.Iterator.Span` skips exactly the rest of the slot that stores the value.

**The balanced tree (`bench/sv6/attic/bonsai.c`).** The insertions and removals of `BonsaiHeap`, with their
in-place updates, refine map updates and account for every node: none is leaked, freed twice, or freed while it
is in the tree. `BonsaiBalance.AlwaysBalanced` shows that the rotations, which balance again what they move,
keep the bound of four between the sides of every node over any sequence of insertions and removals. Hence the
height of the tree is logarithmic in its size (`BonsaiBalance.Shallow`).

**Virtual blocks (`src/vblk.c`).** `Striping.Stripes.ApartIff` gives the geometries for which the placement of
pages of virtual blocks is injective: those where the blocks divide the pages, and the channels divide the
blocks or there is one block only. The start of the program checks neither. Nor does it check that the
physical blocks fill up a virtual one, without which erasing misses pages (`Striping.Stripes.ErasesIff`).

## How it is modelled

- A crash is an `Outcome` of the operations that wait for the device, possible only if crashes are simulated
  (`crash_sim`), and power may also be lost between two operations. After a crash only a recovery may follow.
- The flash is a matrix of cells with a flag that says whether a cell is synced; ghost fields hold the
  value of each array, so that the steps of the layer can be proved on values (`LayerState`, `Collector`)
  and the methods tied to them.
- The sizes are those of the source. `Geometry.DependentParameters` says how the derived ones follow.
- Words are 32 bits and valid counts 16 bits, with wrap-around where the source has it; the counts are
  proved never to wrap.
- The background disk of the redo log keeps, for each sector, the set of values that it may hold after a
  crash; a write adds to it and a flush leaves one.
- Nodes of the radix array and of the balanced tree are numbers in a list that only grows, in place of
  pointers; a freed node stays in the list and is remembered as freed.
- The buffers' data and flags, their `prev` links and their `next` links are three arrays.

## Model

| member | source | states |
|---|---|---|
| Geometry.DependentParameters | src/ftl.c:16-39 | every derived parameter has the value that its definition gives |
| Geometry.PsaRoundTrip | src/ftl.c:48-50 | block, page and half of a sector address give the address back |
| Geometry.PsaSplit | src/ftl.c:48-50 | an address is made up of its block, page and half, each in range |
| FlashDevice.Flash.Crash | src/flashemu.c:19-29 | synced cells survive, all others may hold anything |
| FlashDevice.Flash.ReadBulk | src/flashemu.c:43-56 | every word of the buffer is the word of its block and page |
| FlashDevice.Flash.Program | src/flashemu.c:58-73 | one cell changes and is synced if asked; a crash happens only in a synced call while crashes are simulated, before the cell changes; whether the order of programming was kept is recorded |
| FlashDevice.Flash.ProgramBulk | src/flashemu.c:75-88 | the blocks hold the pages of the buffer, unsynced, and no other block changes |
| FlashDevice.Flash.Erase | src/flashemu.c:90-107 | the whole block is erased, synced if asked, and no other block changes; a crash happens only in a synced call while crashes are simulated |
| FlashDevice.Flash.EraseBulk | src/flashemu.c:109-122 | the given blocks are erased, unsynced, and no other |
| FlashDevice.Flash.Sync | src/flashemu.c:124-136 | nothing changes and everything is synced, unless a simulated crash comes first |
| FlashDevice.UnsyncedWorkWidens | src/flashemu.c:58-73 | unsynced work never takes away anything that a crash could have left |
| Mapping.InverseIsInjective | src/ftl.c:172-203 | a map with an inverse is injective |
| Mapping.CountUpdate | src/ftl.c:719-726 | moving a sector changes the count of its old and its new block and of no other |
| Mapping.CountBounded | src/ftl.c:494-513 | an injective map puts no more sectors into a block than it has |
| Mapping.SumBounded | src/ftl.c:494-513 | the counts of all blocks add up to no more than the sectors counted |
| Mapping.RemapConsistent | src/ftl.c:719-726 | moving a sector to a free place keeps inverse and counts exact, and no 16-bit count wraps |
| Mapping.Tables.Remap | src/ftl.c:719-726 | the three tables after one sector has moved, and that they stay consistent |
| Mapping.Tables.ReconstructP2l | src/ftl.c:893-897 | the rebuilt inverse is exact |
| Mapping.Tables.ReconstructVcnts | src/ftl.c:899-903 | the rebuilt counts are exact |
| Mapping.Tables.Reconstruct | src/ftl.c:893-903 | recovery's rebuild makes the tables consistent from the map alone |
| Mapping.Tables.CheckInjective | src/ftl.c:173-203 | the check fails exactly if two sectors share a place |
| BlockManagement.ReadyCount | src/ftl.c:153-170 | used, active and ready blocks make up all data blocks |
| BlockManagement.ChooseKeepsRing | src/ftl.c:206-211 | when a block is opened the list still holds every data block once, each in the queue of its role |
| BlockManagement.RetireKeepsRing | src/ftl.c:820-823 | the same when the victim is retired |
| BlockManagement.ReleaseKeepsRing | src/ftl.c:213-216 | the same when all retired blocks become erasable |
| BlockManagement.BlockList.ChooseFreeBlock | src/ftl.c:206-211 | an erased block becomes active, the active one used, the ring stays in order |
| BlockManagement.BlockList.MakeAllInvalidBlocksErasable | src/ftl.c:213-216 | all retired blocks, and no others, become erasable |
| BlockManagement.BlockList.MakeOneErasableBlockFree | src/ftl.c:218-222 | one erasable block is erased and becomes usable |
| BlockManagement.BlockList.FindIndexOfVictimBlock | src/ftl.c:784-800 | the index is that of a used block with the least count |
| BlockManagement.BlockList.ChooseVictimBlock | src/ftl.c:784-818 | a used block with the least count comes to the head of the used queue |
| BlockManagement.BlockList.MakeVictimBlockInvalid | src/ftl.c:820-823 | the head of the used queue, and no other block, is retired |
| BlockManagement.SwapKeepsRing | src/ftl.c:802-812 | swapping two blocks of one queue keeps the ring |
| BlockManagement.VictimBound | src/ftl.c:777-818 | a victim has at most N_LAS / THRESHOLD_GC live sectors |
| BlockManagement.TouchedAtMost | src/ftl.c:162-170 | blocks in use and ready blocks are no more than the data blocks |
| BlockManagement.UsedSpan | src/ftl.c:784-800 | the used queue is exactly the stretch from its cursor to the active block |
| BlockManagement.BlockList.IdentifyUsedBlocks | src/ftl.c:263-283 | a block is marked exactly if some sector lives in it |
| BlockManagement.BlockList.CategorizeUsedAndErasableBlocks | src/ftl.c:235-261 | the list becomes a permutation with exactly the blocks in use first |
| BlockManagement.BlockList.ReconstructBlockList | src/ftl.c:285-295 | the rebuilt list is partitioned into used and erasable blocks |
| BlockManagement.BlockList.OpenFirstBlock | src/ftl.c:932-934 | an erasable block is erased and opened, which makes the ring |
| Snapshot.ReplayIdempotent | src/ftl.c:414-449 | replaying the log on a map that reflects it changes nothing |
| Snapshot.CommittedIs | src/ftl.c:378-405 | the scan stops behind the last committed page |
| Snapshot.DecodesAgrees | src/ftl.c:371-449 | images that agree where recovery looks decode to the same map |
| Snapshot.CrashAgrees | src/ftl.c:371-449 | a crash changes nothing where recovery looks, if that is synced |
| Snapshot.SwitchFull | src/ftl.c:609-646 | a new full checkpoint under the old log decodes to the same map |
| Snapshot.DropLog | src/ftl.c:580-589 | without its first page the log is ignored |
| Snapshot.FreshLog | src/ftl.c:580-589 | a log that starts with an empty committed page changes nothing |
| Snapshot.RegionBound | src/ftl.c:378-412 | recovery replays exactly the pages up to the last committed one |
| Snapshot.AppendKeepsRegion | src/ftl.c:568-578 | the next page keeps the region in order and is programmed in order |
| Snapshot.AppendTentative | src/ftl.c:568-578 | a tentative page does not change what recovery finds |
| Snapshot.AppendCommitted | src/ftl.c:568-578 | a committed page makes recovery find the current map |
| Snapshot.AppendFaithful | src/ftl.c:659-665 | a full buffer that becomes a page leaves the log faithful to the map |
| Snapshot.DurableSurvives | src/ftl.c:905-925 | what is durable stays so after any crash, however often |
| Checkpointing.Checkpoint.ResetDeltaBuf | src/ftl.c:541-559 | the buffer holds no pair |
| Checkpointing.Checkpoint.AppendDeltaPair | src/ftl.c:561-566 | the next pair of the buffer is filled in, and no other |
| Checkpointing.Checkpoint.CreateOneDeltaChkpt | src/ftl.c:568-578 | the buffer becomes the next page of the region, or a crash leaves what a crash may |
| Checkpointing.Checkpoint.DeleteAllDeltaChkpts | src/ftl.c:580-589 | the region is emptied and started again, and at every step recovery finds the same map |
| Checkpointing.Checkpoint.CreateFullChkpt | src/ftl.c:609-617 | the unused slot holds the map and is committed, and at every step recovery finds the same map |
| Checkpointing.Checkpoint.DeleteFullChkpt | src/ftl.c:619-627 | the old slot is erased, its commit record first, and recovery finds the same map throughout |
| Checkpointing.Checkpoint.FindCommittedFullChkpt | src/ftl.c:636-640 | the slot found is the one that the commit records choose |
| Checkpointing.Checkpoint.FindLastCommittedDeltaChkpt | src/ftl.c:377-405 | the two cursors point just behind the last committed page |
| Checkpointing.Checkpoint.ApplyDeltaChkpt | src/ftl.c:414-449 | every sector goes where replaying exactly the committed pages sends it |
| Checkpointing.Checkpoint.ReadMap | src/ftl.c:907-915 | the map read back is the one that the image decodes to |
| Checkpointing.Checkpoint.WriteBack | src/ftl.c:764-769 | full checkpoint and log are replaced with recovery finding the same map at every flash operation |
| Merging.MergeBuffer.Invalidate | src/ftl.c:298-304 | the buffer holds no sector |
| Merging.MergeBuffer.CopyData | src/ftl.c:348-357 | the sector is added behind those already there |
| LayerState.ErasableUnused | src/ftl.c:213-222 | neither the current nor the committed map uses an erasable block |
| LayerState.CommittedUntouched | src/ftl.c:753-775 | no page of the committed map is in a block that may be erased or opened, or still to be programmed |
| LayerState.EraseBlockPlaces | src/ftl.c:218-222 | erasing an erasable block makes it a usable one: all usable blocks are erased, and what the maps point to is where it was |
| LayerState.EraseBlockKeeps | src/ftl.c:218-222 | erasing an erasable block keeps the invariant, the snapshot included |
| LayerState.PersistKeeps | src/ftl.c:321-334 | programming the merge buffer keeps the invariant and the order of programming |
| LayerState.PersistView | src/ftl.c:321-334 | it changes no sector that the host sees |
| LayerState.AdvanceKeeps | src/ftl.c:206-211 | opening the next block keeps the invariant |
| LayerState.AssignKeeps | src/ftl.c:710-736 | giving a sector its next place keeps the invariant |
| LayerState.AssignView | src/ftl.c:710-736 | the host sees the new contents in that sector and the old ones elsewhere |
| LayerState.TentativeKeeps | src/ftl.c:659-665 | writing out the full delta buffer keeps the invariant |
| LayerState.CommitKeeps | src/ftl.c:753-775 | the committed page makes the current map the snapshot and keeps the invariant |
| LayerState.ReleaseKeeps | src/ftl.c:753-775 | releasing the retired blocks after the commit keeps the invariant |
| LayerState.RewrittenKeeps | src/ftl.c:764-769 | a rewrite of the checkpoints keeps the invariant |
| LayerState.InvReady | src/ftl.c:162-170 | with 36 blocks ready the map leaves that many blocks for a recovery |
| LayerState.FormattedDurable | src/ftl.c:942-950 | a formatted device is one that recovery can start from |
| Sizing.Sizes.RunSound | src/ftl.c:710-883 | in every run of the account all sectors written and copied since the last flush are paid for from a reserve of whole blocks, and are in the log |
| Sizing.Sizes.ReserveLastsIff | src/ftl.c:676-681 | over all runs of the account no step and no flush finds all blocks taken, exactly if writes and copies are at most what the reserve without one block holds |
| Sizing.Sizes.CopiesLastIff | src/disk.c:16-22 | over all runs of the account a collector that has used up its copies has made a flush possible, exactly if it has to retire more blocks than the epoch takes |
| Sizing.Sizes.LogLastsIff | src/ftl.c:597-600 | over all runs of the account every page of the log of the map, the commit page included, is in the region, exactly if the pairs of an epoch fit behind the threshold |
| Sizing.Sizes.ThresholdIff | src/ftl.c:25 | with the threshold of the source, which counts the writes only, exactly if the copies and the rest of the writes fit two blocks of the log |
| Accounts.Shipped | src/ftl.c:7-26 | the sizes of the source meet the three conditions, which are exact for them |
| Accounts.PlaceIs | src/ftl.c:710-736 | a write, or a copy, from making room to appending the pair, is a move of the account |
| Accounts.StartIs | src/ftl.c:814-818 | so is the choice of a victim |
| Accounts.FinishIs | src/ftl.c:820-823 | and its retirement |
| Accounts.FlushIs | src/ftl.c:753-775 | and a flush, with the checkpoints rewritten or not |
| Collector.ReserveHolds | src/ftl.c:676-681 | within an epoch there is always a usable or an erasable block |
| Collector.LogHasRoom | src/ftl.c:597-600 | the delta region never fills up within an epoch |
| Collector.SpentMeansReady | src/disk.c:16-22 | a collector that has used up its copies has made 36 blocks ready |
| Collector.VictimSector | src/ftl.c:825-878 | a valid lsa_gc is the sector that lives under the collector, and flash has its contents |
| Collector.VictimEmpty | src/ftl.c:825-878 | no sector maps into a victim when it is retired |
| Collector.WriteCollecting | src/ftl.c:710-736 | a host write, also of the sector under the collector, keeps what the collector knows |
| Collector.CopyCollecting | src/ftl.c:825-878 | a copy keeps what the collector knows |
| Collector.AssignBudget | src/ftl.c:710-736 | each write and each copy costs one sector of the reserve and one pair of the log |
| Collector.WriteGood | src/ftl.c:710-736 | a write keeps the invariant of the layer |
| Collector.CopyGood | src/ftl.c:825-878 | a copy keeps it |
| Collector.StartGood | src/ftl.c:814-818 | choosing a victim with the least count keeps it |
| Collector.RetireGood | src/ftl.c:820-823 | retiring the emptied victim keeps it |
| Collector.EpochGood | src/ftl.c:753-775 | the end of a flush starts an epoch with a full reserve |
| Collector.RecoveredGood | src/ftl.c:905-940 | the state that recovery builds satisfies it |
| TranslationLayer.Ftl.MakeOneErasableBlockFreeWhenFreeBlklistEmpty | src/ftl.c:676-681 | nothing happens if there is a usable block; otherwise one erasable block becomes the only usable one |
| TranslationLayer.Ftl.PersistMergeBuffer | src/ftl.c:321-334 | the merge buffer is programmed and empty, and only the current block's bookkeeping has changed |
| TranslationLayer.Ftl.Write | src/ftl.c:710-736 | the host sees the new sector, or nothing new if it is out of range or over the budget; the snapshot stays |
| TranslationLayer.Ftl.Read | src/ftl.c:690-708 | a read returns what the host last stored, and nothing out of range |
| TranslationLayer.Ftl.GcCopy | src/ftl.c:825-878 | a step of the collector changes nothing that the host sees; it takes a victim if enough blocks are used, moves on by exactly one sector, or lets go of the victim at its end, and makes progress |
| TranslationLayer.Ftl.GcErase | src/ftl.c:880-883 | one erasable block, if there is any, is erased and becomes usable, and the layer stays valid |
| TranslationLayer.Ftl.CollectorCanWork | src/disk.c:16-22 | while a flush has to wait, the collector has copies left and a victim to find |
| TranslationLayer.Ftl.Flush | src/ftl.c:753-775 | the snapshot becomes what the host sees; a crash leaves the old or the new one whole |
| TranslationLayer.Ftl.WriteBackWhenRegionAlmostFull | src/ftl.c:764-769 | the log is rewritten before it can run out, and only from the threshold on |
| TranslationLayer.Ftl.RecoverCheckpoints | src/ftl.c:907-925 | the map is rebuilt and checkpointed anew; a crash on the way loses nothing |
| TranslationLayer.Ftl.RebuildBlocks | src/ftl.c:927-934 | exactly the blocks in use are used, the reserve is there, and the check on it passes |
| TranslationLayer.Ftl.Recovery | src/ftl.c:905-940 | the host sees the snapshot, no self-check fails, and a crash inside loses nothing |
| TranslationLayer.Ftl.Format | src/ftl.c:942-950 | a recovery of the formatted device brings back sectors of ones |
| TranslationLayer.Ftl.Stops | src/ftl.c:690-883 | the layer may lose power at any time without losing the snapshot |
| SnapshotDisk.Disk.Read | src/disk.c:3-6 | a read returns what the host last stored |
| SnapshotDisk.Disk.Write | src/disk.c:8-14 | a write stores one sector and nothing else, and moves the collector four sectors on; it is interrupted only by a simulated crash |
| SnapshotDisk.Disk.Flush | src/disk.c:16-22 | the loop ends and the flush takes the snapshot; only if crashes are simulated may a crash leave the old or the new one |
| SnapshotDisk.Disk.Recovery | src/disk.c:24-30 | the snapshot comes back and is kept through crashes; afterwards no free block is left to erase |
| CrashRuns.Turn | src/crash-test.c:58-84 | one call of the host is a step that the specification allows, and is interrupted only if crashes are simulated |
| CrashRuns.Run | src/crash-test.c:25-56 | every run with crashes anywhere is one of the specification, and keeps to the order of programming; without simulated crashes nothing in it is interrupted |
| CrashRuns.Lifetime | src/crash-test.c:130-210 | from the formatting on, with sectors of ones, every run of the disk is one of the specification; without simulated crashes the formatting and every call complete |
| CrashRuns.SnapshotIsOneFlush | src/crash-test.c:31-56 | what a recovery brings back is what the host saw at one flush, and no later flush had completed |
| CrashRuns.MatchVlt | src/crash-test.c:86-103 | the comparison succeeds exactly if every sector is the same |
| CrashRuns.Recover | src/crash-test.c:161-171 | after a recovery the arrays of the test fit the disk, whichever snapshot a crash in a flush has left |
| CrashRuns.CrashTest | src/crash-test.c:130-210 | on every sequence of requests the crash test carries them out as a run of the specification, compares after every call that leaves the disk running, finds no difference, and ends with arrays that fit the disk |
| Transactions.HomeIsOneCommit | xv6/asynclog.c:11-24 | a recovery sees what all operations saw when the last of them ended, never part of a transaction, and fewer nonempty commits are lost than become durable together: none, or 199 in the group form |
| Transactions.AppliedAt | xv6/sclog.c:122-136 | after some of the writes each written sector has its new contents and the others their old ones |
| Transactions.AllApplied | xv6/sclog.c:122-136 | all of the writes together give what the operations saw |
| RedoLogging.AsyncDisk.Crash | xv6/ide.c:10-27 | each sector holds one of the values that were on their way to it |
| RedoLogging.AsyncDisk.Write | xv6/ide.c:10-23 | a write is seen at once and may or may not survive a crash |
| RedoLogging.AsyncDisk.Flush | xv6/ide.c:25-27 | after a flush nothing can change in a crash; only a simulated crash keeps it from completing |
| RedoLogging.SafeRecovers | xv6/asynclog.c:120-128 | if each header that may survive has what it needs, every crash leaves the old or the new home area |
| RedoLogging.RecoversOnce | xv6/asynclog.c:120-128 | a disk means one home area only |
| RedoLogging.EmptyLog | xv6/asynclog.c:120-128 | an empty log means the home area as it is |
| RedoLogging.CommitSafe | xv6/asynclog.c:195-206 | with the blocks in the log both headers are safe |
| RedoLogging.ClearSafe | xv6/asynclog.c:195-206 | with the blocks at home both headers are safe |
| RedoLogging.InstallSafe | xv6/asynclog.c:72-86 | installing a block disturbs nothing that the log needs |
| RedoLogging.RedoLog.WriteHead | xv6/asynclog.c:104-118 | the header is replaced between two flushes; a crash leaves one of the two meanings |
| RedoLogging.RedoLog.WriteLog | xv6/asynclog.c:180-193 | the log holds the pinned blocks in order; a crash leaves the home area as it was |
| RedoLogging.RedoLog.InstallTrans | xv6/asynclog.c:72-86 | all blocks are at home and unpinned; a crash leaves the transaction committed |
| RedoLogging.RedoLog.ReadHead | xv6/asynclog.c:88-100 | the list in memory is the one of the header |
| RedoLogging.RedoLog.Commit | xv6/asynclog.c:195-206 | the home area becomes what the operations saw; a crash anywhere leaves it as before or as after; an empty transaction does not touch the disk |
| RedoLogging.RedoLog.RecoverFromLog | xv6/asynclog.c:120-128 | the home area is what it was meant to be and the log is clear; a crash inside loses nothing |
| RedoLogging.RedoLog.InitLog | xv6/asynclog.c:56-70 | after a restart reads see the committed contents |
| RedoLogging.RedoLog.BeginOp | xv6/asynclog.c:130-147 | an operation is admitted exactly if its reservation fits |
| RedoLogging.RedoLog.LogWrite | xv6/asynclog.c:216-235 | the sector is logged once and reads see the new contents; the panic happens exactly on a full log or outside of a transaction |
| RedoLogging.RedoLog.EndOp | xv6/asynclog.c:150-177 | the last operation commits, the others do not; reads see the same |
| SnapshotLogging.SnapshotLog.WriteLog | xv6/sclog.c:122-136 | as many blocks go home, in order, as the disk has room for |
| SnapshotLogging.SnapshotLog.AfterIsView | xv6/sclog.c:138-147 | with room for all of them a commit leaves what the operations saw |
| SnapshotLogging.SnapshotLog.Commit | xv6/sclog-gcm.c:138-152 | the disk has what the commit leaves; the snapshot has it too in the plain form and exactly at every 200th nonempty commit of the group form; a crash leaves the old snapshot, or the new one if this commit flushes |
| SnapshotLogging.SnapshotLog.InitLog | xv6/sclog.c:55-69 | after a restart reads see the snapshot |
| SnapshotLogging.SnapshotLog.BeginOp | xv6/sclog.c:72-89 | an operation is admitted exactly if its reservation fits |
| SnapshotLogging.SnapshotLog.LogWrite | xv6/sclog.c:159-176 | the sector is logged once and reads see the new contents; it fails exactly outside of a transaction and where the list would overrun |
| SnapshotLogging.SnapshotLog.EndOp | xv6/sclog.c:92-119 | the last operation commits, the others do not; when the commit flushes, and what is left of the budget, is exact |
| LogRuns.RedoLife | xv6/asynclog.c:56-235 | the same for a disk that starts with an empty log, from its first start on |
| LogRuns.RedoRun | xv6/asynclog.c:120-235 | every run of the redo log with crashes anywhere is one of atomic transactions, and it admits and panics exactly where the events say it has to; without simulated crashes nothing in it is interrupted |
| LogRuns.SnapshotRun | xv6/sclog.c:72-176 | so is every run of the log over the snapshot disk, with 200 commits becoming durable together in the group form, up to the first commit for which the blocks written since the last flush and its own exceed what the disk takes; without simulated crashes nothing in it is interrupted |
| LogRuns.SnapshotLife | xv6/sclog.c:55-176 | the same for the plain form on a disk from its formatting on |
| Admission.RunBounded | xv6/asynclog.c:130-147 | at every point of a run of operations of at most b blocks, the logged sectors and what the open operations may still log are at most ten and twice b |
| Admission.NeverPanics | xv6/asynclog.c:216-235 | over all runs, operations of at most b different blocks never reach the panic exactly if ten and twice b are less than the log takes |
| Admission.NoSizeSuffices | xv6/param.h:10-11 | with operations of ten blocks there is a panic whatever the size of the log area |
| Admission.ShippedSize | xv6/mkfs.c:27 | with the log area that mkfs makes there is none exactly if operations have fewer than ten blocks |
| Admission.RedoScript | xv6/asynclog.c:130-235 | the redo log follows any script of operations that keeps to its guards, event by event |
| Admission.PanicRun | xv6/asynclog.c:216-235 | the redo log panics on operations of at most b blocks wherever the condition fails |
| Admission.NeverOverruns | xv6/sclog.c:159-176 | over the snapshot disk the list of sectors never overruns exactly if operations keep to their reservation |
| GroupCommits.SmallCommitsFit | xv6/sclog-gcm.c:138-152 | as long as transactions have at most ten blocks, the blocks since the last flush are at most ten for each commit |
| GroupCommits.GroupFits | xv6/sclog-gcm.c:138-152 | over all runs every commit fits exactly if no transaction has more than ten blocks |
| GroupCommits.OverflowReached | xv6/sclog-gcm.c:138-152 | operations of one block each, two at a time, that log eleven blocks together, come to a commit that does not fit |
| GroupCommits.NoBoundFits | xv6/param.h:10 | over all runs with operations of at most b blocks every commit fits only if b is zero |
| GroupCommits.AloneFits | xv6/param.h:10 | operations that do not overlap never do |
| GroupCommits.StoredWholeIff | src/ftl.c:710-713 | a commit is stored whole, whatever the contents, exactly if the disk has room for all its blocks |
| GroupCommits.GroupScript | xv6/sclog-gcm.c:72-180 | the group form follows any such script unless a simulated crash comes, and its counters are those of the events |
| GroupCommits.LostBlocks | xv6/sclog-gcm.c:138-152 | unless a simulated crash comes, the 187th commit of eleven blocks succeeds, and the disk has two of them |
| BufferCache.InsertKeepsRing | xv6/bio.c:123-141 | linking a buffer behind the head keeps the ring, with the buffer first |
| BufferCache.RemoveKeepsRing | xv6/bio.c:123-141 | unlinking a buffer keeps the ring, without the buffer |
| BufferCache.Bcache.constructor | xv6/bio.c:39-57 | all buffers are on the ring, in new arrays, and hold nothing |
| BufferCache.Bcache.Bget | xv6/bio.c:62-96 | the buffer of the sector, or else the idle one that was released the longest ago; waiting and panicking exactly when they must |
| BufferCache.Bcache.Iderw | xv6/ide.c:10-23 | a dirty buffer is written, an invalid one filled, and the driver panics otherwise |
| BufferCache.Bcache.Bread | xv6/bio.c:99-108 | the buffer has the current contents; no view, no pin and no other buffer changes |
| BufferCache.Bcache.Bwrite | xv6/bio.c:111-118 | the disk has the contents and the buffer is no longer pinned |
| BufferCache.Bcache.Pin | xv6/asynclog.c:233 | the buffer is pinned with its contents and the view stays |
| BufferCache.Bcache.Brelse | xv6/bio.c:122-141 | the buffer is first on the ring; the cache is coherent exactly if it is pinned or on the disk |
| BufferCache.ViewIsOver | xv6/bio.c:16-21 | between operations the view is the pinned contents over the disk |
| BufferCache.SomeIdle | xv6/bio.c:83-96 | with fewer buffers held or pinned than there are, one is idle and bget cannot panic |
| CacheRuns.CacheLife | xv6/bio.c:39-141 | every sequence of calls, from an empty cache on, is a run of the specification that answers these calls in order, up to a release that would lose a change |
| CacheRuns.Serve | xv6/bio.c:99-141 | the answer is to the call: the sector asked for, the contents given, the sector that was got with the buffer; a call is refused exactly if its buffer is not held |
| CacheRuns.Fetch | xv6/bio.c:99-108 | the caller gets what the sector was given last, waits exactly for a held sector, and is refused exactly if as many other sectors are held or pinned as there are buffers |
| CacheRuns.ReleaseBuf | xv6/bio.c:122-141 | a release drops a change exactly if the sector is neither pinned nor the same on the disk |
| CacheRuns.Transparent | xv6/bio.c:3-14 | in every run a sector is what it was given last, and on the disk what it was when last written |
| CacheRuns.StaysSound | xv6/bio.c:16-21 | at every point of a run the pinned contents over the disk are what a new holder sees |
| CachedLog.Start | xv6/sclog.c:55-69 | after a start everyone sees the recovered disk through an empty cache |
| CachedLog.Read | xv6/bio.c:99-108 | a read through the cache returns what the log says |
| CachedLog.Write | xv6/sclog.c:149-176 | a logged write is seen at once by everyone, pins exactly its buffer and always finds one |
| CachedLog.WriteAll | xv6/sclog.c:122-136 | writing the pinned buffers gives the disk what everyone saw and leaves no pins; the buffers stay |
| CachedLog.Commit | xv6/sclog.c:138-147 | after a commit everyone sees what they saw, and the buffers agree with the snapshot disk exactly if it has stored all of it, as it does if it had room |
| CachedRuns.CachedRun | xv6/sclog.c:72-176 | every run with crashes anywhere, read and written through the cache, is one of atomic transactions, up to the first commit that the disk has no room for; without simulated crashes nothing in it is interrupted |
| RadixTree.ShiftAndMask | bench/sv6/include/radix_array.hh:196-245 | with powers of two, slots and spans are the shifts of the source |
| RadixTree.Radix.NumLevels | bench/sv6/include/radix_array.hh:219-223 | the number of levels is the least that spans the array |
| RadixTree.Radix.BlockRange | bench/sv6/include/radix_array.hh:237-245 | a slot covers an aligned range of keys |
| RadixTree.Tree.GetAnywhere | bench/sv6/include/radix_array.hh:305-312 | a search may start at any node with the key under it |
| RadixTree.GetOutside | bench/sv6/include/radix_array.hh:459-515 | a change under some slots is seen under those slots only |
| RadixTree.ExpandGet | bench/sv6/include/radix_array.hh:1241-1276 | replacing a value by a node of that value changes no key |
| RadixArrays.RadixArray.SetRecursive | bench/sv6/include/radix_array.hh:459-515 | all keys under the slots have the value, and no slot elsewhere changes |
| RadixArrays.RadixArray.NewSlots | bench/sv6/include/radix_array.hh:1241-1276 | a new node has the replaced value in all its slots, also below the root |
| RadixArrays.RadixArray.Expand | bench/sv6/include/radix_array.hh:396-438 | a node takes the place of a value, the tree stays in order, and no key changes |
| RadixArrays.Iterator.ForceTerminal | bench/sv6/include/radix_array.hh:362-373 | the cached node has the key under it and a value in the slot of the key, or is at the limit |
| RadixArrays.Iterator.SetAtLevel | bench/sv6/include/radix_array.hh:377-452 | all keys of the slot have the value, all others keep theirs, nodes of other iterators stay, and new nodes lie only on the way to the slot; none is made to unset a key without a value |
| RadixArrays.Iterator.Advance | bench/sv6/include/radix_array.hh:652-664 | the cached node always has the key under it, and is kept exactly if it has the new key |
| RadixArrays.Iterator.Deref | bench/sv6/include/radix_array.hh:590-617 | the value is that of the flat array |
| RadixArrays.Iterator.Span | bench/sv6/include/radix_array.hh:779-787 | the keys from here to the end of the slot that stores the value, or of the array, exactly; they all have the same value |
| RadixArrays.ChooseLevel | bench/sv6/include/radix_array.hh:910-920 | the level is the highest whose slots start at the key and end by the bound, and the search for it ends |
| RadixArrays.RadixArray.constructor | bench/sv6/include/radix_array.hh:251 | a new array has no value for any key and can be iterated |
| RadixArrays.Fill | bench/sv6/include/radix_array.hh:895-935 | the keys in the range have the value, all others keep theirs, other iterators stay valid, and no node is made that lies inside the range |
| RadixArrays.StoredAsOne | bench/sv6/include/radix_array.hh:895-935 | where no node lies inside the range, each slot in it is stored as one, or as part of a larger one |
| BonsaiTree.Balance | bench/sv6/attic/bonsai.c:169-196 | the items are those of the left side, the node and the right side in order, and all sizes are exact; when and how it rotates is the next rows |
| BonsaiBalance.RotatesIff | bench/sv6/attic/bonsai.c:169-196 | the tree is left as it is exactly if neither side has more than four times the nodes of the other, or both together have fewer than two; otherwise the smaller side grows |
| BonsaiBalance.Lighter | bench/sv6/attic/bonsai.c:169-196 | otherwise the larger side of the result is smaller than that of the node, if the larger side and its larger child keep the bound |
| BonsaiBalance.BalanceKeeps | bench/sv6/attic/bonsai.c:169-196 | with two balanced sides that one insertion or removal has taken out of the bound, the result is balanced everywhere |
| BonsaiTree.DoubleLeft | bench/sv6/attic/bonsai.c:114-125 | the same of a double rotation, whose child is there |
| BonsaiTree.DoubleRight | bench/sv6/attic/bonsai.c:135-146 | the same to the other side |
| BonsaiTree.FindIs | bench/sv6/attic/bonsai.c:77-86 | a search finds what an ordered tree has for the key |
| BonsaiTree.FindGtIs | bench/sv6/attic/bonsai.c:88-102 | the item with the least greater key, if there is any |
| BonsaiTree.LeastFirst | bench/sv6/attic/bonsai.c:214-234 | the least node is the first item and the rest are the others |
| BonsaiTree.Join | bench/sv6/attic/bonsai.c:236-250 | the items of both trees in order |
| BonsaiTree.InsertIs | bench/sv6/attic/bonsai.c:198-212 | insertion adds the key unless it is there, changes nothing else and keeps the order |
| BonsaiTree.RemoveIs | bench/sv6/attic/bonsai.c:252-267 | removal takes the key, changes nothing else and keeps the order |
| BonsaiBalance.InsertBalanced | bench/sv6/attic/bonsai.c:198-212 | insertion keeps the bound at every node |
| BonsaiBalance.RemoveBalanced | bench/sv6/attic/bonsai.c:252-267 | removal keeps it too |
| BonsaiBalance.AlwaysBalanced | bench/sv6/attic/bonsai.c:198-267 | any sequence of insertions and removals, from the empty tree on, gives a balanced tree |
| BonsaiBalance.Shallow | bench/sv6/attic/bonsai.c:169-196 | a balanced tree of height h > 0 has at least (5/4)^(h-1) nodes |
| BonsaiHeap.Heap.AllocNode | bench/sv6/attic/bonsai.c:29-40 | a new node over two trees, with no other node changed |
| BonsaiHeap.Heap.SingleLeft | bench/sv6/attic/bonsai.c:106-112 | the rotation in memory is the rotation of the tree, and every node is accounted for |
| BonsaiHeap.Heap.SingleRight | bench/sv6/attic/bonsai.c:127-133 | the same to the other side |
| BonsaiHeap.Heap.DoubleLeft | bench/sv6/attic/bonsai.c:114-125 | the same of a double rotation |
| BonsaiHeap.Heap.DoubleRight | bench/sv6/attic/bonsai.c:135-146 | the same to the other side |
| BonsaiHeap.Heap.TreeNode | bench/sv6/attic/bonsai.c:148-166 | the node in place or a new one makes the same tree; in place nothing is allocated or freed, otherwise just the old node is freed |
| BonsaiHeap.Heap.TreeBalance | bench/sv6/attic/bonsai.c:169-196 | balancing in memory is balancing of the tree, so that it rotates and keeps the bound as BonsaiBalance says; at most the node changes in place and every node is accounted for |
| BonsaiHeap.Heap.TreeInsert | bench/sv6/attic/bonsai.c:198-212 | insertion in memory is insertion into the tree; nodes outside of it stay, and none is leaked or freed twice; where no rotation is needed the root stays, at most one node is allocated and none is freed |
| BonsaiHeap.Heap.TreeMin | bench/sv6/attic/bonsai.c:214-219 | the node found is the least of the tree |
| BonsaiHeap.Heap.TreeDelmin | bench/sv6/attic/bonsai.c:221-234 | the tree without its least node, which no step has changed or freed |
| BonsaiHeap.Heap.TreeDelprime | bench/sv6/attic/bonsai.c:236-250 | one tree of two, with no node changed and every node accounted for |
| BonsaiHeap.Heap.TreeRemove | bench/sv6/attic/bonsai.c:252-267 | removal in memory is removal from the tree; the removed node is freed, and no other is leaked; a root that is not removed and stays in balance stays where it is |
| Striping.Stripes.PlaceOrigin | src/vblk.c:27-33 | in an even geometry the physical page is on the device and tells the page |
| Striping.Stripes.OriginPlace | src/vblk.c:63-69 | and every physical page is the place of a page |
| Striping.Stripes.InSequence | src/vblk.c:27-33 | the pages that a virtual block has in one physical block lie there in their order |
| Striping.Stripes.ApartIff | src/vblk.c:212-219 | pages have different places exactly if the geometry is even |
| Striping.Stripes.ChannelsCollide | src/vblk.c:27-33 | two pages fall together if the channels do not divide two or more blocks |
| Striping.Stripes.RowsCollide | src/vblk.c:27-33 | two pages fall together if the blocks do not divide the pages |
| Striping.Stripes.EraseAddresses | src/vblk.c:118-139 | the addresses are those of the first sectors of the physical blocks, one for each; in an even geometry they are exactly the places of the first row of pages, each once |
| Striping.Stripes.ErasesIff | src/vblk.c:118-139 | on a device with npages pages in a block, erasing a virtual block covers exactly the pages that its programs can reach, exactly if npages times the number of physical blocks is the number of pages |
| Striping.Stripes.RestStays | src/vblk.c:212-219 | otherwise the first page behind a physical block is not erased with its virtual block |

## Left out

- TranslationLayer.Ftl.Format: says nothing about a crash while formatting, because the source promises nothing there.
- The state machines are sequential: the locks, `sleep` and `wakeup` of xv6 have empty bodies in this build, and the lock bits and atomic swaps of the radix array are not modelled.
- RedoLogging.RedoLog.BeginOp: returns to the caller where the source waits, because the model runs one call at a time; the condition for waiting is exact.
- SnapshotLogging.SnapshotLog.BeginOp: the same.
- BufferCache.Bcache.Bget: returns `Wait` where the source sleeps and looks again.
- SnapshotLogging.SnapshotLog.LogWrite: reports a failure where the source writes past its array, with 31 sectors logged; `Admission.NeverOverruns` says when that cannot happen.
- Sizing.Sizes.ReserveLastsIff: exact over the runs of the account, which knows of a victim only how many live sectors it can have at most; which numbers can follow each other in the layer is not modelled.
- Sizing.Sizes.CopiesLastIff: the same.
- Sizing.Sizes.LogLastsIff: the same.
- After a commit for which the disk has no room, buffers and disk differ; the runs end there, and what a read returns once such a buffer is recycled is not modelled.
- BonsaiHeap.Heap.AllocNode: always succeeds; allocation failure is not modelled.
- BufferCache: one device only, since the driver ignores the device number; flag bits are separate booleans.
- RadixArrays: arrays of fewer than two elements, for which the root would be a leaf; allocation failure, the recycling of freed values and the overflow of shifts on very wide keys; fanouts need not be powers of two.
- BonsaiHeap: the time when a freed node may be reused.
- Striping: the calls into the device library; only addresses are modelled, and a device block is a run of consecutive pages.
- `flash_init` and `flash_fini` of the emulator, which load and save images. The threads and random choices of the crash test, and the choice of when a simulated crash comes, are parameters or arbitrary here.
- `src/ftl-async.c`, `src/ftl-sync.c`, `xv6/synclog.c`: near copies without checkpoints, and a log that relies on an ordered disk.
- `xv6/fs.c` and the rest of the file system above the log: inodes, directories and paths, and how many blocks each system call writes.
- `src/lightnvm.c`, `src/disk-pblk.c`, and the rest of `bench` and `exp`: library calls, benchmarks and scripts.
