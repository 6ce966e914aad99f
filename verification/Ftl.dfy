/**
 The flash translation layer.  Each operation is a sequence of the steps of LayerState and
 Collector.  vlt is what the host reads; stb is what a recovery would bring back.
 */
module TranslationLayer {
  import opened Geometry
  import opened FlashDevice
  import opened Mapping
  import opened BlockManagement
  import opened Snapshot
  import opened Checkpointing
  import opened LayerState
  import opened Collector
  import opened Merging

  class Ftl {
    const flash: Flash
    const blocks: BlockList
    const tab: Tables
    const merge: MergeBuffer
    const chk: Checkpoint
    var ipaActive: int
    var isaGc: int
    var ipaGc: int
    var pbaGc: int
    var lsaGc: Word
    var enableGc: bool
    var gcprog: int
    var wcnt: int
    /** A self-check did not pass. */
    var failed: bool
    /** The map and the contents of the last commit point, and what the host sees. */
    ghost var m: seq<Word>
    ghost var stb: seq<Sector>
    ghost var vlt: seq<Sector>
    ghost var kc: int

    ghost function Repr(): set<object> { {this} + Inner() }

    ghost function Inner(): set<object> {
      {flash, flash.flash, flash.flags, blocks, blocks.list, tab, tab.l2p, tab.p2l, tab.vcnts,
       merge, merge.lsas, merge.data, chk, chk.deltaBuf, chk.bufCommit}
    }

    lemma Apart()
      ensures this !in Inner() && blocks in Inner() && blocks.list in Inner()
    {
    }

    /** The parts share nothing but the device. */
    ghost predicate Separate() {
      && chk.flash == flash
      && blocks.list != tab.l2p && blocks.list != tab.p2l && blocks.list != merge.lsas && blocks.list != merge.data
      && blocks.list != chk.deltaBuf && blocks.list != chk.bufCommit
      && tab.l2p != tab.p2l && tab.l2p != merge.lsas && tab.l2p != merge.data && tab.l2p != chk.deltaBuf && tab.l2p != chk.bufCommit
      && tab.p2l != merge.lsas && tab.p2l != merge.data && tab.p2l != chk.deltaBuf && tab.p2l != chk.bufCommit
      && merge.lsas != merge.data && merge.lsas != chk.deltaBuf && merge.lsas != chk.bufCommit
      && merge.data != chk.deltaBuf && merge.data != chk.bufCommit
      && chk.deltaBuf != chk.bufCommit
      && tab.Sized() && merge.Sized() && chk.Sized() && blocks.list.Length == BLOCKS_DATA
    }

    /** The parts are in order, each by itself. */
    ghost predicate Parts()
      reads Inner()
    {
      && Separate() && flash.Valid() && blocks.Valid() && tab.Valid() && merge.Valid() && chk.Valid() && chk.Positioned()
    }

    /** The whole state as a value. */
    ghost function S(): State
      reads this`ipaActive, this`kc, this`m, this`stb, this`vlt, Inner()
    {
      State(flash.cells, flash.synced, tab.L, tab.P, tab.V,
            blocks.role, blocks.Cur().NUsable(), blocks.Cur().NErasable(), blocks.Cur().NInvalid(), blocks.Cur().NUsed(),
            blocks.pbaActive, ipaActive, merge.isa, merge.who, merge.page,
            chk.ptrFull, kc, chk.Position(), chk.buf, chk.ptrDeltaBuf,
            m, stb, vlt)
    }

    ghost function G(): Gc
      reads this`enableGc, this`pbaGc, this`ipaGc, this`isaGc, this`lsaGc, this`gcprog, this`wcnt
    {
      Gc(enableGc, pbaGc, ipaGc * SECTORS_PER_PAGE + isaGc, lsaGc, gcprog, wcnt)
    }

    /** The collector works on the head of the used queue. */
    ghost predicate AtHead()
      reads this`enableGc, this`pbaGc, this`ipaGc, this`isaGc, blocks
    {
      enableGc ==> 0 <= blocks.used < |blocks.blks| && pbaGc == blocks.blks[blocks.used] && 0 <= ipaGc && 0 <= isaGc < SECTORS_PER_PAGE
    }

    ghost predicate Valid()
      reads Repr()
    {
      Parts() && Good(S(), G()) && ipaActive < PAGES_PER_BLOCK && flash.disciplined && AtHead()
    }

    /** All that a crash leaves to work with. */
    ghost predicate Down()
      reads Repr()
    {
      Separate() && flash.Valid() && flash.disciplined && Durable(flash.cells, flash.synced, m, stb)
    }

    constructor (crashSim: bool)
      ensures Separate() && fresh(Repr()) && flash.crashSim == crashSim
      ensures flash.Valid() && flash.disciplined
    {
      var device := new Flash(crashSim);
      flash := device;
      blocks := new BlockList();
      tab := new Tables();
      merge := new MergeBuffer();
      chk := new Checkpoint(device);
      ipaActive, isaGc, ipaGc, pbaGc, lsaGc, gcprog, wcnt := 0, 0, 0, 0, 0, 0, 0;
      enableGc, failed := false, false;
    }

    // The steps, performed on the parts

    method EraseOne() returns (ghost b: int)
      requires Parts() && blocks.Cur().NErasable() > 0
      modifies blocks, flash, flash.flash, flash.flags
      ensures Parts() && PBA_DATA <= b < BLOCKS_TOTAL && |old(S()).role| == BLOCKS_TOTAL && old(S()).role[b] == Erasable
      ensures S() == old(S()).(c := old(flash.cells)[b := Uniform(Erased)], s := old(flash.synced)[b := Uniform(false)],
                               role := old(blocks.role)[b := Usable],
                               nUsable := old(S().nUsable) + 1, nErasable := old(S().nErasable) - 1)
      ensures flash.disciplined == old(flash.disciplined) && blocks.blks == old(blocks.blks) && blocks.used == old(blocks.used)
    {
      hide Dist, Flash.Valid, BlockList.Valid, Tables.Valid, MergeBuffer.Valid, Checkpoint.Valid;
      blocks.Facts();
      b := blocks.MakeOneErasableBlockFree(flash);
    }

    method PersistPage()
      requires Parts() && 0 <= ipaActive < PAGES_PER_BLOCK && PBA_DATA <= blocks.pbaActive < BLOCKS_TOTAL
      modifies this`ipaActive, flash, flash.flash, flash.flags, merge, merge.lsas
      ensures Parts()
      ensures S() == old(S()).(c := Put(old(flash.cells), blocks.pbaActive, old(ipaActive), Programmed(old(merge.page))),
                               s := Put(old(flash.synced), blocks.pbaActive, old(ipaActive), false),
                               ipa := old(ipaActive) + 1, isa := 0, who := [N_LAS, N_LAS])
      ensures flash.disciplined == (old(flash.disciplined) && InOrder(old(flash.cells), blocks.pbaActive, old(ipaActive)))
    {
      hide Dist, BlockList.Valid, Tables.Valid, Checkpoint.Valid, Put;
      var _ := flash.Program(blocks.pbaActive, ipaActive, merge.data, false);
      hide Flash.Valid;
      merge.Invalidate();
      ipaActive := ipaActive + 1;
    }

    method NextBlock() returns (ghost b: int)
      requires Parts() && blocks.Cur().NUsable() > 0
      modifies this`ipaActive, blocks
      ensures Parts() && PBA_DATA <= b < BLOCKS_TOTAL && PBA_DATA <= old(blocks.pbaActive) < BLOCKS_TOTAL
      ensures |old(S()).role| == BLOCKS_TOTAL && old(S()).role[b] == Usable
      ensures S() == old(S()).(role := old(blocks.role)[old(blocks.pbaActive) := Used][b := Active], act := b, ipa := 0,
                               nUsable := old(S().nUsable) - 1, nUsed := old(S().nUsed) + 1)
      ensures blocks.blks == old(blocks.blks) && blocks.used == old(blocks.used)
    {
      hide Dist, Flash.Valid, BlockList.Valid, Tables.Valid, MergeBuffer.Valid, Checkpoint.Valid;
      blocks.Facts();
      ipaActive := 0;
      blocks.ChooseFreeBlock();
      b := blocks.pbaActive;
      blocks.Facts();
    }

    /** Gives lsa the place psa and puts its contents into the merge buffer. */
    method Place(lsa: Word, psa: Word, sector: Sector)
      requires Parts() && lsa < N_LAS && PBA_DATA * SECTORS_PER_BLOCK <= psa < N_PAS && tab.P[psa] == N_LAS
      requires merge.isa < SECTORS_PER_PAGE && |vlt| == N_LAS
      modifies this`vlt, tab, tab.l2p, tab.p2l, tab.vcnts, merge, merge.lsas, merge.data
      ensures Parts() && vlt == old(vlt)[lsa := sector]
      ensures S() == old(S()).(l2p := old(tab.L)[lsa := psa], p2l := old(tab.P)[old(tab.L)[lsa] := N_LAS][psa := lsa],
                               vcnts := Moved(old(tab.V), old(tab.L)[lsa], psa),
                               who := old(merge.who)[old(merge.isa) := lsa], page := WithHalf(old(merge.page), old(merge.isa), sector),
                               isa := old(merge.isa) + 1, vlt := vlt)
    {
      hide Dist, Flash.Valid, BlockList.Valid, Checkpoint.Valid, Consistent, WithHalf, Moved;
      tab.Facts();
      hide Tables.Valid;
      tab.Remap(lsa, psa);
      merge.CopyData(lsa, sector);
      vlt := vlt[lsa := sector];
    }

    /** Writes the buffer to the next delta page and empties it. */
    method AppendDelta(flag: Word) returns (o: Outcome, ghost b: int, ghost p: int, ghost page: Page)
      requires Parts() && DeltaRegion(flash.cells, kc, chk.Position()) && chk.Position() < DELTA_PAGES
      requires flag == FLAG_COMMITTED || flag == FLAG_TENTATIVE
      modifies chk, chk.deltaBuf, flash, flash.flash, flash.flags
      ensures flash.Valid() && flash.disciplined == old(flash.disciplined) && Separate()
      ensures o.Crashed? ==> flash.crashSim
      ensures o.Crashed? ==>
                && Shaped(old(flash.cells)) && Shaped(old(flash.synced))
                && CrashImage(old(flash.cells), old(flash.synced), flash.cells) && flash.synced == old(flash.synced)
      ensures o.Done? ==>
                && Parts() && PageFrom(page, old(chk.buf), flag) && BufferOk(chk.buf, 0)
                && 0 <= b < BLOCKS_DELTA && 0 <= p < PAGES_PER_BLOCK && old(chk.Position()) == b * PAGES_PER_BLOCK + p
                && b == chk.pbaDelta
                && S() == old(S()).(c := Put(old(flash.cells), b, p, Programmed(page)), s := Put(old(flash.synced), b, p, true),
                                    k := old(chk.Position()) + 1, buf := chk.buf, ptr := 0)
    {
      hide Dist, BlockList.Valid, Tables.Valid, MergeBuffer.Valid, DeltaRegion, Put, BufferOk, Las, Pas;
      b, p, page := 0, 0, chk.buf;
      o := chk.CreateOneDeltaChkpt(flag, kc);
      if o.Crashed? {
        return;
      }
      b, p, page := chk.pbaDelta, chk.ipaDelta - 1, chk.buf;
      hide Flash.Valid;
      chk.ResetDeltaBuf();
    }

    /** Adds a pair to the buffer, after writing the buffer out if it is full. */
    method LogMove(lsa: Word, psa: Word) returns (o: Outcome, ghost full: bool, ghost b: int, ghost p: int, ghost page: Page, ghost empty: Page)
      requires Parts() && DeltaRegion(flash.cells, kc, chk.Position()) && chk.Position() < DELTA_PAGES && lsa < N_LAS
      modifies chk, chk.deltaBuf, flash, flash.flash, flash.flags
      ensures flash.Valid() && flash.disciplined == old(flash.disciplined) && Separate()
      ensures o.Crashed? ==> flash.crashSim
      ensures o.Crashed? ==>
                && Shaped(old(flash.cells)) && Shaped(old(flash.synced))
                && CrashImage(old(flash.cells), old(flash.synced), flash.cells) && flash.synced == old(flash.synced)
      ensures o.Done? ==> Parts() && full == (old(chk.ptrDeltaBuf) == N_DELTA_PAIR) && 0 <= old(chk.ptrDeltaBuf) <= N_DELTA_PAIR
      ensures o.Done? && !full ==> S() == old(S()).(buf := WithPair(old(chk.buf), old(chk.ptrDeltaBuf), lsa, psa), ptr := old(chk.ptrDeltaBuf) + 1)
      ensures o.Done? && full ==>
                && PageFrom(page, old(chk.buf), FLAG_TENTATIVE) && BufferOk(empty, 0)
                && 0 <= b < BLOCKS_DELTA && 0 <= p < PAGES_PER_BLOCK && old(chk.Position()) == b * PAGES_PER_BLOCK + p
                && S() == old(S()).(c := Put(old(flash.cells), b, p, Programmed(page)), s := Put(old(flash.synced), b, p, true),
                                    k := old(chk.Position()) + 1, buf := WithPair(empty, 0, lsa, psa), ptr := 1)
    {
      hide Dist, Flash.Valid, BlockList.Valid, Tables.Valid, MergeBuffer.Valid, DeltaRegion, Put, BufferOk, Las, Pas,
           PageFrom, WithPair;
      full, b, p, page, empty := chk.ptrDeltaBuf == N_DELTA_PAIR, 0, 0, chk.buf, chk.buf;
      chk.Facts();
      hide Checkpoint.Valid;
      if chk.ptrDeltaBuf == N_DELTA_PAIR {
        o, b, p, page := AppendDelta(FLAG_TENTATIVE);
        if o.Crashed? {
          return;
        }
        empty := chk.buf;
      }
      chk.AppendDeltaPair(lsa, psa);
      o := Done;
    }

    /** Gives lsa the place psa and logs it, after the full log buffer has been written out. */
    method Move(lsa: Word, psa: Word, sector: Sector)
      returns (o: Outcome, ghost full: bool, ghost b: int, ghost p: int, ghost page: Page, ghost empty: Page)
      requires Parts() && lsa < N_LAS && PBA_DATA * SECTORS_PER_BLOCK <= psa < N_PAS && tab.P[psa] == N_LAS
      requires merge.isa < SECTORS_PER_PAGE && |vlt| == N_LAS && psa == NextPsa(S())
      requires DeltaRegion(flash.cells, kc, chk.Position()) && chk.Position() < DELTA_PAGES && Shapes(S()) &&
               Tabled(S()) && ipaActive < PAGES_PER_BLOCK
      modifies this`vlt, tab, tab.l2p, tab.p2l, tab.vcnts, merge, merge.lsas, merge.data, chk, chk.deltaBuf, flash,
               flash.flash, flash.flags
      ensures flash.Valid() && flash.disciplined == old(flash.disciplined) && Separate()
      ensures o.Crashed? ==> flash.crashSim
      ensures o.Crashed? ==>
                && Shaped(old(flash.cells)) && Shaped(old(flash.synced))
                && CrashImage(old(flash.cells), old(flash.synced), flash.cells) && flash.synced == old(flash.synced)
      ensures o.Done? ==> Parts() && vlt == old(vlt)[lsa := sector]
      ensures o.Done? && !full ==> Assignable(old(S()), lsa) && S() == LayerState.Assign(old(S()), lsa, sector)
      ensures o.Done? && full ==>
                && Appendable(old(S()), b, p, page, empty, FLAG_TENTATIVE) && old(S()).ptr == N_DELTA_PAIR
                && Appended(old(S()), b, p, page, empty) && S() == LayerState.Assign(Append(old(S()), b, p, page, empty), lsa, sector)
    {
      hide Dist, Flash.Valid, BlockList.Valid, Tables.Valid, MergeBuffer.Valid, Checkpoint.Valid, DeltaRegion, Put,
           BufferOk, PageFrom;
      hide Consistent, WithPair, WithHalf, Moved, NextPsa, Shaped;
      ghost var x := S();
      Place(lsa, psa, sector);
      o, full, b, p, page, empty := LogMove(lsa, psa);
      if o.Done? && full {
        AppendedShapes(x, b, p, page, empty);
      }
    }

    // The operations

    method MakeOneErasableBlockFreeWhenFreeBlklistEmpty()
      requires Valid()
      modifies blocks, flash, flash.flash, flash.flags
      ensures Valid() && S().nUsable > 0
      ensures S() == old(S()).(c := S().c, s := S().s, role := S().role, nUsable := S().nUsable, nErasable := S().nErasable)
      ensures S().nUsable + S().nErasable == old(S().nUsable + S().nErasable)
      ensures S().nUsable == if old(S().nUsable) > 0 then old(S().nUsable) else 1
      ensures old(S().nUsable) > 0 ==> S() == old(S())
    {
      hide Good, Consistent, Flash.Valid, Dist, BlockList.Valid, Tables.Valid, MergeBuffer.Valid, Checkpoint.Valid;
      ghost var x, g := S(), G();
      GoodShapes(x, g);
      blocks.Facts();
      if blocks.usable == blocks.erasable {
        ghost var b := EraseOne();
        EraseGood(x, g, b);
      }
    }

    /** Programs the merge buffer; the next page may be in a new block. */
    method PersistMergeBuffer()
      requires Valid() && S().nUsable > 0
      modifies this`ipaActive, blocks, flash, flash.flash, flash.flags, merge, merge.lsas
      ensures Parts() && Inv(S()) && Collecting(S(), G()) && ipaActive < PAGES_PER_BLOCK && flash.disciplined && AtHead()
      ensures old(merge.isa) == SECTORS_PER_PAGE ==> Valid()
      ensures merge.isa == 0 && if old(ipaActive) + 1 == PAGES_PER_BLOCK then ipaActive == 0 && S().nUsable == old(S().nUsable) - 1
                                else ipaActive == old(ipaActive) + 1 && S().nUsable == old(S().nUsable)
      ensures S() == old(S()).(c := S().c, s := S().s, role := S().role, nUsable := S().nUsable, nUsed := S().nUsed,
                               act := S().act, ipa := S().ipa, isa := 0, who := S().who)
    {
      hide Inv, Budget, Collecting, Flash.Valid, Dist, BlockList.Valid, Tables.Valid, MergeBuffer.Valid, Checkpoint.Valid;
      ghost var x, g := S(), G();
      GoodShapes(x, g);
      PersistGood(x, g);
      PersistPage();
      ghost var y := S();
      assert y == Persist(x);
      if ipaActive == PAGES_PER_BLOCK {
        ghost var b := NextBlock();
        AdvanceGood(y, g, b);
      }
    }

    /** Gives lsa its next place, with the given contents, and logs the move: a write, or a copy by the collector. */
    method Assign(lsa: Word, sector: Sector, ghost copy: bool) returns (o: Outcome)
      requires Valid() && lsa < N_LAS && merge.isa < SECTORS_PER_PAGE
      requires if copy then enableGc && lsa == lsaGc && gcprog < MAX_GCPROG else wcnt < MAX_WCNT
      modifies this`vlt, tab, tab.l2p, tab.p2l, tab.vcnts, merge, merge.lsas, merge.data, chk, chk.deltaBuf, flash,
               flash.flash, flash.flags
      ensures flash.disciplined
      ensures o.Crashed? ==> flash.crashSim
      ensures o.Crashed? ==> Down()
      ensures o.Done? ==> Parts() && |old(vlt)| == N_LAS && vlt == old(vlt)[lsa := sector] && Good(S(), After(G(), lsa, copy))
    {
      hide Good, Consistent, Durable, DeltaRegion, BufferOk, PageFrom, Put, Shaped;
      hide Flash.Valid, Dist, BlockList.Valid, Tables.Valid, MergeBuffer.Valid, Checkpoint.Valid, NextPsa, LayerState.Assign;
      ghost var x, g := S(), G();
      GoodShapes(x, g);
      GoodLog(x, g);
      GoodNext(x, g);
      NextIs(x);
      ghost var full, b, p, page, empty;
      o, full, b, p, page, empty := Move(lsa, Psa(blocks.pbaActive, ipaActive, merge.isa), sector);
      if o.Crashed? {
        DurableSurvives(x.c, x.s, m, stb, flash.cells);
      } else if full {
        TentativeGood(x, g, b, p, page, empty);
        AssignGood(Append(x, b, p, page, empty), g, lsa, sector, copy);
      } else {
        AssignGood(x, g, lsa, sector, copy);
      }
    }

    /** Makes sure that the merge buffer can take a sector. */
    method MakeRoom()
      requires Valid()
      modifies this`ipaActive, blocks, flash, flash.flash, flash.flags, merge, merge.lsas
      ensures Valid() && merge.isa < SECTORS_PER_PAGE
    {
      hide Good, Parts, Inv, Budget, Collecting, Consistent;
      MakeOneErasableBlockFreeWhenFreeBlklistEmpty();
      if merge.isa == SECTORS_PER_PAGE {
        PersistMergeBuffer();
      }
      GoodShapes(S(), G());
    }

    lemma Sizes()
      requires Valid()
      ensures |vlt| == N_LAS && |stb| == N_LAS && 0 <= wcnt <= MAX_WCNT
    {
      hide Good, Parts, Consistent;
      GoodShapes(S(), G());
    }

    /** The layer may stop at any time: what the last flush stored is safe in the flash. */
    lemma Stops()
      requires Valid()
      ensures Down()
    {
      hide Good, Durable, Consistent, Flash.Valid, BlockList.Valid, Tables.Valid, MergeBuffer.Valid, Checkpoint.Valid;
      GoodLog(S(), G());
    }

    /** Power may fail while the layer is idle, or again before a recovery. */
    method PowerLoss()
      requires Down()
      modifies flash, flash.flash, flash.flags
      ensures Down()
    {
      hide Durable, Flash.Valid;
      ghost var c, s := flash.cells, flash.synced;
      flash.Crash();
      DurableSurvives(c, s, m, stb, flash.cells);
    }

    /** Stores a sector when there is room for it. */
    method WriteRoom(lsa: Word, data: Sector) returns (o: Outcome)
      requires Valid() && merge.isa < SECTORS_PER_PAGE && lsa < N_LAS && wcnt < MAX_WCNT && |vlt| == N_LAS
      modifies Repr()
      ensures stb == old(stb) && gcprog == old(gcprog) && enableGc == old(enableGc) && pbaGc == old(pbaGc) && Rank() == old(Rank())
      ensures o.Crashed? ==> flash.crashSim
      ensures o.Crashed? ==> Down()
      ensures o.Done? ==> Valid() && vlt == old(vlt)[lsa := data] && wcnt == old(wcnt) + 1
    {
      hide Good, Parts, Durable, S, G, AtHead;
      o := Assign(lsa, data, false);
      if o.Crashed? {
        return;
      }
      Notice(lsa);
    }

    /** The collector forgets a sector that is written, and the write is counted. */
    method Notice(lsa: Word)
      requires Parts() && Good(S(), After(G(), lsa, false)) && ipaActive < PAGES_PER_BLOCK && flash.disciplined && AtHead()
      modifies this`lsaGc, this`wcnt
      ensures Valid() && wcnt == old(wcnt) + 1
    {
      hide Good, Parts, S, Inner;
      Apart();
      ghost var g := After(G(), lsa, false);
      lsaGc := if lsa == lsaGc then N_LAS else lsaGc;
      wcnt := wcnt + 1;
      assert G() == g;
    }

    /** Stores a sector; a write out of range or beyond the epoch's budget is dropped. */
    method Write(lsa: Word, data: Sector) returns (o: Outcome)
      requires Valid()
      modifies Repr()
      ensures stb == old(stb) && |old(vlt)| == N_LAS
      ensures gcprog == old(gcprog) && enableGc == old(enableGc) && pbaGc == old(pbaGc) && Rank() == old(Rank())
      ensures o.Crashed? ==> flash.crashSim
      ensures o.Crashed? ==> Down()
      ensures o.Done? ==>
                && Valid()
                && vlt == (if lsa < N_LAS && old(wcnt) < MAX_WCNT then old(vlt)[lsa := data] else old(vlt))
                && wcnt == (if lsa < N_LAS && old(wcnt) < MAX_WCNT then old(wcnt) + 1 else old(wcnt))
    {
      hide Valid, Down;
      Sizes();
      if lsa >= N_LAS || wcnt >= MAX_WCNT {
        return Done;
      }
      MakeRoom();
      o := WriteRoom(lsa, data);
    }

    /** Returns what the host last stored; a read out of range leaves the caller's buffer as it is. */
    method Read(lsa: Word, data: Sector) returns (r: Sector)
      requires Valid()
      ensures Valid() && |vlt| == N_LAS && r == if lsa < N_LAS then vlt[lsa] else data
    {
      hide Good, Consistent, BlockList.Valid, Tables.Valid, Checkpoint.Valid, Pba, Ipa, Isa, Half, Dist;
      GoodShapes(S(), G());
      if lsa >= N_LAS {
        return data;
      }
      GoodView(S(), G(), lsa);
      if lsa == merge.lsas[1] {
        return Half(merge.data[..], 1);
      }
      if lsa == merge.lsas[0] {
        return Half(merge.data[..], 0);
      }
      tab.Facts();
      var psa := tab.l2p[lsa];
      PsaInRange(psa);
      var page := flash.Read(Pba(psa), Ipa(psa));
      r := Half(page, Isa(psa));
    }

    // The collector

    lemma TableIs()
      requires Parts()
      ensures tab.p2l.Length == N_PAS + 1 && S().p2l == tab.p2l[..]
    {
      hide Consistent;
      tab.Facts();
    }

    method ChooseVictim() returns (v: Word)
      requires Parts() && S().nUsed > 0
      modifies blocks`blks, blocks`pos, blocks.list
      ensures Parts() && S() == old(S()) && PBA_DATA <= v < BLOCKS_TOTAL && 0 <= blocks.used < |blocks.blks| &&
              v == blocks.blks[blocks.used]
      ensures |S().role| == BLOCKS_TOTAL && |S().vcnts| == BLOCKS_TOTAL + 1 && S().role[v] == Used
      ensures forall b :: 0 <= b < BLOCKS_TOTAL && S().role[b] == Used ==> S().vcnts[v] <= S().vcnts[b]
      ensures CountRole(S().role, BLOCKS_TOTAL, Used) == S().nUsed
    {
      hide Consistent, Flash.Valid, BlockList.Valid, MergeBuffer.Valid, Checkpoint.Valid, Tables.Valid, Dist, CountRole;
      blocks.Counts();
      tab.Facts();
      v := blocks.ChooseVictimBlock(tab.vcnts);
      blocks.Facts();
    }

    /** Picks a used block with the fewest live sectors. */
    method StartGc()
      requires Valid() && !enableGc && S().nUsed >= THRESHOLD_GC
      modifies this`ipaGc, this`isaGc, this`enableGc, this`pbaGc, this`lsaGc, blocks`blks, blocks`pos, blocks.list
      ensures Valid() && enableGc && ipaGc == 0 && isaGc == 0 && S().nUsed == old(S().nUsed)
    {
      hide Good, Parts, S, CountRole, AtHead;
      ghost var x, g := S(), G();
      var v := ChooseVictim();
      StartGood(x, g, v);
      GoodTables(x, g);
      MoveGc(true, v, 0, 0);
    }

    /** Points the collector at a sector and looks up what lives there. */
    method MoveGc(on: bool, pba: int, ipa: int, isa: int)
      requires Parts() && ipaActive < PAGES_PER_BLOCK && flash.disciplined && |S().p2l| == N_PAS + 1 &&
               0 <= Psa(pba, ipa, isa) < N_PAS
      requires Good(S(), Gc(on, pba, ipa * SECTORS_PER_PAGE + isa, S().p2l[Psa(pba, ipa, isa)], gcprog, wcnt))
      requires on ==> 0 <= blocks.used < |blocks.blks| && pba == blocks.blks[blocks.used] && 0 <= ipa && 0 <= isa < SECTORS_PER_PAGE
      modifies this`ipaGc, this`isaGc, this`enableGc, this`pbaGc, this`lsaGc
      ensures Valid() && S() == old(S()) && enableGc == on && pbaGc == pba && ipaGc == ipa && isaGc == isa
    {
      hide Good, Parts, S, Inner;
      Apart();
      TableIs();
      lsaGc := tab.p2l[Psa(pba, ipa, isa)];
      enableGc := on;
      pbaGc := pba;
      ipaGc := ipa;
      isaGc := isa;
    }

    /** Copies the live sector under the collector to its next place. */
    method CopyVictim() returns (o: Outcome)
      requires Valid() && enableGc && lsaGc < N_LAS && gcprog < MAX_GCPROG
      modifies Repr()
      ensures stb == old(stb) && wcnt == old(wcnt) && gcprog == old(gcprog) + (if o.Done? then 1 else 0)
      ensures enableGc && pbaGc == old(pbaGc) && Rank() == old(Rank())
      ensures o.Crashed? ==> flash.crashSim
      ensures o.Crashed? ==> Down()
      ensures o.Done? ==> Scanned() && vlt == old(vlt)
    {
      hide Good, Parts, Durable, S, G, AtHead;
      var sector := ReadVictim();
      MakeRoom();
      o := Assign(lsaGc, sector, true);
      if o.Crashed? {
        return;
      }
      CountCopy();
    }

    /** As Valid, except that nothing is left of the sector under the collector. */
    ghost predicate Scanned()
      reads Repr()
    {
      Parts() && Good(S(), G().(lsa := N_LAS)) && ipaActive < PAGES_PER_BLOCK && flash.disciplined && AtHead() && enableGc
    }

    method CountCopy()
      requires Parts() && Good(S(), After(G(), lsaGc, true)) && ipaActive < PAGES_PER_BLOCK && flash.disciplined &&
               AtHead() && enableGc
      modifies this`gcprog
      ensures Scanned() && gcprog == old(gcprog) + 1
    {
      hide Good, Parts, S, Inner;
      Apart();
      ghost var g := After(G(), lsaGc, true);
      gcprog := gcprog + 1;
      assert G().(lsa := N_LAS) == g;
    }

    method ReadVictim() returns (sector: Sector)
      requires Valid() && enableGc && lsaGc < N_LAS
      ensures |vlt| == N_LAS && sector == vlt[lsaGc]
    {
      hide Good, Consistent, BlockList.Valid, Tables.Valid, MergeBuffer.Valid, Checkpoint.Valid, Pba, Ipa, Isa, Half, Dist;
      GoodShapes(S(), G());
      GoodVictim(S(), G());
      PsaRoundTrip(pbaGc, ipaGc, isaGc);
      var page := flash.Read(pbaGc, ipaGc);
      sector := Half(page, isaGc);
    }

    /** Moves the collector one sector on; at the end of the victim, retires it. */
    method StepGc()
      requires Scanned()
      modifies this`ipaGc, this`isaGc, this`enableGc, this`pbaGc, this`lsaGc, blocks
      ensures Valid() && S().nUsed <= old(S().nUsed) && (S().nUsed == old(S().nUsed) ==> Rank() < old(Rank()))
      ensures pbaGc == old(pbaGc) && if old(Rank()) > 1 then enableGc && Rank() == old(Rank()) - 1 else !enableGc
    {
      hide Good, Parts, S, Shaped;
      ghost var x, g := S(), G().(lsa := N_LAS);
      GoodVictimRange(x, g);
      var ipa, isa := ipaGc, isaGc + 1;
      if isa == SECTORS_PER_PAGE {
        isa := 0;
        ipa := ipa + 1;
      }
      if ipa == PAGES_PER_BLOCK {
        RetireGood(x, g, x.p2l[Psa(pbaGc, 0, 0)]);
        RetireHead(pbaGc);
        MoveGc(false, pbaGc, 0, 0);
      } else {
        StepGood(x, g);
        MoveGc(true, pbaGc, ipa, isa);
      }
    }

    method RetireHead(v: int)
      requires Parts() && Shapes(S()) && PBA_DATA <= v < BLOCKS_TOTAL && S().role[v] == Used
      requires 0 <= blocks.used < |blocks.blks| && v == blocks.blks[blocks.used]
      modifies blocks
      ensures Parts() && S() == Retire(old(S()), v)
    {
      hide Dist, Flash.Valid, BlockList.Valid, Tables.Valid, MergeBuffer.Valid, Checkpoint.Valid, Shaped;
      blocks.UsedExists(v);
      blocks.MakeVictimBlockInvalid();
    }

    /** How far the collector still has to go with its victim. */
    ghost function Rank(): int
      reads this`enableGc, this`ipaGc, this`isaGc
    {
      if enableGc then SECTORS_PER_BLOCK - (ipaGc * SECTORS_PER_PAGE + isaGc) else SECTORS_PER_BLOCK + 1
    }

    function ReachGcThreshold(): bool
      reads blocks
    {
      (if blocks.used <= blocks.active then blocks.active - blocks.used else blocks.active + BLOCKS_DATA - blocks.used) >= THRESHOLD_GC
    }

    lemma ThresholdIs()
      ensures ReachGcThreshold() <==> S().nUsed >= THRESHOLD_GC
    {
    }

    /** One step of the collector.  It changes nothing that the host can see, and it gets somewhere. */
    method GcCopy() returns (o: Outcome)
      requires Valid()
      modifies Repr()
      ensures stb == old(stb) && wcnt == old(wcnt)
      ensures o.Crashed? ==> flash.crashSim
      ensures o.Crashed? ==> Down()
      ensures o.Done? ==> Valid() && vlt == old(vlt) && old(gcprog) <= gcprog <= old(gcprog) + 1
      ensures o.Done? && old(!enableGc) ==> enableGc == old(S().nUsed >= THRESHOLD_GC) && (enableGc ==> Rank() == SECTORS_PER_BLOCK)
      ensures o.Done? && old(enableGc && gcprog < MAX_GCPROG) ==>
                pbaGc == old(pbaGc) && if old(Rank()) > 1 then enableGc && Rank() == old(Rank()) - 1 else !enableGc
      ensures o.Done? && old(gcprog < MAX_GCPROG && (enableGc || S().nUsed >= THRESHOLD_GC)) && gcprog == old(gcprog) ==>
                S().nUsed <= old(S().nUsed) && (S().nUsed == old(S().nUsed) ==> Rank() < old(Rank()))
    {
      hide Valid, S, Down, Scanned, Inner, ReachGcThreshold;
      Apart();
      ThresholdIs();
      if !enableGc && !ReachGcThreshold() {
        return Done;
      }
      if !enableGc {
        StartGc();
        return Done;
      }
      if gcprog >= MAX_GCPROG {
        return Done;
      }
      if lsaGc < N_LAS {
        :- CopyVictim();
      } else {
        NothingThere();
      }
      StepGc();
      return Done;
    }

    lemma NothingThere()
      requires Valid() && enableGc && lsaGc >= N_LAS
      ensures Scanned()
    {
      hide Good;
      GoodVictimRange(S(), G());
      GoodVictimLsa(S(), G());
      assert G().(lsa := N_LAS) == G();
    }

    /** Erases one block ahead of its use, if there is one to erase. */
    method GcErase()
      requires Valid()
      modifies blocks, flash, flash.flash, flash.flags
      ensures Valid() && S().nUsable + S().nErasable == old(S().nUsable + S().nErasable)
      ensures S().nErasable == if old(S().nErasable) > 0 then old(S().nErasable) - 1 else old(S().nErasable)
    {
      hide Good, Consistent, Flash.Valid, Dist, BlockList.Valid, Tables.Valid, MergeBuffer.Valid, Checkpoint.Valid;
      ghost var x, g := S(), G();
      GoodShapes(x, g);
      blocks.Facts();
      if blocks.erasable != blocks.invalid {
        ghost var b := EraseOne();
        EraseGood(x, g, b);
      }
    }

    // Flushing

    /** As Valid, with an empty merge buffer and without the budget, which a flush is about to renew. */
    ghost predicate Settled()
      reads Repr()
    {
      Parts() && Inv(S()) && Collecting(S(), G()) && merge.isa == 0 && ipaActive < PAGES_PER_BLOCK && flash.disciplined && AtHead()
    }

    /** The number of blocks that hold nothing live. */
    function ReadyBlocks(): int
      reads blocks
    {
      if blocks.usable <= blocks.used then blocks.used - blocks.usable else blocks.used + BLOCKS_DATA - blocks.usable
    }

    lemma ReadyIs()
      requires Parts()
      ensures ReadyBlocks() == S().nUsable + S().nErasable + S().nInvalid == BLOCKS_DATA - 1 - S().nUsed
    {
      hide Flash.Valid, Tables.Valid, MergeBuffer.Valid, Checkpoint.Valid;
      blocks.Facts();
      blocks.ReadyIs();
    }

    predicate FlushPrecondHolds()
      reads blocks
    {
      ReadyBlocks() >= RESERVE
    }

    /** When enough blocks are ready, the map leaves enough blocks for a recovery. */
    lemma ReadyMeansSound()
      requires Parts() && Inv(S()) && ReadyBlocks() >= RESERVE
      ensures |S().l2p| >= N_LAS && TouchedBlocks(S().l2p, BLOCKS_TOTAL) <= BLOCKS_DATA - RESERVE
    {
      hide Inv, Flash.Valid, Tables.Valid, MergeBuffer.Valid, Checkpoint.Valid, BlockList.Valid, CountRole, Dist,
           TouchedBlocks, ReadyBlocks;
      ReadyIs();
      blocks.Counts();
      InvReady(S());
    }

    /** Writes out a page that is only half full. */
    method PersistMergeBufferUnlessEmpty()
      requires Valid() && S().nUsable > 0
      modifies this`ipaActive, blocks, flash, flash.flash, flash.flags, merge, merge.lsas
      ensures Settled()
      ensures S() == old(S()).(c := S().c, s := S().s, role := S().role, nUsable := S().nUsable, nUsed := S().nUsed,
                               act := S().act, ipa := S().ipa, isa := 0, who := S().who)
      ensures S().nUsable == old(S().nUsable) || (S().nUsable == old(S().nUsable) - 1 && S().ipa == 0)
      ensures old(merge.isa) == 0 ==> S() == old(S())
    {
      if merge.isa != 0 {
        hide Good, Inv, Collecting, Budget, Parts;
        PersistMergeBuffer();
      } else {
        hide Inv, Collecting, Budget, Parts;
      }
    }

    method SyncDevice() returns (o: Outcome)
      requires Settled()
      modifies flash, flash.flash, flash.flags
      ensures o.Crashed? ==> flash.crashSim
      ensures o.Crashed? ==> Down()
      ensures o.Done? ==> Settled() && Shaped(flash.synced) && AllSynced(flash.synced) && S() == old(S()).(s := flash.synced)
    {
      hide Inv, Collecting, Flash.Valid, BlockList.Valid, Tables.Valid, MergeBuffer.Valid, Checkpoint.Valid, Dist,
           Durable, Consistent;
      ghost var x, g := S(), G();
      InvLog(x);
      o := flash.Sync();
      if o.Crashed? {
        DurableSurvives(x.c, x.s, m, stb, flash.cells);
        return;
      }
      flash.Facts();
      SyncKeeps(x, flash.synced);
      SyncCollecting(x, flash.synced, g);
    }

    /** The commit point: from here on a recovery finds what the host sees now. */
    method CommitPage() returns (o: Outcome)
      requires Settled() && Shaped(flash.synced) && AllSynced(flash.synced) && S().k < DELTA_PAGES
      requires |S().l2p| >= N_LAS && TouchedBlocks(S().l2p, BLOCKS_TOTAL) <= BLOCKS_DATA - RESERVE
      modifies this`m, this`stb, this`kc, chk, chk.deltaBuf, flash, flash.flash, flash.flags
      ensures o.Crashed? ==> flash.crashSim
      ensures o.Crashed? ==> Down() && stb == old(stb)
      ensures o.Done? ==> Committed() && S().nUsable == old(S().nUsable) && S().nErasable == old(S().nErasable)
      ensures o.Done? ==> S().nInvalid == old(S().nInvalid) && S().ipa == old(S().ipa)
    {
      hide Inv, Collecting, Flash.Valid, BlockList.Valid, Tables.Valid, MergeBuffer.Valid, Checkpoint.Valid, Dist;
      hide Durable, Consistent, DeltaRegion, BufferOk, PageFrom, Put, TouchedBlocks, Chosen, SlotErased, Shaped, AllSynced;
      ghost var x, g := S(), G();
      InvLog(x);
      ghost var b, p, page;
      o, b, p, page := AppendDelta(FLAG_COMMITTED);
      if o.Crashed? {
        DurableSurvives(x.c, x.s, m, stb, flash.cells);
        return;
      }
      CommitKeeps(x, b, p, page, chk.buf);
      CommitCollecting(x, b, p, page, chk.buf, g);
      MarkCommit();
    }

    /** What the host sees now is the snapshot from here on. */
    ghost method MarkCommit()
      requires Parts() && |S().l2p| >= N_LAS && S().ptr == 0 && merge.isa == 0 && ipaActive < PAGES_PER_BLOCK &&
               flash.disciplined && AtHead()
      requires Inv(S().(kc := S().k, m := S().l2p[..N_LAS], stb := vlt)) &&
               Collecting(S().(kc := S().k, m := S().l2p[..N_LAS], stb := vlt), G())
      modifies this`m, this`stb, this`kc
      ensures Committed() && S().nUsable == old(S().nUsable) && S().nErasable == old(S().nErasable)
      ensures S().nInvalid == old(S().nInvalid) && S().ipa == old(S().ipa)
    {
      hide Inv, Collecting, Parts;
      assert this !in Inner();
      m, stb, kc := tab.L[..N_LAS], vlt, chk.Position();
    }

    /** Settled, right after a commit point. */
    ghost predicate Committed()
      reads Repr()
    {
      Settled() && stb == vlt && |S().l2p| >= N_LAS && S().m == S().l2p[..N_LAS] && S().kc == S().k && S().ptr == 0
    }

    method WriteBackWhenRegionAlmostFull() returns (o: Outcome)
      requires Committed()
      modifies this`kc, chk, chk.bufCommit, chk.deltaBuf, flash, flash.flash, flash.flags
      ensures o.Crashed? ==> flash.crashSim
      ensures o.Crashed? ==> Down()
      ensures o.Done? ==> Committed() && S().kc <= THRESHOLD_DELTA_WB * PAGES_PER_BLOCK
      ensures o.Done? ==> S() == old(S()).(c := S().c, s := S().s, slot := S().slot, kc := S().kc, k := S().k, buf := S().buf, ptr := 0)
      ensures o.Done? && old(chk.pbaDelta) < THRESHOLD_DELTA_WB ==> S() == old(S())
    {
      if chk.pbaDelta >= THRESHOLD_DELTA_WB {
        o := WriteBack();
      } else {
        hide Inv, Collecting, Flash.Valid, BlockList.Valid, Tables.Valid, MergeBuffer.Valid, Checkpoint.Valid, Dist;
        o := Done;
      }
    }

    method WriteBack() returns (o: Outcome)
      requires Committed()
      modifies this`kc, chk, chk.bufCommit, chk.deltaBuf, flash, flash.flash, flash.flags
      ensures o.Crashed? ==> flash.crashSim
      ensures o.Crashed? ==> Down()
      ensures o.Done? ==> Committed() && S().kc == 1
      ensures o.Done? ==> S() == old(S()).(c := S().c, s := S().s, slot := S().slot, kc := S().kc, k := S().k, buf := S().buf, ptr := 0)
    {
      hide Inv, Collecting, Flash.Valid, BlockList.Valid, Tables.Valid, MergeBuffer.Valid, Dist;
      hide Durable, Consistent, DeltaRegion, BufferOk, Put, Chosen, SlotErased, HoldsFull, SameData;
      ghost var x, g := S(), G();
      InvLog(x);
      tab.Facts();
      o := chk.WriteBack(tab.l2p, m, stb);
      if o.Crashed? {
        return;
      }
      kc := 1;
      flash.Facts();
      RewrittenKeeps(x, S());
      RewrittenCollecting(x, S(), g);
    }

    /** What was emptied before the commit point may be erased now, and the counters start again. */
    method EndEpoch()
      requires Committed() && S().kc <= THRESHOLD_DELTA_WB * PAGES_PER_BLOCK
      requires SIZES.Refilled(S().nUsable + S().nErasable + S().nInvalid, S().ipa)
      modifies this`gcprog, this`wcnt, blocks
      ensures Valid() && wcnt == 0 && gcprog == 0
    {
      hide Inv, Collecting, Flash.Valid, BlockList.Valid, Tables.Valid, MergeBuffer.Valid, Checkpoint.Valid, Dist;
      ghost var x, g := S(), G();
      blocks.Facts();
      ReleaseKeeps(x);
      blocks.MakeAllInvalidBlocksErasable();
      gcprog := 0;
      wcnt := 0;
      EpochGood(x, g);
    }

    /** Settled, with room for a commit and a sound map. */
    ghost predicate Prepared()
      reads Repr()
    {
      && Settled() && S().k < DELTA_PAGES && SIZES.Refilled(S().nUsable + S().nErasable + S().nInvalid, S().ipa)
      && |S().l2p| >= N_LAS && TouchedBlocks(S().l2p, BLOCKS_TOTAL) <= BLOCKS_DATA - RESERVE
    }

    method PrepareFlush()
      requires Valid() && FlushPrecondHolds()
      modifies Repr()
      ensures Prepared() && vlt == old(vlt) && stb == old(stb) && !failed
    {
      hide Inv, Collecting, Budget, Parts, Settled, TouchedBlocks, DeltaRegion, Durable, BufferOk;
      ReadyMeansSound();
      ReadyIs();
      GoodLog(S(), G());
      hide Good, S, G;
      Apart();
      failed := !FlushPrecondHolds();
      MakeOneErasableBlockFreeWhenFreeBlklistEmpty();
      PersistMergeBufferUnlessEmpty();
    }

    /** Makes everything written so far permanent.  A crash leaves the old snapshot or the new one, never a mixture. */
    method Flush() returns (o: Outcome)
      requires Valid() && FlushPrecondHolds()
      modifies Repr()
      ensures o.Crashed? ==> flash.crashSim
      ensures o.Crashed? ==> Down() && (stb == old(stb) || stb == old(vlt))
      ensures o.Done? ==> Valid() && vlt == old(vlt) && stb == old(vlt) && wcnt == 0 && gcprog == 0
    {
      hide Valid, Settled, Down, S, AllSynced, TouchedBlocks, Shaped;
      PrepareFlush();
      :- SyncDevice();
      :- CommitPage();
      :- WriteBackWhenRegionAlmostFull();
      EndEpoch();
      return Done;
    }

    /** The bounds of the collector's progress. */
    lemma Measures()
      requires Valid()
      ensures 0 <= gcprog <= MAX_GCPROG && 0 <= S().nUsed && 0 <= Rank()
    {
      hide Good;
      GoodShapes(S(), G());
      blocks.Facts();
      if enableGc {
        GoodVictimRange(S(), G());
      }
    }

    /** As long as too few blocks are ready, the collector has a victim or finds one, and has copies left. */
    lemma CollectorCanWork()
      requires Valid() && !FlushPrecondHolds()
      ensures gcprog < MAX_GCPROG && S().nUsed >= THRESHOLD_GC
    {
      hide Inv, Parts;
      ReadyIs();
      GoodSpent(S(), G());
    }

    lemma ErasableBlocks()
      requires Valid()
      ensures 0 <= S().nErasable < BLOCKS_DATA
    {
      hide Good, Flash.Valid, Tables.Valid, MergeBuffer.Valid, Checkpoint.Valid;
      blocks.Facts();
    }

    // Recovery

    /** Rebuilds the map from the checkpoints and writes them anew; a crash on the way changes nothing. */
    method RecoverCheckpoints() returns (o: Outcome)
      requires Down()
      modifies tab.l2p, chk, chk.bufCommit, chk.deltaBuf, flash, flash.flash, flash.flags
      ensures o.Crashed? ==> flash.crashSim
      ensures o.Crashed? ==> Down()
      ensures o.Done? ==>
                && Separate() && flash.Valid() && flash.disciplined && chk.Valid() && chk.ptrDeltaBuf == 0
                && Durable(flash.cells, flash.synced, m, stb) && chk.AtRest(1) && chk.Position() == 1
                && |m| == N_LAS && tab.l2p[..N_LAS] == m
    {
      hide Durable, Decodes, DeltaRegion, SlotErased, HoldsFull, Chosen, Flash.Valid, BufferOk, AllMetaSynced, BlockErased;
      DurableShape(flash.cells, flash.synced, m, stb);
      chk.ReadMap(tab.l2p, m);
      ghost var c, s := flash.cells, flash.synced;
      o := flash.Sync();
      if o.Crashed? {
        DurableSurvives(c, s, m, stb, flash.cells);
        return;
      }
      flash.Facts();
      DurableSynced(c, s, flash.synced, m, stb);
      chk.ResetDeltaBuf();
      chk.ToggleFullChkpt();
      SlotSynced(flash.synced, 1 - chk.ptrFull);
      :- chk.DeleteFullChkpt(m, stb);
      o := chk.WriteBack(tab.l2p, m, stb);
    }

    /** Rebuilds the tables and the block list from the map, and opens a block for writing. */
    method RebuildBlocks() returns (ghost role: seq<Role>)
      requires Separate() && flash.Valid()
      requires InRange(tab.l2p[..]) && Injective(tab.l2p[..]) && TouchedBlocks(tab.l2p[..], BLOCKS_TOTAL) <= BLOCKS_DATA - RESERVE
      modifies this`failed, tab, tab.p2l, tab.vcnts, blocks, blocks.list, flash, flash.flash, flash.flags
      ensures flash.Valid() && tab.Valid() && blocks.Valid() && !failed && flash.disciplined == old(flash.disciplined)
      ensures tab.L == tab.l2p[..] && PBA_DATA <= blocks.pbaActive < BLOCKS_TOTAL
      ensures |role| == BLOCKS_TOTAL && blocks.role == role[blocks.pbaActive := Active] && role[blocks.pbaActive] == Erasable
      ensures forall b :: 0 <= b < PBA_DATA ==> role[b] == Reserved
      ensures forall b :: PBA_DATA <= b < BLOCKS_TOTAL ==> role[b] == if Touches(tab.l2p[..], b) then Used else Erasable
      ensures Shaped(old(flash.cells)) && flash.cells == old(flash.cells)[blocks.pbaActive := Uniform(Erased)]
      ensures Shaped(old(flash.synced)) && flash.synced == old(flash.synced)[blocks.pbaActive := Uniform(false)]
      ensures blocks.Cur().NUsable() == 0 && blocks.Cur().NInvalid() == 0 && blocks.Cur().NErasable() >= RESERVE - 1
    {
      hide InRange, Injective, Flash.Valid, Consistent, Dist, Ring, Permutation, Touches, TouchedBlocks;
      flash.Facts();
      tab.Reconstruct();
      tab.Facts();
      hide Tables.Valid;
      blocks.ReconstructBlockList(tab.l2p);
      role := blocks.role;
      failed := !(blocks.erasable <= BLOCKS_DATA - RESERVE);
      assert !failed;
      blocks.OpenFirstBlock(flash, tab.L);
      blocks.Facts();
    }

    method RebuildParts() returns (ghost role: seq<Role>)
      requires Separate() && flash.Valid() && chk.Valid() && chk.Positioned()
      requires InRange(tab.l2p[..]) && Injective(tab.l2p[..]) && TouchedBlocks(tab.l2p[..], BLOCKS_TOTAL) <= BLOCKS_DATA - RESERVE
      modifies this`ipaActive, this`failed, tab, tab.p2l, tab.vcnts, blocks, blocks.list, merge, merge.lsas, flash,
               flash.flash, flash.flags
      ensures Parts() && ipaActive == 0 && !failed && flash.disciplined == old(flash.disciplined)
      ensures tab.L == tab.l2p[..] && merge.isa == 0 && merge.who == [N_LAS, N_LAS]
      ensures |S().l2p| >= N_LAS && Opened(S(), role)
      ensures Shaped(old(flash.cells)) && flash.cells == old(flash.cells)[S().act := Uniform(Erased)]
      ensures Shaped(old(flash.synced)) && flash.synced == old(flash.synced)[S().act := Uniform(false)]
      ensures S().nUsable == 0 && S().nInvalid == 0 && S().nErasable >= RESERVE - 1
    {
      hide InRange, Injective, Flash.Valid, Tables.Valid, BlockList.Valid, Checkpoint.Valid, Dist, Touches, TouchedBlocks, Shaped;
      role := RebuildBlocks();
      merge.Invalidate();
      ipaActive := 0;
    }

    /** The rebuilt state is good, once the counters and the collector are reset. */
    method RebuildState()
      requires Separate() && flash.Valid() && flash.disciplined && chk.Valid() && chk.ptrDeltaBuf == 0
      requires Durable(flash.cells, flash.synced, m, stb) && chk.AtRest(1) && chk.Position() == 1
      requires |m| == N_LAS && tab.l2p[..N_LAS] == m && vlt == stb && kc == 1
      modifies this`ipaActive, this`failed, tab, tab.p2l, tab.vcnts, blocks, blocks.list, merge, merge.lsas, flash,
               flash.flash, flash.flags
      ensures Parts() && ipaActive == 0 && flash.disciplined && !failed
      ensures forall g: Gc :: !g.on && g.gcprog == 0 && g.wcnt == 0 ==> Good(S(), g)
    {
      hide Durable, Decodes, DeltaRegion, SlotErased, Chosen, BufferOk, AllMetaSynced, Dist, Sound, Consistent, Opened, Good;
      hide Flash.Valid, Tables.Valid, BlockList.Valid, InRange, Injective, TouchedBlocks;
      DurableShape(flash.cells, flash.synced, m, stb);
      DurableSound(flash.cells, flash.synced, m, stb);
      SoundWhole(tab.l2p[..], m);
      ghost var c, s := flash.cells, flash.synced;
      ghost var role := RebuildParts();
      ghost var x := S();
      tab.Facts();
      flash.Facts();
      blocks.Facts();
      assert Fresh(x);
      forall g: Gc | !g.on && g.gcprog == 0 && g.wcnt == 0 ensures Good(x, g) {
        RecoveredGood(x, g, c, s, role);
      }
    }

    /** Rebuilds everything else from the map. */
    method RecoverTables()
      requires Separate() && flash.Valid() && flash.disciplined && chk.Valid() && chk.ptrDeltaBuf == 0
      requires Durable(flash.cells, flash.synced, m, stb) && chk.AtRest(1) && chk.Position() == 1
      requires |m| == N_LAS && tab.l2p[..N_LAS] == m
      modifies Repr()
      ensures Valid() && vlt == stb == old(stb) && wcnt == 0 && gcprog == 0 && !failed
    {
      hide Durable, Good, S, Parts, Checkpoint.AtRest, Valid;
      vlt, kc := stb, 1;
      RebuildState();
      ResetVariables();
      CheckMap();
    }

    method CheckMap()
      requires Valid()
      modifies this`failed
      ensures Valid() && !failed
    {
      hide Good, Flash.Valid, BlockList.Valid, MergeBuffer.Valid, Checkpoint.Valid, InRange, Injective, Inverse, Counted;
      InverseIsInjective(tab.L, tab.P);
      failed := tab.CheckInjective();
    }

    method ResetVariables()
      requires Parts() && ipaActive == 0 && flash.disciplined
      requires forall g: Gc :: !g.on && g.gcprog == 0 && g.wcnt == 0 ==> Good(S(), g)
      modifies this`enableGc, this`ipaGc, this`isaGc, this`pbaGc, this`lsaGc, this`gcprog, this`wcnt
      ensures Valid() && wcnt == 0 && gcprog == 0 && !enableGc && ipaGc == 0 && isaGc == 0 && pbaGc == PBA_DATA && lsaGc == N_LAS
    {
      hide Good, S, Parts, Inner;
      Apart();
      enableGc := false;
      ipaGc := 0;
      isaGc := 0;
      pbaGc := PBA_DATA;
      lsaGc := N_LAS;
      gcprog := 0;
      wcnt := 0;
    }

    /** Brings back the last snapshot; a crash inside recovery does not lose it. */
    method Recovery() returns (o: Outcome)
      requires Down()
      modifies Repr()
      ensures stb == old(stb)
      ensures o.Crashed? ==> flash.crashSim
      ensures o.Crashed? ==> Down()
      ensures o.Done? ==> Valid() && vlt == stb && wcnt == 0 && gcprog == 0 && !failed
    {
      hide Durable, Separate, Valid, Checkpoint.AtRest;
      :- RecoverCheckpoints();
      RecoverTables();
      return Done;
    }

    // Formatting

    /** Prepares an empty device: no sector is mapped, and every sector reads as ones. */
    method Format() returns (o: Outcome)
      requires Separate() && flash.Valid() && flash.disciplined
      modifies Repr()
      ensures flash.Valid() && flash.disciplined
      ensures o.Crashed? ==> flash.crashSim
      ensures o.Done? ==> Down() && stb == seq(N_LAS, _ => OnesSector())
    {
      hide Durable, Flash.Valid, HoldsFull, AllSynced, Contents, BlockErased;
      ClearMap();
      chk.ptrFull := 0;
      :- FormatFull();
      :- FormatSentinel();
      return Done;
    }

    /** Programs the page that unmapped sectors read from. */
    method FormatSentinel() returns (o: Outcome)
      requires flash.Valid() && flash.disciplined && Shaped(flash.cells) && Shaped(flash.synced) && AllSynced(flash.synced)
      requires HoldsFull(flash.cells, 0, seq(N_LAS, _ => N_PAS)) && Contents(flash.cells[PBA_FIRST_FULL_COMMIT][0])[0] == 0
      requires flash.cells[PBA_DELTA][0].Erased? && BlockErased(flash.cells, BLOCKS_TOTAL)
      modifies this`m, this`stb, flash, flash.flash, flash.flags
      ensures flash.Valid() && flash.disciplined
      ensures o.Crashed? ==> flash.crashSim
      ensures o.Done? ==> Durable(flash.cells, flash.synced, m, stb) && stb == seq(N_LAS, _ => OnesSector())
    {
      hide Durable, Flash.Valid, HoldsFull, Contents, Put;
      var bufTmp := new Word[ENTRIES_PER_PAGE](_ => ONES);
      assert bufTmp[..] == seq(ENTRIES_PER_PAGE, _ => ONES);
      ghost var c, s := flash.cells, flash.synced;
      :- flash.Program(BLOCKS_TOTAL, 0, bufTmp, true);
      m, stb := seq(N_LAS, _ => N_PAS), seq(N_LAS, _ => OnesSector());
      SentinelDurable(c, s, m, stb);
      return Done;
    }

    /** Erases the device and writes the first full checkpoint. */
    method FormatFull() returns (o: Outcome)
      requires Separate() && flash.Valid() && flash.disciplined
      requires forall l :: 0 <= l <= N_LAS ==> tab.l2p[l] == N_PAS
      modifies chk.bufCommit, flash, flash.flash, flash.flags
      ensures flash.Valid() && flash.disciplined
      ensures o.Crashed? ==> flash.crashSim
      ensures o.Done? ==>
                && Shaped(flash.cells) && Shaped(flash.synced) && AllSynced(flash.synced)
                && HoldsFull(flash.cells, 0, seq(N_LAS, _ => N_PAS))
                && Contents(flash.cells[PBA_FIRST_FULL_COMMIT][0])[0] == 0
                && flash.cells[PBA_DELTA][0].Erased? && BlockErased(flash.cells, BLOCKS_TOTAL)
    {
      hide Flash.Valid, HoldsFull;
      flash.EraseBulk(0, BLOCKS_TOTAL + 1);
      flash.Facts();
      flash.ProgramBulk(PBA_FIRST_FULL, BLOCKS_FULL, tab.l2p);
      flash.Facts();
      ghost var c := flash.cells;
      FormattedFull(c, tab.l2p[..]);
      :- flash.Sync();
      flash.Facts();
      chk.bufCommit[0] := 0;
      :- flash.Program(PBA_FIRST_FULL_COMMIT, 0, chk.bufCommit, true);
      flash.Facts();
      KeepsFull(c, flash.cells, 0, seq(N_LAS, _ => N_PAS));
      return Done;
    }

    method ClearMap()
      requires tab.l2p.Length == N_LAS + 1
      modifies tab.l2p
      ensures forall l :: 0 <= l <= N_LAS ==> tab.l2p[l] == N_PAS
    {
      var i := 0;
      while i < N_LAS + 1
        invariant 0 <= i <= N_LAS + 1
        invariant forall l :: 0 <= l < i ==> tab.l2p[l] == N_PAS
      {
        tab.l2p[i] := N_PAS;
        i := i + 1;
      }
    }
  }
}
