/**
 Writing checkpoints: the buffer of address pairs that becomes the next delta page, the
 position in the delta region, and the two slots for full checkpoints, of which ptrFull
 names the empty one.  Every method says what a crash inside it leaves: the same map and
 the same sector contents as before.
 */
module Checkpointing {
  import opened Geometry
  import opened FlashDevice
  import opened Mapping
  import opened Snapshot

  /** The first ptr pairs of the buffer are in use, the others name no sector. */
  ghost predicate BufferOk(buf: Page, ptr: int) {
    && 0 <= ptr <= N_DELTA_PAIR
    && (forall i :: 0 <= i < N_DELTA_PAIR ==> Las(buf, i) <= N_LAS)
    && (forall i :: ptr <= i < N_DELTA_PAIR ==> Las(buf, i) == N_LAS)
  }

  ghost predicate BlockErased(c: Image, b: int)
    requires Shaped(c) && 0 <= b < NUM_BLOCKS
  {
    forall p :: 0 <= p < PAGES_PER_BLOCK ==> c[b][p].Erased?
  }

  ghost predicate SlotErased(c: Image, slot: int)
    requires Shaped(c)
  {
    BlockErased(c, FullBlock(slot)) && BlockErased(c, CommitBlock(slot))
  }

  /** d has the same blocks as c except in [lo, hi). */
  ghost predicate SameBut<T(!new)>(c: seq<seq<T>>, d: seq<seq<T>>, lo: int, hi: int)
    requires Shaped(c) && Shaped(d)
  {
    forall b :: 0 <= b < NUM_BLOCKS && !(lo <= b < hi) ==> d[b] == c[b]
  }

  /** The buffer with its n-th pair filled in. */
  function WithPair(buf: Page, n: int, la: Word, pa: Word): Page
    requires 0 <= n < N_DELTA_PAIR
  {
    buf[n + OFFSET_LAS := la][n + OFFSET_PAS := pa]
  }

  lemma AppendedPair(buf: Page, n: int, la: Word, pa: Word)
    requires 0 <= n < N_DELTA_PAIR
    ensures var b := WithPair(buf, n, la, pa);
            forall i :: 0 <= i < N_DELTA_PAIR ==>
              && Las(b, i) == (if i == n then la else Las(buf, i))
              && Pas(b, i) == (if i == n then pa else Pas(buf, i))
  {
  }

  class Checkpoint {
    const flash: Flash
    const deltaBuf: array<Word>
    const bufCommit: array<Word>
    var ptrDeltaBuf: int
    var pbaDelta: int
    var ipaDelta: int
    var ptrFull: int
    /** What deltaBuf holds. */
    ghost var buf: Page

    ghost predicate Sized() {
      && deltaBuf.Length == ENTRIES_PER_PAGE && bufCommit.Length == ENTRIES_PER_PAGE && deltaBuf != bufCommit
    }

    ghost predicate Valid()
      reads this, deltaBuf
    {
      && Sized() && buf == deltaBuf[..] && BufferOk(buf, ptrDeltaBuf)
      && 0 <= ptrFull <= 1
    }

    constructor (flash: Flash)
      ensures this.flash == flash && Valid() && ptrDeltaBuf == 0 && ptrFull == 0 && fresh(deltaBuf) && fresh(bufCommit)
    {
      this.flash := flash;
      deltaBuf := new Word[ENTRIES_PER_PAGE](_ => N_LAS);
      bufCommit := new Word[ENTRIES_PER_PAGE](_ => 0);
      ptrDeltaBuf, pbaDelta, ipaDelta, ptrFull := 0, 0, 0, 0;
      buf := seq(ENTRIES_PER_PAGE, _ => N_LAS);
    }

    lemma Facts()
      requires Valid()
      ensures 0 <= ptrDeltaBuf <= N_DELTA_PAIR && 0 <= ptrFull <= 1 && BufferOk(buf, ptrDeltaBuf)
    {
    }

    method ResetDeltaBuf()
      requires Sized() && 0 <= ptrFull <= 1
      modifies this`ptrDeltaBuf, this`buf, deltaBuf
      ensures Valid() && ptrDeltaBuf == 0
    {
      ptrDeltaBuf := 0;
      var idx := OFFSET_LAS;
      while idx != OFFSET_LAS + N_DELTA_PAIR
        invariant OFFSET_LAS <= idx <= OFFSET_LAS + N_DELTA_PAIR && ptrDeltaBuf == 0
        invariant forall i :: OFFSET_LAS <= i < idx ==> deltaBuf[i] == N_LAS
      {
        deltaBuf[idx] := N_LAS;
        idx := idx + 1;
      }
      buf := deltaBuf[..];
    }

    method AppendDeltaPair(la: Word, pa: Word)
      requires Valid() && ptrDeltaBuf < N_DELTA_PAIR && la < N_LAS
      modifies this`ptrDeltaBuf, this`buf, deltaBuf
      ensures Valid() && ptrDeltaBuf == old(ptrDeltaBuf) + 1
      ensures buf == WithPair(old(buf), old(ptrDeltaBuf), la, pa)
    {
      AppendedPair(buf, ptrDeltaBuf, la, pa);
      deltaBuf[ptrDeltaBuf + OFFSET_LAS] := la;
      deltaBuf[ptrDeltaBuf + OFFSET_PAS] := pa;
      buf := WithPair(buf, ptrDeltaBuf, la, pa);
      ptrDeltaBuf := ptrDeltaBuf + 1;
    }

    /** The number of delta pages written so far. */
    function Position(): int
      reads this
    {
      pbaDelta * PAGES_PER_BLOCK + ipaDelta
    }

    ghost predicate Positioned()
      reads this
    {
      0 <= pbaDelta && 0 <= ipaDelta <= PAGES_PER_BLOCK && 0 <= Position() <= DELTA_PAGES
    }

    /** Writes the buffer to the next page of the delta region. */
    method CreateOneDeltaChkpt(flag: Word, ghost kc: int) returns (o: Outcome)
      requires Valid() && flash.Valid() && deltaBuf != bufCommit
      requires flag == FLAG_COMMITTED || flag == FLAG_TENTATIVE
      requires Positioned() && Position() < DELTA_PAGES && DeltaRegion(flash.cells, kc, Position())
      modifies this, deltaBuf, flash, flash.flash, flash.flags
      ensures flash.Valid() && Sized() && flash.disciplined == old(flash.disciplined)
      ensures o.Crashed? ==> flash.crashSim
      ensures o.Crashed? ==> CrashImage(old(flash.cells), old(flash.synced), flash.cells) && flash.synced == old(flash.synced)
      ensures o.Done? ==>
                && Valid() && ptrDeltaBuf == old(ptrDeltaBuf) && ptrFull == old(ptrFull)
                && Positioned() && Position() == old(Position()) + 1
                && (forall i :: 0 <= i < N_DELTA_PAIR ==> Las(buf, i) == Las(old(buf), i) && Pas(buf, i) == Pas(old(buf), i))
                && buf[OFFSET_COMMIT] == flag
                && 0 <= pbaDelta < BLOCKS_DELTA && 0 < ipaDelta
                && flash.cells == Put(old(flash.cells), pbaDelta, ipaDelta - 1, Programmed(buf))
                && flash.synced == Put(old(flash.synced), pbaDelta, ipaDelta - 1, true)
    {
      hide DeltaRegion, Put;
      if ipaDelta == PAGES_PER_BLOCK {
        ipaDelta := 0;
        pbaDelta := pbaDelta + 1;
      }
      AppendedInOrder(flash.cells, kc, pbaDelta, ipaDelta);
      SetFlag(flag);
      hide BufferOk, Las, Pas;
      :- flash.Program(pbaDelta, ipaDelta, deltaBuf, true);
      ipaDelta := ipaDelta + 1;
      return Done;
    }

    /** Writes l2p to the empty slot and then commits it. */
    method CreateFullChkpt(l2p: array<Word>, ghost m: seq<Word>, ghost stb: seq<Sector>) returns (o: Outcome)
      requires Sized() && 0 <= ptrFull <= 1 && flash.Valid() && l2p != bufCommit
      requires Durable(flash.cells, flash.synced, m, stb) && Chosen(flash.cells) == 1 - ptrFull
      requires SlotErased(flash.cells, ptrFull)
      requires l2p.Length == N_LAS + 1 && l2p[..N_LAS] == m
      modifies bufCommit, flash, flash.flash, flash.flags
      ensures flash.Valid() && flash.disciplined == old(flash.disciplined)
      ensures o.Crashed? ==> flash.crashSim
      ensures o.Crashed? ==> Durable(flash.cells, flash.synced, m, stb)
      ensures o.Done? ==>
                && Durable(flash.cells, flash.synced, m, stb) && AllSynced(flash.synced)
                && HoldsFull(flash.cells, ptrFull, m) && Contents(flash.cells[CommitBlock(ptrFull)][0])[0] == 0
                && SameBut(old(flash.cells), flash.cells, FullBlock(ptrFull), FullBlock(ptrFull) + 2)
    {
      hide Durable, Decodes, MetaSynced, HoldsFull, Put;
      DurableShape(flash.cells, flash.synced, m, stb);
      ghost var c, s := flash.cells, flash.synced;
      flash.ProgramBulk(FullBlock(ptrFull), BLOCKS_FULL, l2p);
      ProgrammedFull(flash, c, s, ptrFull, l2p, m, stb);
      ghost var c1, s1 := flash.cells, flash.synced;
      o := flash.Sync();
      if o.Crashed? {
        DurableSurvives(c1, s1, m, stb, flash.cells);
        return;
      }
      bufCommit[0] := 0;
      ghost var s2 := flash.synced;
      DurableSynced(c1, s1, s2, m, stb);
      o := flash.Program(CommitBlock(ptrFull), 0, bufCommit, true);
      if o.Crashed? {
        DurableSurvives(c1, s2, m, stb, flash.cells);
        return;
      }
      CommittedFull(c1, s2, ptrFull, bufCommit[..], m, stb);
    }

    /** Erases the commit record of slot ptrFull, then the checkpoint itself. */
    method DeleteFullChkpt(ghost m: seq<Word>, ghost stb: seq<Sector>) returns (o: Outcome)
      requires 0 <= ptrFull <= 1 && flash.Valid() && Durable(flash.cells, flash.synced, m, stb)
      requires Chosen(flash.cells) == 1 - ptrFull || (ptrFull == 0 && HoldsFull(flash.cells, 1, m))
      requires ChosenSynced(flash.synced, 1 - ptrFull)
      modifies flash, flash.flash, flash.flags
      ensures flash.Valid() && flash.disciplined == old(flash.disciplined)
      ensures o.Crashed? ==> flash.crashSim
      ensures o.Crashed? ==> Durable(flash.cells, flash.synced, m, stb)
      ensures o.Done? ==>
                && Durable(flash.cells, flash.synced, m, stb)
                && Chosen(flash.cells) == 1 - ptrFull && SlotErased(flash.cells, ptrFull)
                && SameBut(old(flash.cells), flash.cells, FullBlock(ptrFull), FullBlock(ptrFull) + 2)
    {
      hide Durable, Decodes, MetaSynced, HoldsFull;
      DurableShape(flash.cells, flash.synced, m, stb);
      ghost var c, s := flash.cells, flash.synced;
      o := flash.Erase(CommitBlock(ptrFull), true);
      if o.Crashed? {
        DurableSurvives(c, s, m, stb, flash.cells);
        return;
      }
      UncommittedFull(c, s, ptrFull, m, stb);
      ghost var c1, s1 := flash.cells, flash.synced;
      flash.EraseBulk(FullBlock(ptrFull), BLOCKS_FULL);
      SlotWritten(c1, s1, flash.cells, flash.synced, ptrFull, m, stb);
    }

    /** Empties the delta region and starts it again with a committed page without pairs. */
    method DeleteAllDeltaChkpts(ghost m: seq<Word>, ghost stb: seq<Sector>) returns (o: Outcome)
      requires Valid() && ptrDeltaBuf == 0 && flash.Valid() && Durable(flash.cells, flash.synced, m, stb)
      requires HoldsFull(flash.cells, Chosen(flash.cells), m)
      modifies this`pbaDelta, this`ipaDelta, this`buf, deltaBuf, flash, flash.flash, flash.flags
      ensures flash.Valid() && flash.disciplined == old(flash.disciplined) && Sized()
      ensures o.Crashed? ==> flash.crashSim
      ensures o.Crashed? ==> Durable(flash.cells, flash.synced, m, stb)
      ensures o.Done? ==>
                && Valid() && Durable(flash.cells, flash.synced, m, stb) && AllSynced(flash.synced)
                && DeltaRegion(flash.cells, 1, 1) && Positioned() && Position() == 1 && pbaDelta == 0
                && SameBut(old(flash.cells), flash.cells, PBA_DELTA, PBA_DELTA + BLOCKS_DELTA)
    {
      hide Durable, HoldsFull, DeltaRegion, Put, AllSynced, BlockErased;
      DurableShape(flash.cells, flash.synced, m, stb);
      :- EraseDeltaRegion(m, stb);
      DurableShape(flash.cells, flash.synced, m, stb);
      ghost var c, s := flash.cells, flash.synced;
      SetFlag(0);
      o := flash.Program(PBA_DELTA, 0, deltaBuf, true);
      if o.Crashed? {
        DurableSurvives(c, s, m, stb, flash.cells);
        return;
      }
      RegionStarted(c, s, buf, m, stb);
      ipaDelta := 1;
      pbaDelta := 0;
    }

    method SetFlag(flag: Word)
      requires Valid()
      modifies this`buf, deltaBuf
      ensures Valid() && buf[OFFSET_COMMIT] == flag
      ensures forall i :: 0 <= i < N_DELTA_PAIR ==> Las(buf, i) == Las(old(buf), i) && Pas(buf, i) == Pas(old(buf), i)
    {
      deltaBuf[OFFSET_COMMIT] := flag;
      ghost var b0 := buf;
      buf := buf[OFFSET_COMMIT := flag];
      assert forall i :: 0 <= i < N_DELTA_PAIR ==> Las(buf, i) == Las(b0, i) && Pas(buf, i) == Pas(b0, i);
    }

    /** Erases the whole region, its first block before everything else. */
    method EraseDeltaRegion(ghost m: seq<Word>, ghost stb: seq<Sector>) returns (o: Outcome)
      requires flash.Valid() && Durable(flash.cells, flash.synced, m, stb)
      requires HoldsFull(flash.cells, Chosen(flash.cells), m)
      modifies flash, flash.flash, flash.flags
      ensures flash.Valid() && flash.disciplined == old(flash.disciplined)
      ensures o.Crashed? ==> flash.crashSim
      ensures o.Crashed? ==> Durable(flash.cells, flash.synced, m, stb)
      ensures o.Done? ==>
                && Durable(flash.cells, flash.synced, m, stb) && AllSynced(flash.synced)
                && HoldsFull(flash.cells, Chosen(flash.cells), m)
                && (forall b :: 0 <= b < BLOCKS_DELTA ==> BlockErased(flash.cells, b))
                && SameBut(old(flash.cells), flash.cells, PBA_DELTA, PBA_DELTA + BLOCKS_DELTA)
    {
      hide Durable, HoldsFull, Chosen;
      DurableShape(flash.cells, flash.synced, m, stb);
      ghost var c, s := flash.cells, flash.synced;
      o := flash.Erase(PBA_DELTA, true);
      if o.Crashed? {
        DurableSurvives(c, s, m, stb, flash.cells);
        return;
      }
      FirstBlockErased(c, s, m, stb);
      ghost var c1, s1 := flash.cells, flash.synced;
      flash.EraseBulk(PBA_DELTA + 1, BLOCKS_DELTA - 1);
      RegionErased(c1, s1, flash.cells, flash.synced, m, stb);
      ghost var c2, s2 := flash.cells, flash.synced;
      o := flash.Sync();
      if o.Crashed? {
        DurableSurvives(c2, s2, m, stb, flash.cells);
        return;
      }
      DurableSynced(c2, s2, flash.synced, m, stb);
    }

    method ToggleFullChkpt()
      requires 0 <= ptrFull <= 1
      modifies this`ptrFull
      ensures ptrFull == 1 - old(ptrFull)
    {
      ptrFull := (ptrFull + 1) % 2;
    }

    /** The slots and the region between two operations of the layer. */
    ghost predicate AtRest(kc: int)
      reads this, flash
      requires Shaped(flash.cells) && Shaped(flash.synced)
    {
      && 0 <= ptrFull <= 1 && Positioned()
      && SlotErased(flash.cells, ptrFull) && Chosen(flash.cells) == 1 - ptrFull
      && DeltaRegion(flash.cells, kc, Position())
      && AllMetaSynced(flash.synced)
    }

    /** Replaces the full checkpoint by one of the current map and empties the delta region. */
    method WriteBack(l2p: array<Word>, ghost m: seq<Word>, ghost stb: seq<Sector>) returns (o: Outcome)
      requires Valid() && ptrDeltaBuf == 0 && flash.Valid() && l2p != bufCommit && l2p != deltaBuf
      requires Durable(flash.cells, flash.synced, m, stb)
      requires SlotErased(flash.cells, ptrFull) && Chosen(flash.cells) == 1 - ptrFull
      requires l2p.Length == N_LAS + 1 && l2p[..N_LAS] == m
      modifies this`ptrFull, this`pbaDelta, this`ipaDelta, this`buf, bufCommit, deltaBuf, flash, flash.flash, flash.flags
      ensures flash.Valid() && flash.disciplined == old(flash.disciplined) && Sized()
      ensures o.Crashed? ==> flash.crashSim
      ensures o.Crashed? ==> Durable(flash.cells, flash.synced, m, stb)
      ensures o.Done? ==>
                && Valid() && AtRest(1) && Position() == 1 && pbaDelta == 0 && AllSynced(flash.synced)
                && Durable(flash.cells, flash.synced, m, stb) && HoldsFull(flash.cells, Chosen(flash.cells), m)
                && SameData(old(flash.cells), flash.cells)
    {
      hide Durable, HoldsFull, BlockErased, DeltaRegion, BufferOk;
      DurableShape(flash.cells, flash.synced, m, stb);
      ghost var slot, c0 := ptrFull, flash.cells;
      :- CreateFullChkpt(l2p, m, stb);
      ghost var c1 := flash.cells;
      ToggleFullChkpt();
      :- DeleteFullChkpt(m, stb);
      ghost var c2 := flash.cells;
      KeepsFull(c1, c2, slot, m);
      :- DeleteAllDeltaChkpts(m, stb);
      KeepsFull(c2, flash.cells, slot, m);
      SlotStaysErased(c2, flash.cells, ptrFull);
      return Done;
    }

    /** Reads back the map that the checkpoints on the device describe. */
    method ReadMap(l2p: array<Word>, ghost m: seq<Word>)
      requires flash.Valid() && l2p.Length == N_LAS + 1 && Decodes(flash.cells, m)
      modifies this`ptrFull, l2p
      ensures 0 <= ptrFull <= 1 && ptrFull == Chosen(flash.cells)
      ensures l2p[..N_LAS] == m && l2p[N_LAS] == N_PAS
    {
      hide Replay, FullEntry, LogInRange;
      FindCommittedFullChkpt();
      ApplyFullChkpt(l2p);
      var pbaCommitted, ipaCommitted := FindLastCommittedDeltaChkpt();
      var erased := FirstDeltaPageErased();
      if erased {
        pbaCommitted, ipaCommitted := 0, 0;
      }
      ApplyDeltaChkpt(l2p, pbaCommitted, ipaCommitted);
      l2p[N_LAS] := N_PAS;
      forall l | 0 <= l < N_LAS ensures l2p[l] == m[l] {
        DecodeIs(flash.cells, l);
      }
    }

    // Reading checkpoints back

    method FindCommittedFullChkpt()
      requires flash.Valid()
      modifies this`ptrFull
      ensures ptrFull == Chosen(flash.cells)
    {
      var page := flash.Read(PBA_FIRST_FULL_COMMIT, 0);
      ptrFull := if page[0] == 0 then 0 else 1;
    }

    method ApplyFullChkpt(l2p: array<Word>)
      requires flash.Valid() && 0 <= ptrFull <= 1 && l2p.Length == N_LAS + 1
      modifies l2p
      ensures forall l :: 0 <= l < N_LAS ==> l2p[l] == FullEntry(flash.cells, ptrFull, l)
    {
      hide EntryBlock, EntryPage, EntryWord, Contents;
      flash.ReadBulk(FullBlock(ptrFull), BLOCKS_FULL, l2p);
      forall l | 0 <= l < N_LAS ensures l2p[l] == FullEntry(flash.cells, ptrFull, l) {
        assert l2p[l] == flash.Entry(FullBlock(ptrFull), l);
      }
    }

    /** Scans the whole region for the last committed page. */
    method FindLastCommittedDeltaChkpt() returns (pbaCommitted: int, ipaCommitted: int)
      requires flash.Valid()
      ensures 0 <= pbaCommitted && 0 <= ipaCommitted <= PAGES_PER_BLOCK
      ensures pbaCommitted * PAGES_PER_BLOCK + ipaCommitted == CommittedUpTo(flash.cells, DELTA_PAGES)
    {
      hide Contents;
      pbaCommitted, ipaCommitted := 0, 0;
      var blkid, pgid := 0, 0;
      while blkid != BLOCKS_DELTA
        invariant 0 <= blkid <= BLOCKS_DELTA && 0 <= pgid < PAGES_PER_BLOCK
        invariant blkid == BLOCKS_DELTA ==> pgid == 0
        invariant 0 <= blkid * PAGES_PER_BLOCK + pgid <= DELTA_PAGES
        invariant 0 <= pbaCommitted && 0 <= ipaCommitted <= PAGES_PER_BLOCK
        invariant pbaCommitted * PAGES_PER_BLOCK + ipaCommitted == CommittedUpTo(flash.cells, blkid * PAGES_PER_BLOCK + pgid)
        decreases DELTA_PAGES - (blkid * PAGES_PER_BLOCK + pgid)
      {
        var page := flash.Read(blkid, pgid);
        DeltaIndex(blkid, pgid, blkid * PAGES_PER_BLOCK + pgid);
        assert page == DeltaPage(flash.cells, blkid * PAGES_PER_BLOCK + pgid);
        if page[0] == 0 {
          pbaCommitted := blkid;
          ipaCommitted := pgid + 1;
        }
        pgid := pgid + 1;
        if pgid == PAGES_PER_BLOCK {
          pgid := 0;
          blkid := blkid + 1;
        }
      }
    }

    method FirstDeltaPageErased() returns (r: bool)
      requires flash.Valid()
      ensures r == FirstErased(flash.cells)
    {
      var page := flash.Read(PBA_DELTA, 0);
      r := page[0] != 0 && page[0] != 1;
    }

    /** Applies the pairs of every page before the committed point, in order. */
    method ApplyDeltaChkpt(l2p: array<Word>, pbaCommitted: int, ipaCommitted: int)
      requires flash.Valid() && l2p.Length == N_LAS + 1
      requires 0 <= pbaCommitted && 0 <= ipaCommitted <= PAGES_PER_BLOCK
      requires pbaCommitted * PAGES_PER_BLOCK + ipaCommitted == Bound(flash.cells) && LogInRange(flash.cells)
      modifies l2p
      ensures forall l :: 0 <= l < N_LAS ==> l2p[l] == Replay(flash.cells, Bound(flash.cells), l, old(l2p[l]))
    {
      hide LogInRange, Las, Pas, Bound, Contents;
      ghost var c, n, base := flash.cells, Bound(flash.cells), l2p[..];
      var blkid, pgid, idx := 0, 0, 0;
      var page: Page := seq(ENTRIES_PER_PAGE, _ => 0);
      while blkid != BLOCKS_DELTA
        invariant 0 <= blkid <= BLOCKS_DELTA && 0 <= pgid < PAGES_PER_BLOCK && 0 <= idx < N_DELTA_PAIR
        invariant blkid == BLOCKS_DELTA ==> pgid == 0 && idx == 0
        invariant 0 <= blkid * PAGES_PER_BLOCK + pgid <= DELTA_PAGES
        invariant idx != 0 ==> page == DeltaPage(c, blkid * PAGES_PER_BLOCK + pgid)
        invariant forall l :: 0 <= l < N_LAS ==> l2p[l] == Partly(c, n, blkid * PAGES_PER_BLOCK + pgid, idx, l, base[l])
        decreases DELTA_PAGES - (blkid * PAGES_PER_BLOCK + pgid), N_DELTA_PAIR - idx
      {
        ghost var j := blkid * PAGES_PER_BLOCK + pgid;
        if idx == 0 {
          page := flash.Read(blkid, pgid);
        }
        DeltaIndex(blkid, pgid, j);
        assert page == DeltaPage(c, j);
        hide DeltaPage, Partly;
        forall l | 0 <= l < N_LAS
          ensures (if idx + 1 == N_DELTA_PAIR then Partly(c, n, j + 1, 0, l, base[l]) else Partly(c, n, j, idx + 1, l, base[l]))
                    == if j < n && Las(page, idx) == l then Pas(page, idx) else Partly(c, n, j, idx, l, base[l])
        {
          PartlyAt(c, n, j, idx, l, base[l]);
        }
        if !(blkid > pbaCommitted || (blkid == pbaCommitted && pgid >= ipaCommitted)) {
          LogEntry(c, j, idx);
          var la, pa := page[idx + OFFSET_LAS], page[idx + OFFSET_PAS];
          PairAt(page, idx);
          l2p[la] := pa;
        }
        idx := idx + 1;
        if idx == N_DELTA_PAIR {
          idx := 0;
          pgid := pgid + 1;
        }
        if pgid == PAGES_PER_BLOCK {
          pgid := 0;
          blkid := blkid + 1;
        }
      }
    }
  }

  /** Where l is sent once idx pairs of page j are applied, if only the first n pages count. */
  ghost function Partly(c: Image, n: int, j: int, idx: int, l: int, base: Word): Word
    requires Shaped(c) && 0 <= n <= DELTA_PAGES && 0 <= j <= DELTA_PAGES && 0 <= idx < N_DELTA_PAIR
    requires j == DELTA_PAGES ==> idx == 0
  {
    if j < n then Over(DeltaPage(c, j), idx, l, Replay(c, j, l, base)) else Replay(c, n, l, base)
  }

  lemma PartlyAt(c: Image, n: int, j: int, idx: int, l: int, base: Word)
    requires Shaped(c) && 0 <= n <= DELTA_PAGES && 0 <= j < DELTA_PAGES && 0 <= idx < N_DELTA_PAIR
    ensures (if idx + 1 == N_DELTA_PAIR then Partly(c, n, j + 1, 0, l, base) else Partly(c, n, j, idx + 1, l, base))
              == if j < n && Las(DeltaPage(c, j), idx) == l then Pas(DeltaPage(c, j), idx) else Partly(c, n, j, idx, l, base)
  {
    hide Las, Pas, DeltaPage;
    assert Replay(c, j + 1, l, base) == Over(DeltaPage(c, j), N_DELTA_PAIR, l, Replay(c, j, l, base));
    assert Over(DeltaPage(c, j), idx + 1, l, Replay(c, j, l, base)) ==
           if Las(DeltaPage(c, j), idx) == l then Pas(DeltaPage(c, j), idx) else Over(DeltaPage(c, j), idx, l, Replay(c, j, l, base));
  }

  lemma LogEntry(c: Image, j: int, i: int)
    requires Shaped(c) && LogInRange(c) && 0 <= j < Bound(c) && 0 <= i < N_DELTA_PAIR
    ensures Las(DeltaPage(c, j), i) <= N_LAS
  {
  }

  lemma PairAt(page: Page, i: int)
    requires 0 <= i < N_DELTA_PAIR
    ensures page[i + OFFSET_LAS] == Las(page, i) && page[i + OFFSET_PAS] == Pas(page, i)
  {
  }

  lemma SlotStaysErased(c: Image, d: Image, slot: int)
    requires Shaped(c) && Shaped(d) && SlotErased(c, slot)
    requires d[FullBlock(slot)] == c[FullBlock(slot)] && d[CommitBlock(slot)] == c[CommitBlock(slot)]
    ensures SlotErased(d, slot)
  {
  }

  ghost predicate ChosenSynced(s: Flags, slot: int)
    requires Shaped(s)
  {
    forall p :: 0 <= p < PAGES_PER_BLOCK ==> s[FullBlock(slot)][p]
  }

  lemma SlotSynced(s: Flags, slot: int)
    requires Shaped(s) && AllSynced(s)
    ensures ChosenSynced(s, slot)
  {
  }

  /** Without the commit record of one slot, recovery uses the other one and finds the same map. */
  lemma UncommittedFull(c: Image, s: Flags, slot: int, m: seq<Word>, stb: seq<Sector>)
    requires 0 <= slot <= 1 && Durable(c, s, m, stb)
    requires Chosen(c) == 1 - slot || (slot == 0 && HoldsFull(c, 1, m))
    requires ChosenSynced(s, 1 - slot)
    ensures var d, t := c[CommitBlock(slot) := Uniform(Erased)], s[CommitBlock(slot) := Uniform(true)];
            Shaped(d) && Shaped(t) && Durable(d, t, m, stb) && Chosen(d) == 1 - slot
  {
    var d, t := c[CommitBlock(slot) := Uniform(Erased)], s[CommitBlock(slot) := Uniform(true)];
    forall k | 0 <= k < DELTA_PAGES ensures DeltaCell(d, k) == DeltaCell(c, k) {
      DeltaIndex(0, 0, k);
    }
    if Chosen(c) == 1 - slot {
      DecodesAgrees(c, d, m);
    } else {
      forall l | 0 <= l < N_LAS ensures FullEntry(d, 1, l) == m[l] {
        FullAgrees(c, d, 1, l);
      }
      SwitchFull(c, d, 1, m);
    }
    assert MetaSynced(d, t);
    DurableMeta(c, s, d, t, m, stb);
  }

  lemma KeepsFull(c: Image, d: Image, slot: int, m: seq<Word>)
    requires Shaped(c) && Shaped(d) && |m| >= N_LAS && HoldsFull(c, slot, m)
    requires d[FullBlock(slot)] == c[FullBlock(slot)]
    ensures HoldsFull(d, slot, m)
  {
    forall l | 0 <= l < N_LAS ensures FullEntry(d, slot, l) == m[l] {
      FullAgrees(c, d, slot, l);
    }
  }

  /** Erasing the first delta block drops the log, which the full checkpoint already reflects. */
  lemma FirstBlockErased(c: Image, s: Flags, m: seq<Word>, stb: seq<Sector>)
    requires Durable(c, s, m, stb) && HoldsFull(c, Chosen(c), m)
    ensures var d, t := c[PBA_DELTA := Uniform(Erased)], s[PBA_DELTA := Uniform(true)];
            && Shaped(d) && Shaped(t) && Durable(d, t, m, stb) && FirstErased(d)
            && Chosen(d) == Chosen(c) && HoldsFull(d, Chosen(d), m)
  {
    var d, t := c[PBA_DELTA := Uniform(Erased)], s[PBA_DELTA := Uniform(true)];
    KeepsFull(c, d, Chosen(c), m);
    DropLog(d, m);
    assert MetaSynced(d, t);
    DurableMeta(c, s, d, t, m, stb);
  }

  lemma RegionErased(c: Image, s: Flags, d: Image, t: Flags, m: seq<Word>, stb: seq<Sector>)
    requires Durable(c, s, m, stb) && Shaped(d) && Shaped(t) && FirstErased(c) && HoldsFull(c, Chosen(c), m)
    requires forall b :: 0 <= b < NUM_BLOCKS ==> d[b] == if PBA_DELTA + 1 <= b < BLOCKS_DELTA then Uniform(Erased) else c[b]
    requires forall b :: 0 <= b < NUM_BLOCKS ==> t[b] == if PBA_DELTA + 1 <= b < BLOCKS_DELTA then Uniform(false) else s[b]
    ensures Durable(d, t, m, stb) && Chosen(d) == Chosen(c) && HoldsFull(d, Chosen(d), m)
  {
    KeepsFull(c, d, Chosen(c), m);
    DecodesAgrees(c, d, m);
    assert MetaSynced(d, t);
    DurableMeta(c, s, d, t, m, stb);
  }

  lemma RegionStarted(c: Image, s: Flags, page: Page, m: seq<Word>, stb: seq<Sector>)
    requires Durable(c, s, m, stb) && AllSynced(s) && HoldsFull(c, Chosen(c), m)
    requires forall b :: 0 <= b < BLOCKS_DELTA ==> BlockErased(c, b)
    requires page[OFFSET_COMMIT] == FLAG_COMMITTED
    requires forall i :: 0 <= i < N_DELTA_PAIR ==> Las(page, i) == N_LAS
    ensures var d, t := Put(c, PBA_DELTA, 0, Programmed(page)), Put(s, PBA_DELTA, 0, true);
            && Durable(d, t, m, stb) && AllSynced(t) && DeltaRegion(d, 1, 1)
            && SameBut(c, d, PBA_DELTA, PBA_DELTA + BLOCKS_DELTA) && InOrder(c, PBA_DELTA, 0)
  {
    var d, t := Put(c, PBA_DELTA, 0, Programmed(page)), Put(s, PBA_DELTA, 0, true);
    KeepsFull(c, d, Chosen(c), m);
    assert BlockErased(c, PBA_DELTA);
    forall k | 1 <= k < DELTA_PAGES ensures DeltaCell(d, k).Erased? {
      DeltaIndex(0, 0, k);
      assert BlockErased(c, k / PAGES_PER_BLOCK);
    }
    FreshLog(d, m);
    assert MetaSynced(d, t);
    DurableMeta(c, s, d, t, m, stb);
  }

  lemma DurableShape(c: Image, s: Flags, m: seq<Word>, stb: seq<Sector>)
    requires Durable(c, s, m, stb)
    ensures Shaped(c) && Shaped(s) && |m| == N_LAS && Decodes(c, m)
  {
  }

  /** Writing the unused slot does not change what recovery finds. */
  lemma ProgrammedFull(flash: Flash, c: Image, s: Flags, slot: int, l2p: array<Word>, m: seq<Word>, stb: seq<Sector>)
    requires 0 <= slot <= 1 && flash.Valid() && Durable(c, s, m, stb) && Chosen(c) == 1 - slot
    requires l2p.Length == N_LAS + 1 && l2p[..N_LAS] == m
    requires SameBut(c, flash.cells, FullBlock(slot), FullBlock(slot) + 1) &&
             SameBut(s, flash.synced, FullBlock(slot), FullBlock(slot) + 1)
    requires forall p :: 0 <= p < PAGES_PER_BLOCK ==> flash.cells[FullBlock(slot)][p] == Programmed(Flash.Slice(l2p[..], 0, p))
    ensures Durable(flash.cells, flash.synced, m, stb) && Chosen(flash.cells) == 1 - slot
    ensures HoldsFull(flash.cells, slot, m)
  {
    SlotWritten(c, s, flash.cells, flash.synced, slot, m, stb);
    forall p | 0 <= p < PAGES_PER_BLOCK ensures Contents(flash.cells[FullBlock(slot)][p]) == PageOf(l2p[..], p) {
      assert Contents(flash.cells[FullBlock(slot)][p]) == Flash.Slice(l2p[..], 0, p);
    }
    FullFromPages(flash.cells, slot, l2p[..]);
    assert forall l :: 0 <= l < N_LAS ==> l2p[..][l] == l2p[..N_LAS][l];
  }

  /** Page p of a one-block buffer. */
  ghost function PageOf(data: seq<Word>, p: int): Page
    requires |data| == N_LAS + 1 && 0 <= p < PAGES_PER_BLOCK
  {
    data[p * ENTRIES_PER_PAGE .. p * ENTRIES_PER_PAGE + ENTRIES_PER_PAGE]
  }

  lemma FullFromPages(d: Image, slot: int, data: seq<Word>)
    requires Shaped(d) && |data| == N_LAS + 1
    requires forall p :: 0 <= p < PAGES_PER_BLOCK ==> Contents(d[FullBlock(slot)][p]) == PageOf(data, p)
    ensures forall l :: 0 <= l < N_LAS ==> FullEntry(d, slot, l) == data[l]
  {
    hide EntryBlock, EntryPage, EntryWord, Contents;
    forall l | 0 <= l < N_LAS ensures FullEntry(d, slot, l) == data[l] {
      EntrySplit(l);
    }
  }

  lemma SlotWritten(c: Image, s: Flags, d: Image, t: Flags, slot: int, m: seq<Word>, stb: seq<Sector>)
    requires 0 <= slot <= 1 && Durable(c, s, m, stb) && Chosen(c) == 1 - slot && Shaped(d) && Shaped(t)
    requires SameBut(c, d, FullBlock(slot), FullBlock(slot) + 1) && SameBut(s, t, FullBlock(slot), FullBlock(slot) + 1)
    ensures Durable(d, t, m, stb) && Chosen(d) == 1 - slot
  {
    assert Agree(c, d) by {
      forall k | 0 <= k < DELTA_PAGES ensures DeltaCell(d, k) == DeltaCell(c, k) {
        DeltaIndex(0, 0, k);
      }
    }
    DecodesAgrees(c, d, m);
    assert MetaSynced(d, t);
    DurableMeta(c, s, d, t, m, stb);
  }

  /** Syncing the device keeps it durable. */
  lemma DurableSynced(c: Image, s: Flags, t: Flags, m: seq<Word>, stb: seq<Sector>)
    requires Durable(c, s, m, stb) && Shaped(t) && AllSynced(t)
    ensures Durable(c, t, m, stb)
  {
    assert MetaSynced(c, t);
    DurableMeta(c, s, c, t, m, stb);
  }

  /** The commit record makes the new full checkpoint eligible, and the map stays the same. */
  lemma CommittedFull(c: Image, s: Flags, slot: int, page: Page, m: seq<Word>, stb: seq<Sector>)
    requires 0 <= slot <= 1 && Durable(c, s, m, stb) && AllSynced(s) && Chosen(c) == 1 - slot
    requires HoldsFull(c, slot, m) && page[0] == 0
    ensures var d, t := Put(c, CommitBlock(slot), 0, Programmed(page)), Put(s, CommitBlock(slot), 0, true);
            && Durable(d, t, m, stb) && AllSynced(t) && HoldsFull(d, slot, m)
            && Contents(d[CommitBlock(slot)][0])[0] == 0 && SameBut(c, d, CommitBlock(slot), CommitBlock(slot) + 1)
  {
    var d, t := Put(c, CommitBlock(slot), 0, Programmed(page)), Put(s, CommitBlock(slot), 0, true);
    forall l | 0 <= l < N_LAS ensures FullEntry(d, slot, l) == m[l] {
      FullAgrees(c, d, slot, l);
    }
    forall k | 0 <= k < DELTA_PAGES ensures DeltaCell(d, k) == DeltaCell(c, k) {
      DeltaIndex(0, 0, k);
    }
    if slot == 0 {
      SwitchFull(c, d, 0, m);
    } else {
      DecodesAgrees(c, d, m);
    }
    assert MetaSynced(d, t);
    DurableMeta(c, s, d, t, m, stb);
  }
}
