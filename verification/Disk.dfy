/**
 The disk interface over the translation layer: it runs the collector often enough for the
 layer's demands on its callers to hold.
 */
module SnapshotDisk {
  import opened Geometry
  import opened FlashDevice
  import opened Mapping
  import opened BlockManagement
  import opened Snapshot
  import opened LayerState
  import opened Collector
  import opened TranslationLayer

  class Disk {
    const ftl: Ftl

    ghost function Repr(): set<object> { {this} + ftl.Repr() }

    /** The disk answers requests. */
    ghost predicate Up()
      reads ftl.Repr()
    {
      ftl.Valid()
    }

    /** The disk has crashed, or has just been formatted: only a recovery can follow. */
    ghost predicate Down()
      reads ftl.Repr()
    {
      ftl.Down()
    }

    constructor (ftl: Ftl)
      ensures this.ftl == ftl
    {
      this.ftl := ftl;
    }

    method Read(lsa: Word, data: Sector) returns (r: Sector)
      requires Up()
      ensures Up() && |ftl.vlt| == N_LAS && r == if lsa < N_LAS then ftl.vlt[lsa] else data
    {
      hide Ftl.Valid;
      r := ftl.Read(lsa, data);
    }

    method Write(lsa: Word, data: Sector) returns (o: Outcome)
      requires Up()
      modifies ftl.Repr()
      ensures ftl.stb == old(ftl.stb) && |old(ftl.vlt)| == N_LAS
      ensures o.Crashed? ==> ftl.flash.crashSim
      ensures o.Crashed? ==> Down()
      ensures o.Done? ==>
                && Up()
                && ftl.vlt == (if lsa < N_LAS && old(ftl.wcnt) < MAX_WCNT then old(ftl.vlt)[lsa := data] else old(ftl.vlt))
                && ftl.wcnt == (if lsa < N_LAS && old(ftl.wcnt) < MAX_WCNT then old(ftl.wcnt) + 1 else old(ftl.wcnt))
      // In the middle of a victim, a write moves the collector four sectors on.
      ensures o.Done? && old(ftl.enableGc && ftl.Rank() > 4 && ftl.gcprog + 4 <= MAX_GCPROG) ==>
                ftl.enableGc && ftl.pbaGc == old(ftl.pbaGc) && ftl.Rank() == old(ftl.Rank()) - 4
    {
      hide Ftl.Valid, Ftl.Down, Ftl.Rank;
      o := ftl.Write(lsa, data);
      if o.Crashed? {
        return;
      }
      ghost var v, w := ftl.vlt, ftl.wcnt;
      for i := 0 to 4
        invariant Up() && ftl.vlt == v && ftl.wcnt == w && ftl.stb == old(ftl.stb)
        invariant old(ftl.enableGc && ftl.Rank() > 4 && ftl.gcprog + 4 <= MAX_GCPROG) ==>
                    ftl.enableGc && ftl.pbaGc == old(ftl.pbaGc) && ftl.Rank() == old(ftl.Rank()) - i && ftl.gcprog <= old(ftl.gcprog) + i
      {
        o := ftl.GcCopy();
        if o.Crashed? {
          return;
        }
      }
      o := Done;
    }

    /** The loop ends: the collector cannot run out of copies before enough blocks are ready. */
    method Flush() returns (o: Outcome)
      requires Up()
      modifies ftl.Repr()
      ensures o.Crashed? ==> ftl.flash.crashSim
      ensures o.Crashed? ==> Down() && (ftl.stb == old(ftl.stb) || ftl.stb == old(ftl.vlt))
      ensures o.Done? ==> Up() && ftl.vlt == old(ftl.vlt) && ftl.stb == old(ftl.vlt) && ftl.wcnt == 0
    {
      hide Ftl.Valid, Ftl.Down, Ftl.S, Ftl.Rank, Ftl.FlushPrecondHolds;
      ftl.Measures();
      while !ftl.FlushPrecondHolds()
        invariant Up() && ftl.vlt == old(ftl.vlt) && ftl.stb == old(ftl.stb)
        invariant 0 <= MAX_GCPROG - ftl.gcprog && 0 <= ftl.S().nUsed && 0 <= ftl.Rank()
        decreases MAX_GCPROG - ftl.gcprog, ftl.S().nUsed, ftl.Rank()
      {
        ftl.CollectorCanWork();
        o := ftl.GcCopy();
        if o.Crashed? {
          return;
        }
        ftl.Measures();
      }
      o := ftl.Flush();
    }

    method PowerLoss()
      requires Up()
      modifies ftl.Repr()
      ensures Down() && ftl.stb == old(ftl.stb)
    {
      hide Ftl.Valid, Ftl.Down;
      ftl.Stops();
      ftl.PowerLoss();
    }

    /** Every block that is free is erased before the first write. */
    method Recovery() returns (o: Outcome)
      requires Down()
      modifies ftl.Repr()
      ensures ftl.stb == old(ftl.stb)
      ensures o.Crashed? ==> ftl.flash.crashSim
      ensures o.Crashed? ==> Down()
      ensures o.Done? ==> Up() && ftl.vlt == ftl.stb && ftl.wcnt == 0 && ftl.S().nErasable == 0
    {
      hide Ftl.Valid, Ftl.Down, Ftl.S;
      o := ftl.Recovery();
      if o.Crashed? {
        return;
      }
      ftl.ErasableBlocks();
      for i := 0 to 2000
        invariant 0 <= ftl.S().nErasable && (ftl.S().nErasable == 0 || ftl.S().nErasable <= 2000 - i)
        invariant Up() && ftl.vlt == ftl.stb == old(ftl.stb) && ftl.wcnt == 0
      {
        ftl.GcErase();
      }
    }
  }
}
