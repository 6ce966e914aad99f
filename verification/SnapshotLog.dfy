/**
 The log over the snapshot disk: committed blocks go straight home, and a flush of the disk
 makes them durable all at once.  The group form flushes only once in many commits.
 */
module SnapshotLogging {
  import opened Geometry
  import opened FlashDevice
  import opened TranslationLayer
  import opened SnapshotDisk
  import opened Transactions

  function Min(a: int, b: int): int { if a < b then a else b }

  class SnapshotLog {
    const disk: Disk
    const group: bool
    const sector: array<int>
    var n: int
    var outstanding: int
    var committing: bool
    var accCommit: int
    /** The buffers that are pinned because the disk does not have their contents yet. */
    var dirty: map<int, Sector>

    ghost predicate Apart() {
      this !in disk.ftl.Repr() && sector !in disk.ftl.Repr() && sector.Length == LOG_SIZE
    }

    ghost predicate Valid()
      reads this, sector, disk.ftl.Repr()
    {
      && Apart() && disk.Up() && |disk.ftl.vlt| == N_LAS && |disk.ftl.stb| == N_LAS
      && 0 <= n <= LOG_SIZE && Distinct(sector[..n], N_LAS) && 0 <= disk.ftl.wcnt <= MAX_WCNT
      && (forall s :: s in dirty <==> s in sector[..n])
      && 0 <= accCommit < GROUP
      && (!group ==> disk.ftl.vlt == disk.ftl.stb && disk.ftl.wcnt == 0 && accCommit == 0)
    }

    ghost predicate Up()
      reads this, sector, disk.ftl.Repr()
    {
      Valid() && !committing
    }

    ghost predicate Down()
      reads disk.ftl.Repr()
    {
      Apart() && disk.Down()
    }

    constructor (disk: Disk, group: bool)
      ensures Apart() && fresh(sector) && this.disk == disk && this.group == group
    {
      this.disk, this.group := disk, group;
      sector := new int[LOG_SIZE];
      n, outstanding, committing, accCommit, dirty := 0, 0, false, 0, map[];
    }

    /** What a read returns. */
    ghost function View(): seq<Sector>
      reads this, disk.ftl
    {
      Over(disk.ftl.vlt, dirty)
    }

    /** How many of the pinned blocks the disk has room for. */
    ghost function Room(): nat
      requires Valid()
      reads this, sector, disk.ftl.Repr()
    {
      Min(n, MAX_WCNT - disk.ftl.wcnt)
    }

    /** What a commit leaves on the disk. */
    ghost function After(): seq<Sector>
      requires Valid()
      reads this, sector, disk.ftl.Repr()
    {
      Applied(disk.ftl.vlt, sector[..n], dirty, Room())
    }

    /** Writes the pinned blocks home; the disk takes no more than it has room for before a flush. */
    method WriteLog() returns (o: Outcome)
      requires Valid()
      modifies this`dirty, disk.ftl.Repr()
      ensures disk.ftl.stb == old(disk.ftl.stb)
      ensures o.Crashed? ==> disk.ftl.flash.crashSim
      ensures o.Crashed? ==> Down()
      ensures o.Done? ==> disk.Up() && dirty == map[] && disk.ftl.wcnt == old(disk.ftl.wcnt + Room()) && disk.ftl.vlt == old(After())
    {
      hide Ftl.Valid, Ftl.Down, Ftl.Repr, Applied, PinnedFrom, Distinct, Over;
      ghost var sectors, d, v, w := sector[..n], dirty, disk.ftl.vlt, disk.ftl.wcnt;
      PinnedAll(d, sectors);
      AppliedNone(v, sectors, d);
      for tail := 0 to n
        invariant disk.Up() && sector[..n] == sectors && disk.ftl.stb == old(disk.ftl.stb)
        invariant disk.ftl.wcnt == w + Min(tail, MAX_WCNT - w)
        invariant disk.ftl.vlt == Applied(v, sectors, d, Min(tail, MAX_WCNT - w))
        invariant PinnedFrom(dirty, d, sectors, tail)
      {
        PinnedNext(dirty, d, sectors, tail, N_LAS);
        AppliedNext(v, sectors, d, Min(tail, MAX_WCNT - w));
        o := disk.Write(sector[tail], dirty[sector[tail]]);
        dirty := dirty - {sector[tail]};
        if o.Crashed? {
          return;
        }
      }
      PinnedNone(dirty, d, sectors);
      o := Done;
    }

    /** With room for all of it, a commit leaves what the operations saw. */
    lemma AfterIsView()
      requires Valid() && disk.ftl.wcnt + n <= MAX_WCNT
      ensures After() == View()
    {
      hide Ftl.Valid, Ftl.Repr;
      AllApplied(disk.ftl.vlt, sector[..n], dirty);
    }

    /** The nonempty commits since the last flush, with one that is about to be made. */
    function Nonempty(): int
      reads this
    {
      if n > 0 then accCommit + 1 else accCommit
    }

    /** A commit now flushes the disk. */
    predicate Flushes()
      reads this
    {
      !group || Nonempty() == GROUP
    }

    /** Every commit of the plain form flushes, and of the group form exactly every GROUP-th nonempty one. */
    method Commit() returns (o: Outcome)
      requires Valid()
      modifies this`dirty, this`n, this`accCommit, disk.ftl.Repr()
      ensures o.Crashed? ==> disk.ftl.flash.crashSim
      ensures o.Crashed? ==> Down() && (disk.ftl.stb == old(disk.ftl.stb) || (old(Flushes()) && disk.ftl.stb == old(After())))
      ensures o.Done? ==> Valid() && n == 0 && disk.ftl.vlt == old(After())
      ensures o.Done? ==> disk.ftl.stb == if old(Flushes()) then old(After()) else old(disk.ftl.stb)
      ensures o.Done? ==> accCommit == if old(Flushes()) then 0 else old(Nonempty())
      ensures o.Done? ==> disk.ftl.wcnt == if old(Flushes()) then 0 else old(disk.ftl.wcnt + Room())
    {
      hide Ftl.Valid, Ftl.Down, Ftl.Repr, Applied;
      AppliedNone(disk.ftl.vlt, sector[..n], dirty);
      if n > 0 {
        o := WriteLog();
        if o.Crashed? {
          return;
        }
        accCommit := accCommit + 1;
      }
      n := 0;
      disk.ftl.Sizes();
      if !group || accCommit == GROUP {
        accCommit := 0;
        o := disk.Flush();
        if o.Crashed? {
          return;
        }
        disk.ftl.Sizes();
      }
      o := Done;
    }

    /** Starts the machine: memory is blank and the disk recovers its snapshot. */
    method InitLog() returns (o: Outcome)
      requires Down()
      modifies this, disk.ftl.Repr()
      ensures disk.ftl.stb == old(disk.ftl.stb)
      ensures o.Crashed? ==> disk.ftl.flash.crashSim
      ensures o.Crashed? ==> Down()
      ensures o.Done? ==> Up() && View() == disk.ftl.stb && outstanding == 0 && n == 0 && accCommit == 0 && disk.ftl.wcnt == 0
    {
      hide Ftl.Valid, Ftl.Down, Ftl.Repr;
      n, outstanding, committing, accCommit, dirty := 0, 0, false, 0, map[];
      o := disk.Recovery();
      if o.Done? {
        disk.ftl.Sizes();
      }
    }

    method Read(s: int) returns (data: Sector)
      requires Up() && 0 <= s < N_LAS
      ensures Up() && data == View()[s]
    {
      hide Ftl.Valid, Ftl.Repr;
      data := *;
      if s in dirty {
        data := dirty[s];
      } else {
        data := disk.Read(s, data);
      }
    }

    /** Admits an operation unless the transaction might become too large; the caller is to wait if it is not admitted. */
    method BeginOp() returns (admitted: bool)
      requires Up()
      modifies this`outstanding
      ensures Up() && admitted == (n + (old(outstanding) + 1) * MAX_OP_BLOCKS <= LOG_SIZE)
      ensures outstanding == if admitted then old(outstanding) + 1 else old(outstanding)
    {
      hide Ftl.Valid, Ftl.Repr;
      if committing || n + (outstanding + 1) * MAX_OP_BLOCKS > LOG_SIZE {
        return false;
      }
      outstanding := outstanding + 1;
      return true;
    }

    /**
     The caller has modified a buffer: its sector joins the transaction, once, and the buffer is
     pinned.  The call fails outside of a transaction, and where the list of sectors would overrun.
     */
    method LogWrite(s: int, data: Sector) returns (failed: bool)
      requires Up() && 0 <= s < N_LAS
      modifies sector, this`n, this`dirty
      ensures failed == (outstanding < 1 || (old(n) == LOG_SIZE && s !in old(sector[..n])))
      ensures failed ==> Up() && n == old(n) && View() == old(View())
      ensures !failed ==> Up() && View() == old(View())[s := data] && sector[..n] == Logged(old(sector[..n]), s)
      ensures !failed ==> dirty == old(dirty)[s := data]
    {
      hide Ftl.Valid, Ftl.Repr, Distinct, Over, Logged;
      if outstanding < 1 || (n == LOG_SIZE && s !in sector[..n]) {
        return true;
      }
      var i := 0;
      while i < n && sector[i] != s
        invariant 0 <= i <= n && s !in sector[..i]
      {
        i := i + 1;
      }
      LoggedAt(sector[..], n, s, i);
      LoggedDistinct(sector[..n], s, N_LAS);
      OverPinned(disk.ftl.vlt, dirty, s, data);
      sector[i] := s;
      n := if i == n then n + 1 else n;
      dirty := dirty[s := data];
      return false;
    }

    /** Without pinned blocks reads see the disk. */
    lemma Quiescent()
      requires Valid()
      ensures n == 0 ==> View() == disk.ftl.vlt && dirty == map[]
    {
      hide Ftl.Valid, Ftl.Repr;
      if n == 0 {
        forall s ensures s !in dirty {
          assert s in dirty <==> s in sector[..n];
        }
        assert dirty == map[];
      }
    }

    /** Ends an operation; the last one commits for all. */
    method EndOp() returns (o: Outcome)
      requires Up()
      modifies this, disk.ftl.Repr()
      ensures o.Crashed? ==> disk.ftl.flash.crashSim
      ensures o.Crashed? ==> Down() && old(outstanding) == 1
      ensures o.Crashed? ==> disk.ftl.stb == old(disk.ftl.stb) || (old(Flushes()) && disk.ftl.stb == old(After()))
      ensures o.Done? ==> Up() && outstanding == old(outstanding) - 1
      ensures o.Done? && old(outstanding) == 1 ==> n == 0 && View() == old(After())
      ensures o.Done? && old(outstanding) == 1 ==> disk.ftl.stb == if old(Flushes()) then old(After()) else old(disk.ftl.stb)
      ensures o.Done? && old(outstanding) == 1 ==> accCommit == if old(Flushes()) then 0 else old(Nonempty())
      ensures o.Done? && old(outstanding) == 1 ==> disk.ftl.wcnt == if old(Flushes()) then 0 else old(disk.ftl.wcnt + Room())
      ensures o.Done? && old(outstanding) != 1 ==> View() == old(View()) && disk.ftl.stb == old(disk.ftl.stb)
      ensures o.Done? && old(outstanding) != 1 ==> dirty == old(dirty) && disk.ftl.vlt == old(disk.ftl.vlt)
      ensures o.Done? && old(outstanding) != 1 ==> sector[..n] == old(sector[..n]) && accCommit == old(accCommit) && disk.ftl.wcnt == old(disk.ftl.wcnt)
    {
      hide Ftl.Valid, Ftl.Down, Ftl.Repr;
      outstanding := outstanding - 1;
      o := Done;
      if outstanding == 0 {
        committing := true;
        o := Commit();
        committing := false;
        assert o.Done? ==> View() == disk.ftl.vlt;
      }
    }

    method PowerLoss()
      requires Up()
      modifies disk.ftl.Repr()
      ensures Down() && disk.ftl.stb == old(disk.ftl.stb)
    {
      hide Ftl.Valid, Ftl.Down, Ftl.Repr;
      disk.PowerLoss();
    }
  }
}
