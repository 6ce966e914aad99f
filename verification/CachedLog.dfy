/**
 The log of the snapshot disk together with the buffer cache that it works through.  The
 buffers that the log has pinned are those that the cache must not throw away, and the
 cache's disk is the snapshot disk.
 */
module CachedLog {
  import opened Geometry
  import opened FlashDevice
  import opened Transactions
  import opened TranslationLayer
  import opened BufferCache
  import opened SnapshotLogging
  import CacheRuns

  /** Nobody holds a buffer. */
  ghost predicate Free(bufs: seq<Buf>) {
    forall b :: 0 <= b < |bufs| ==> !bufs[b].busy
  }

  /** Some buffer is for sector s. */
  ghost predicate Housed(bufs: seq<Buf>, s: int) {
    exists b :: 0 <= b < |bufs| && bufs[b].Holds(s)
  }

  lemma PinnedHoused(bufs: seq<Buf>, disk: seq<Sector>, s: int)
    requires s in PinsOf(bufs, disk)
    ensures Housed(bufs, s)
  {
  }

  /** The buffers are still for the same sectors. */
  ghost predicate SameSectors(bufs: seq<Buf>, after: seq<Buf>) {
    |after| == |bufs| && forall b :: 0 <= b < |bufs| ==> SameSector(bufs[b], after[b])
  }

  predicate SameSector(x: Buf, y: Buf) {
    y.dev == x.dev && y.sector == x.sector && (x.valid ==> y.valid)
  }

  lemma StillCached(bufs: seq<Buf>, after: seq<Buf>, s: int)
    requires SameSectors(bufs, after) && Cached(bufs, s)
    ensures Cached(after, s)
  {
    var b :| 0 <= b < |bufs| && bufs[b].Holds(s) && bufs[b].valid;
    assert SameSector(bufs[b], after[b]);
  }

  lemma PinnedCached(bufs: seq<Buf>, disk: seq<Sector>, s: int)
    requires Coherent(bufs, disk) && s in PinsOf(bufs, disk)
    ensures Cached(bufs, s)
  {
  }

  /** No buffer is recycled for a sector that has one. */
  lemma NotRecycled(bufs: seq<Buf>, after: seq<Buf>, disk: seq<Sector>, b: int, s: int)
    requires |bufs| == NBUF && Housed(bufs, s) && Coherent(after, disk) && 0 <= b < NBUF && after[b].Holds(s) && after[b].valid
    requires forall c :: 0 <= c < NBUF && c != b ==> after[c] == bufs[c]
    ensures SameSectors(bufs, after)
  {
    var h :| 0 <= h < |bufs| && bufs[h].Holds(s);
    assert h == b;
  }

  /** A pinned sector is written to the disk and is not pinned any more; nobody sees a difference. */
  method WriteOne(c: Bcache, s: int)
    requires c.Up() && Free(c.buf[..]) && s in c.Pins()
    modifies c, c.buf, c.prev, c.next
    ensures c.Up() && Free(c.buf[..]) && c.View() == old(c.View()) && c.Pins() == old(c.Pins()) - {s}
    ensures SameSectors(old(c.buf[..]), c.buf[..])
  {
    hide Ring, Coherent, ViewOf, BufferCache.Cell;
    PinnedHoused(c.buf[..], c.disk, s);
    hide PinsOf;
    ghost var bufs := c.buf[..];
    var g := c.Bread(s);
    NotRecycled(bufs, c.buf[..], c.disk, g.b, s);
    var panicked := c.Bwrite(g.b);
    ghost var k := c.Where(g.b);
    panicked := c.Brelse(g.b, k);
  }

  /** Writes all pinned sectors: the disk then has what everybody sees, and so have the buffers. */
  method WriteAll(c: Bcache, sectors: seq<int>)
    requires c.Up() && Free(c.buf[..]) && Distinct(sectors, |c.disk|) && forall s :: s in c.Pins() <==> s in sectors
    modifies c, c.buf, c.prev, c.next
    ensures c.Up() && Free(c.buf[..]) && c.View() == c.disk == old(c.View()) && c.Pins() == map[]
    ensures forall s :: s in sectors ==> Cached(c.buf[..], s)
  {
    hide Ring, Coherent, ViewOf, PinsOf, Cached, SameSectors;
    ghost var bufs := c.buf[..];
    SameAsEver(bufs);
    forall s | s in sectors ensures Cached(bufs, s) {
      PinnedCached(bufs, c.disk, s);
    }
    for tail := 0 to |sectors|
      invariant c.Up() && Free(c.buf[..]) && c.View() == old(c.View()) && SameSectors(bufs, c.buf[..])
      invariant forall s :: s in c.Pins() <==> s in sectors[tail..]
    {
      Behind(sectors, tail);
      ghost var was := c.buf[..];
      WriteOne(c, sectors[tail]);
      StillSame(bufs, was, c.buf[..]);
    }
    assert forall s :: s !in c.Pins();
    assert c.Pins() == map[];
    ViewIsOver(c.buf[..], c.disk);
    assert Over(c.disk, map[]) == c.disk;
    forall s | s in sectors ensures Cached(c.buf[..], s) {
      StillCached(bufs, c.buf[..], s);
    }
  }

  lemma SameAsEver(bufs: seq<Buf>)
    ensures SameSectors(bufs, bufs)
  {
  }

  lemma StillSame(x: seq<Buf>, y: seq<Buf>, z: seq<Buf>)
    requires SameSectors(x, y) && SameSectors(y, z)
    ensures SameSectors(x, z)
  {
    forall b | 0 <= b < |x| ensures SameSector(x[b], z[b]) {
      assert SameSector(x[b], y[b]) && SameSector(y[b], z[b]);
    }
  }

  lemma Behind(sectors: seq<int>, i: nat)
    requires i < |sectors| && forall j, k :: 0 <= j < k < |sectors| ==> sectors[j] != sectors[k]
    ensures forall s :: s in sectors[i + 1..] <==> s in sectors[i..] && s != sectors[i]
  {
    assert sectors[i..] == [sectors[i]] + sectors[i + 1..];
  }

  ghost predicate Apart(log: SnapshotLog, c: Bcache) {
    var own: set<object> := {c, c.buf, c.prev, c.next};
    log !in own && log.sector !in own && log.disk.ftl.Repr() !! own && log.Apart()
  }

  /** Between operations the log and the cache agree. */
  ghost predicate Joined(log: SnapshotLog, c: Bcache)
    reads log, log.sector, log.disk.ftl.Repr(), c, c.buf, c.prev, c.next
  {
    && Apart(log, c) && log.Up() && c.Up() && Free(c.buf[..])
    && c.disk == log.disk.ftl.vlt && c.Pins() == log.dirty
  }

  /** Everyone sees through the cache what the log says they see. */
  lemma JoinedView(log: SnapshotLog, c: Bcache)
    requires Joined(log, c)
    ensures c.View() == log.View()
  {
    hide Ring, Coherent, PinsOf, ViewOf, Ftl.Valid;
    ViewIsOver(c.buf[..], c.disk);
  }

  lemma FewPins(pins: map<int, Sector>, sectors: seq<int>)
    requires forall h :: h in pins <==> h in sectors
    ensures |pins.Keys| <= |sectors|
  {
    CacheRuns.Fewer(pins.Keys, sectors);
  }

  /** With as few pins as a transaction has, a buffer can always be had. */
  lemma Available(bufs: seq<Buf>, disk: seq<Sector>, sectors: seq<int>)
    requires Coherent(bufs, disk) && |bufs| == NBUF && Free(bufs) && |sectors| < NBUF
    requires forall h :: h in PinsOf(bufs, disk) <==> h in sectors
    ensures exists b :: 0 <= b < NBUF && bufs[b].Idle()
  {
    hide Coherent, PinsOf;
    FewPins(PinsOf(bufs, disk), sectors);
    assert CacheRuns.HeldOf(bufs) + PinsOf(bufs, disk).Keys == PinsOf(bufs, disk).Keys;
    if forall b :: 0 <= b < NBUF ==> !bufs[b].Idle() {
      CacheRuns.NoneIdle(bufs, disk);
    }
  }

  lemma OverAt(disk: seq<Sector>, pins: map<int, Sector>, s: int)
    requires 0 <= s < |disk|
    ensures |Over(disk, pins)| == |disk| && Over(disk, pins)[s] == if s in pins then pins[s] else disk[s]
  {
  }

  /** Reads a sector; nobody sees a difference. */
  method Peek(c: Bcache, s: int) returns (data: Sector)
    requires c.Up() && Free(c.buf[..]) && 0 <= s < |c.disk| && exists b :: 0 <= b < NBUF && c.buf[b].Idle()
    modifies c, c.buf, c.prev, c.next
    ensures c.Up() && Free(c.buf[..]) && c.disk == old(c.disk) && c.View() == old(c.View()) && c.Pins() == old(c.Pins())
    ensures data == c.View()[s]
  {
    hide Ring, Coherent, PinsOf, ViewOf, Over;
    ViewIsOver(c.buf[..], c.disk);
    OverAt(c.disk, c.Pins(), s);
    var g := c.Bread(s);
    PinnedIs(c.buf[..], c.disk, g.b);
    data := c.buf[g.b].data;
    ghost var k := c.Where(g.b);
    var panicked := c.Brelse(g.b, k);
  }

  /** Reads a sector through the cache. */
  method Read(log: SnapshotLog, c: Bcache, s: int) returns (data: Sector)
    requires Joined(log, c) && 0 <= s < N_LAS
    modifies c, c.buf, c.prev, c.next
    ensures Joined(log, c) && log.View() == old(log.View()) && data == log.View()[s]
  {
    hide Ring, Coherent, PinsOf, ViewOf, Ftl.Valid, Over;
    JoinedView(log, c);
    Available(c.buf[..], c.disk, log.sector[..log.n]);
    data := Peek(c, s);
  }

  /** A caller changes a sector and logs it: for everyone it changes at once, and it is pinned until the commit. */
  method Write(log: SnapshotLog, c: Bcache, s: int, data: Sector) returns (failed: bool)
    requires Joined(log, c) && 0 <= s < N_LAS
    modifies c, c.buf, c.prev, c.next, log.sector, log`n, log`dirty
    ensures failed == (log.outstanding < 1 || (old(log.n) == LOG_SIZE && s !in old(log.sector[..log.n])))
    ensures !failed ==> Joined(log, c) && c.View() == log.View() == old(log.View())[s := data]
  {
    hide Ring, Coherent, PinsOf, ViewOf, Ftl.Valid, Over, Distinct, Logged;
    JoinedView(log, c);
    Available(c.buf[..], c.disk, log.sector[..log.n]);
    Log(c, s, data);
    failed := log.LogWrite(s, data);
    if !failed {
      JoinedView(log, c);
    }
  }

  /** The cache's part of it: read, modify, pin, release. */
  method Log(c: Bcache, s: int, data: Sector)
    requires c.Up() && Free(c.buf[..]) && 0 <= s < |c.disk| && exists b :: 0 <= b < NBUF && c.buf[b].Idle()
    modifies c, c.buf, c.prev, c.next
    ensures c.Up() && Free(c.buf[..]) && c.disk == old(c.disk)
    ensures c.View() == old(c.View())[s := data] && c.Pins() == old(c.Pins())[s := data]
  {
    hide Ring, Coherent, PinsOf, ViewOf;
    var g := c.Bread(s);
    c.Modify(g.b, data);
    c.Pin(g.b);
    ghost var k := c.Where(g.b);
    var panicked := c.Brelse(g.b, k);
  }

  /** A commit changes the sectors of the transaction only. */
  lemma Elsewhere(v: seq<Sector>, sectors: seq<int>, dirty: map<int, Sector>, k: nat)
    requires k <= |sectors| && Distinct(sectors, |v|) && forall s :: s in dirty <==> s in sectors
    ensures |Applied(v, sectors, dirty, k)| == |Over(v, dirty)| == |v|
    ensures forall h :: 0 <= h < |v| && h !in sectors ==> Applied(v, sectors, dirty, k)[h] == Over(v, dirty)[h]
  {
    hide Applied;
    forall h | 0 <= h < |v| && h !in sectors ensures Applied(v, sectors, dirty, k)[h] == Over(v, dirty)[h] {
      AppliedAt(v, sectors, dirty, k, h);
    }
  }

  /** Buffers of what was written agree with the disk only if it has it all. */
  lemma AgreesIff(bufs: seq<Buf>, disk: seq<Sector>, v: seq<Sector>, sectors: seq<int>)
    requires Coherent(bufs, disk) && Free(bufs) && PinsOf(bufs, disk) == map[] && |v| == |disk|
    requires forall s :: s in sectors ==> Cached(bufs, s)
    requires forall s :: 0 <= s < |disk| && s !in sectors ==> v[s] == disk[s]
    ensures Coherent(bufs, v) <==> v == disk
  {
    if Coherent(bufs, v) {
      forall s | 0 <= s < |disk| && s in sectors ensures v[s] == disk[s] {
        var b :| 0 <= b < |bufs| && bufs[b].Holds(s) && bufs[b].valid;
        PinnedIs(bufs, disk, b);
      }
    }
  }

  /**
   A commit through the cache.  Everyone goes on seeing what they saw, but the buffers agree with the
   disk only if the disk has stored all of it, which it does if it had room.
   */
  method Commit(log: SnapshotLog, c: Bcache) returns (o: Outcome)
    requires Joined(log, c)
    modifies c, c.buf, c.prev, c.next, log`dirty, log`n, log`accCommit, log.disk.ftl.Repr()
    ensures o.Crashed? ==> log.disk.ftl.flash.crashSim
    ensures o.Crashed? ==> log.Down()
    ensures o.Done? ==> log.Up() && log.n == 0 && log.disk.ftl.vlt == old(log.After())
    ensures o.Done? ==> c.Up() && Free(c.buf[..]) && c.Pins() == map[] && c.View() == old(log.View())
    ensures o.Done? ==> (Coherent(c.buf[..], log.disk.ftl.vlt) <==> log.disk.ftl.vlt == old(log.View()))
    ensures o.Done? ==> (Joined(log, c) <==> log.disk.ftl.vlt == old(log.View()))
    ensures o.Done? && old(log.disk.ftl.wcnt + log.n) <= MAX_WCNT ==> Joined(log, c)
  {
    hide Ring, Coherent, PinsOf, ViewOf, Ftl.Valid, Over, Distinct, Logged, Applied, Cached;
    JoinedView(log, c);
    if log.disk.ftl.wcnt + log.n <= MAX_WCNT {
      log.AfterIsView();
    }
    ghost var sectors := log.sector[..log.n];
    Elsewhere(log.disk.ftl.vlt, sectors, log.dirty, log.Room());
    WriteAll(c, log.sector[..log.n]);
    o := log.Commit();
    if o.Done? {
      log.Quiescent();
      AgreesIff(c.buf[..], c.disk, log.disk.ftl.vlt, sectors);
    }
  }

  /** An empty cache agrees with a log without a transaction. */
  lemma Joins(log: SnapshotLog, c: Bcache)
    requires Apart(log, c) && log.Up() && log.n == 0 && c.Up() && c.disk == log.disk.ftl.vlt
    requires forall b :: 0 <= b < NBUF ==> c.buf[b].dev == NO_DEV && !c.buf[b].busy && !c.buf[b].dirty
    ensures Joined(log, c) && c.View() == log.View()
  {
    hide Ring, Coherent, PinsOf, ViewOf, Ftl.Valid, Over;
    log.Quiescent();
    CacheRuns.Fresh(c);
    JoinedView(log, c);
  }

  /** The machine starts with an empty cache: everyone sees what the disk has recovered. */
  method Start(log: SnapshotLog, contents: seq<Sector>, blank: Sector) returns (o: Outcome, c: Bcache)
    requires log.Down() && contents == log.disk.ftl.stb
    modifies log, log.disk.ftl.Repr()
    ensures o.Crashed? ==> log.disk.ftl.flash.crashSim
    ensures o.Crashed? ==> log.Down()
    ensures o.Done? ==> Joined(log, c) && c.View() == log.View() == contents
  {
    hide Ring, Coherent, PinsOf, ViewOf, Ftl.Valid, Ftl.Down, Over;
    o := log.InitLog();
    c := new Bcache(contents, blank);
    if o.Done? {
      log.Quiescent();
      Joins(log, c);
    }
  }
}
