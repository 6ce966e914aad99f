/**
 The redo log over a disk that writes in the background: until a flush, any of the writes to
 a sector may or may not have reached the platter when the machine stops.
 */
module RedoLogging {
  import opened Geometry
  import opened FlashDevice
  import opened Transactions

  /** For each sector, what it may hold after a crash. */
  type Fates = seq<set<Sector>>

  /** d is a disk that a crash may leave. */
  ghost predicate CrashDisk(may: Fates, d: seq<Sector>) {
    |d| == |may| && forall s :: 0 <= s < |d| ==> d[s] in may[s]
  }

  /** Every write has reached the platter. */
  function Synced(d: seq<Sector>): (may: Fates)
    ensures CrashDisk(may, d) && forall e :: CrashDisk(may, e) ==> e == d
  {
    seq(|d|, i requires 0 <= i < |d| => {d[i]})
  }

  class AsyncDisk {
    /** Whether power may be lost while the disk works. */
    const crashSim: bool
    var cur: seq<Sector>
    var may: Fates

    ghost predicate Valid()
      reads this
    {
      CrashDisk(may, cur)
    }

    constructor (contents: seq<Sector>, crashSim: bool)
      ensures Valid() && cur == contents && may == Synced(contents) && this.crashSim == crashSim
    {
      this.crashSim := crashSim;
      cur, may := contents, Synced(contents);
    }

    /** Power is lost: every sector holds one of the values that were on their way to it. */
    method Crash()
      requires Valid()
      modifies this
      ensures Valid() && CrashDisk(old(may), cur) && may == Synced(cur)
    {
      for s := 0 to |cur|
        invariant |cur| == |old(may)| && may == old(may) && CrashDisk(old(may), cur)
      {
        assert cur[s] in may[s];
        var v :| v in may[s];
        cur := cur[s := v];
      }
      may := Synced(cur);
    }

    method Write(s: int, data: Sector) returns (o: Outcome)
      requires Valid() && 0 <= s < |cur|
      modifies this
      ensures Valid() && |cur| == |old(cur)|
      ensures o.Done? ==> cur == old(cur)[s := data] && may == old(may)[s := old(may)[s] + {data}]
      ensures o.Crashed? ==> crashSim
      ensures o.Crashed? ==> CrashDisk(old(may)[s := old(may)[s] + {data}], cur) && may == Synced(cur)
    {
      cur, may := cur[s := data], may[s := may[s] + {data}];
      var crash: bool := *;
      if crashSim && crash {
        Crash();
        return Crashed;
      }
      return Done;
    }

    method Flush() returns (o: Outcome)
      requires Valid()
      modifies this
      ensures Valid() && |cur| == |old(cur)| && may == Synced(cur)
      ensures o.Done? ==> cur == old(cur)
      ensures o.Crashed? ==> crashSim
      ensures o.Crashed? ==> CrashDisk(old(may), cur)
    {
      var crash: bool := *;
      if crashSim && crash {
        Crash();
        return Crashed;
      }
      may := Synced(cur);
      return Done;
    }
  }

  // The log on the disk

  /** The log starts at a sector of the disk and reaches to its end; sector numbers fit in a word. */
  datatype Area = Area(start: int, size: int) {
    predicate Fits(sectors: int) {
      0 <= start < 0x1_0000_0000 && 1 <= size && start + size == sectors
    }

    /** How many blocks a transaction may log. */
    predicate Holds(n: int) {
      0 <= n <= LOG_SIZE && n <= size - 1
    }
  }

  /** The header block names the given sectors, in order. */
  ghost predicate Lists(header: Sector, sectors: seq<int>) {
    && |sectors| <= LOG_SIZE && header[0] == |sectors|
    && forall i :: 0 <= i < |sectors| ==> header[1 + i] == sectors[i]
  }

  /** The header block with the given sectors in it. */
  ghost function Header(block: Sector, sectors: seq<int>): (h: Sector)
    requires |sectors| <= LOG_SIZE && forall i :: 0 <= i < |sectors| ==> 0 <= sectors[i] < 0x1_0000_0000
    ensures Lists(h, sectors)
  {
    var words := seq(|sectors|, i requires 0 <= i < |sectors| => sectors[i] as Word);
    [|sectors| as Word] + words + block[1 + |sectors|..]
  }

  /** Disk d means home area `home`: logged blocks from the log, all others from where they belong. */
  ghost predicate Restores(d: seq<Sector>, area: Area, sectors: seq<int>, home: seq<Sector>)
    requires area.Fits(|d|) && |home| == area.start
  {
    && area.Holds(|sectors|) && Distinct(sectors, area.start) && Lists(d[area.start], sectors)
    && (forall i :: 0 <= i < |sectors| ==> d[area.start + 1 + i] == home[sectors[i]])
    && (forall h :: 0 <= h < area.start && h !in sectors ==> d[h] == home[h])
  }

  ghost predicate Recovers(d: seq<Sector>, area: Area, home: seq<Sector>) {
    area.Fits(|d|) && |home| == area.start && exists sectors :: Restores(d, area, sectors, home)
  }

  /** With an empty log a recovery finds the home area as it is; this is how the file system is made. */
  lemma EmptyLog(d: seq<Sector>, area: Area)
    requires area.Fits(|d|) && d[area.start][0] == 0
    ensures Recovers(d, area, d[..area.start])
  {
    assert Restores(d, area, [], d[..area.start]);
  }

  /** A disk means one home area only. */
  lemma RecoversOnce(d: seq<Sector>, area: Area, x: seq<Sector>, y: seq<Sector>)
    requires Recovers(d, area, x) && Recovers(d, area, y)
    ensures x == y
  {
    var s :| Restores(d, area, s, x);
    var t :| Restores(d, area, t, y);
    assert s == t;
    forall h | 0 <= h < area.start ensures x[h] == y[h] {
      if h in s {
        var i :| 0 <= i < |s| && s[i] == h;
      }
    }
  }

  // What a crash may leave of the log

  /** The home area is certain to be `home`. */
  ghost predicate Cleared(may: Fates, area: Area, home: seq<Sector>)
    requires area.Fits(|may|)
  {
    |home| == area.start && forall h :: 0 <= h < area.start ==> may[h] == {home[h]}
  }

  /** The log is certain to hold the new contents of the sectors, and all other sectors are certain to have theirs. */
  ghost predicate Held(may: Fates, area: Area, sectors: seq<int>, to: seq<Sector>)
    requires area.Fits(|may|)
  {
    && |to| == area.start && area.Holds(|sectors|) && Distinct(sectors, area.start)
    && (forall i :: 0 <= i < |sectors| ==> may[area.start + 1 + i] == {to[sectors[i]]})
    && (forall h :: 0 <= h < area.start && h !in sectors ==> may[h] == {to[h]})
  }

  /** Whichever header survives, what it needs survives too. */
  ghost predicate Safe(may: Fates, area: Area, sectors: seq<int>, from: seq<Sector>, to: seq<Sector>)
    requires area.Fits(|may|)
  {
    forall h :: h in may[area.start] ==>
                  || (h[0] == 0 && Cleared(may, area, from))
                  || (Lists(h, sectors) && Held(may, area, sectors, to))
  }

  lemma SafeRecovers(may: Fates, area: Area, sectors: seq<int>, from: seq<Sector>, to: seq<Sector>, d: seq<Sector>)
    requires area.Fits(|may|) && Safe(may, area, sectors, from, to) && CrashDisk(may, d)
    ensures Recovers(d, area, from) || Recovers(d, area, to)
  {
    var h := d[area.start];
    assert h in may[area.start];
    if Lists(h, sectors) && Held(may, area, sectors, to) {
      assert Restores(d, area, sectors, to);
    } else {
      assert Restores(d, area, [], from);
    }
  }

  /** The log is empty. */
  ghost predicate Quiet(may: Fates, area: Area, home: seq<Sector>)
    requires area.Fits(|may|)
  {
    Cleared(may, area, home) && forall h :: h in may[area.start] ==> h[0] == 0
  }

  lemma QuietSafe(may: Fates, area: Area, sectors: seq<int>, home: seq<Sector>, to: seq<Sector>, d: seq<Sector>)
    requires area.Fits(|may|) && Quiet(may, area, home) && CrashDisk(may, d)
    ensures Safe(may, area, sectors, home, to) && d[area.start][0] == 0 && d[..area.start] == home
  {
    assert forall h :: 0 <= h < area.start ==> d[h] in may[h];
    assert d[area.start] in may[area.start];
  }

  /** The blocks are in the log and the home area is old: either header is safe. */
  lemma CommitSafe(d: seq<Sector>, area: Area, sectors: seq<int>, from: seq<Sector>, to: seq<Sector>, header: Sector)
    requires area.Fits(|d|) && d[..area.start] == from && |to| == area.start && d[area.start][0] == 0
    requires area.Holds(|sectors|) && Distinct(sectors, area.start) && Lists(header, sectors)
    requires forall i :: 0 <= i < |sectors| ==> d[area.start + 1 + i] == to[sectors[i]]
    requires forall h :: 0 <= h < area.start && h !in sectors ==> to[h] == from[h]
    ensures Safe(Synced(d)[area.start := {d[area.start]} + {header}], area, sectors, from, to)
    ensures Held(Synced(d[area.start := header]), area, sectors, to)
  {
    var may := Synced(d)[area.start := {d[area.start]} + {header}];
    assert forall h :: 0 <= h < area.start ==> may[h] == {d[..area.start][h]};
    assert Cleared(may, area, from) && Held(may, area, sectors, to);
  }

  /** The blocks are in the log and at home: either header is safe. */
  lemma ClearSafe(d: seq<Sector>, area: Area, sectors: seq<int>, to: seq<Sector>, header: Sector)
    requires area.Fits(|d|) && d[..area.start] == to && Lists(d[area.start], sectors) && header[0] == 0
    requires area.Holds(|sectors|) && Distinct(sectors, area.start)
    requires forall i :: 0 <= i < |sectors| ==> d[area.start + 1 + i] == to[sectors[i]]
    ensures Safe(Synced(d)[area.start := {d[area.start]} + {header}], area, sectors, to, to)
    ensures Cleared(Synced(d[area.start := header]), area, to)
  {
    var may := Synced(d)[area.start := {d[area.start]} + {header}];
    assert forall h :: 0 <= h < area.start ==> may[h] == {d[..area.start][h]};
    assert Cleared(may, area, to) && Held(may, area, sectors, to);
  }

  /** Writing home a block of the transaction disturbs nothing that the log needs. */
  lemma InstallSafe(may: Fates, area: Area, sectors: seq<int>, to: seq<Sector>, i: int, data: Sector)
    requires area.Fits(|may|) && Held(may, area, sectors, to) && 0 <= i < |sectors|
    requires forall h :: h in may[area.start] ==> Lists(h, sectors)
    ensures Held(may[sectors[i] := may[sectors[i]] + {data}], area, sectors, to)
    ensures Safe(may[sectors[i] := may[sectors[i]] + {data}], area, sectors, to, to)
  {
    hide Lists;
    assert sectors[i] in sectors;
  }

  /** The first i blocks of the transaction are at home. */
  ghost predicate Installed(d: seq<Sector>, sectors: seq<int>, to: seq<Sector>, i: nat) {
    forall j :: 0 <= j < i && j < |sectors| ==> 0 <= sectors[j] < |d| && sectors[j] < |to| && d[sectors[j]] == to[sectors[j]]
  }

  lemma InstalledNext(d: seq<Sector>, area: Area, sectors: seq<int>, to: seq<Sector>, i: nat)
    requires Installed(d, sectors, to, i) && i < |sectors| && Distinct(sectors, area.start)
    requires area.Fits(|d|) && |to| == area.start
    ensures Installed(d[sectors[i] := to[sectors[i]]], sectors, to, i + 1)
  {
  }

  /** What is certain of the log is what is in it. */
  lemma HeldAt(may: Fates, area: Area, sectors: seq<int>, to: seq<Sector>, d: seq<Sector>, i: nat)
    requires area.Fits(|may|) && Held(may, area, sectors, to) && CrashDisk(may, d) && i < |sectors|
    ensures area.start + 1 + i < |d| && d[area.start + 1 + i] == to[sectors[i]]
  {
    assert d[area.start + 1 + i] in may[area.start + 1 + i];
  }

  /** With all blocks at home the home area is the new one. */
  lemma AllInstalled(may: Fates, area: Area, sectors: seq<int>, to: seq<Sector>, d: seq<Sector>)
    requires area.Fits(|may|) && Held(may, area, sectors, to) && CrashDisk(may, d) && Installed(d, sectors, to, |sectors|)
    ensures d[..area.start] == to
  {
    forall h | 0 <= h < area.start ensures d[h] == to[h] {
      if h !in sectors {
        assert d[h] in may[h];
      }
    }
  }

  class RedoLog {
    const disk: AsyncDisk
    const area: Area
    const sector: array<int>
    var n: int
    var outstanding: int
    var committing: bool
    /** The buffers that are pinned because the disk does not have their contents yet. */
    var dirty: map<int, Sector>
    ghost var home: seq<Sector>

    ghost predicate Parts()
      reads this, disk, sector
    {
      && disk.Valid() && area.Fits(|disk.cur|) && |home| == area.start
      && sector.Length == LOG_SIZE && area.Holds(n) && Distinct(sector[..n], area.start)
    }

    ghost predicate Valid()
      reads this, disk, sector
    {
      && Parts()
      && Quiet(disk.may, area, home)
      && (forall s :: s in dirty <==> s in sector[..n])
    }

    /** The machine has stopped, and a recovery would bring back home. */
    ghost predicate Down()
      reads this, disk
    {
      && disk.Valid() && disk.may == Synced(disk.cur) && sector.Length == LOG_SIZE
      && Recovers(disk.cur, area, home)
    }

    /** The log of a disk that has stopped: just formatted, or left by a crash. */
    constructor (disk: AsyncDisk, area: Area, ghost home: seq<Sector>)
      requires disk.Valid() && disk.may == Synced(disk.cur) && Recovers(disk.cur, area, home)
      ensures Down() && fresh(sector) && this.disk == disk && this.area == area && this.home == home
    {
      this.disk, this.area, this.home := disk, area, home;
      sector := new int[LOG_SIZE];
      n, outstanding, committing, dirty := 0, 0, false, map[];
    }

    /** What a read returns. */
    ghost function View(): seq<Sector>
      reads this
    {
      Over(home, dirty)
    }

    /** A buffer with the current contents of a sector. */
    function Bread(s: int): Sector
      requires 0 <= s < |disk.cur|
      reads this, disk
    {
      if s in dirty then dirty[s] else disk.cur[s]
    }

    method Bwrite(s: int, data: Sector) returns (o: Outcome)
      requires disk.Valid() && 0 <= s < |disk.cur|
      modifies disk, this`dirty
      ensures disk.Valid() && |disk.cur| == |old(disk.cur)| && dirty == old(dirty) - {s}
      ensures o.Done? ==> disk.cur == old(disk.cur)[s := data] && disk.may == old(disk.may)[s := old(disk.may)[s] + {data}]
      ensures o.Crashed? ==> disk.crashSim
      ensures o.Crashed? ==> CrashDisk(old(disk.may)[s := old(disk.may)[s] + {data}], disk.cur) && disk.may == Synced(disk.cur)
    {
      o := disk.Write(s, data);
      dirty := dirty - {s};
    }

    /** Fills in the header block from the list in memory. */
    method FillHead(h: Sector) returns (hb: Sector)
      requires area.Holds(n) && sector.Length == LOG_SIZE && Distinct(sector[..n], area.start) && area.start <= 0x1_0000_0000
      ensures hb == Header(h, sector[..n])
    {
      hb := h[0 := n];
      for i := 0 to n
        invariant hb[0] == n && forall j :: 1 <= j < |hb| ==> hb[j] == if j <= i then sector[j - 1] else h[j]
      {
        hb := hb[1 + i := sector[i]];
      }
    }

    /** Writes the header between two flushes; a crash on the way leaves one of the two meanings. */
    method WriteHead(ghost sectors: seq<int>, ghost from: seq<Sector>, ghost to: seq<Sector>) returns (o: Outcome)
      requires Parts() && area.start !in dirty
      requires Safe(disk.may, area, sectors, from, to)
      requires var synced := Synced(disk.cur); var h := disk.cur[area.start];
               Safe(synced[area.start := {h} + {Header(h, sector[..n])}], area, sectors, from, to)
      modifies disk, this`dirty
      ensures disk.Valid() && |disk.cur| == |old(disk.cur)| && disk.may == Synced(disk.cur)
      ensures o.Crashed? ==> disk.crashSim
      ensures o.Crashed? ==> Recovers(disk.cur, area, from) || Recovers(disk.cur, area, to)
      ensures o.Done? ==> dirty == old(dirty) && disk.cur == old(disk.cur)[area.start := Header(old(disk.cur)[area.start], sector[..n])]
    {
      hide Safe, Recovers, Header, Distinct;
      o := disk.Flush();
      if o.Crashed? {
        SafeRecovers(old(disk.may), area, sectors, from, to, disk.cur);
        return;
      }
      var hb := FillHead(Bread(area.start));
      ghost var may := disk.may[area.start := disk.may[area.start] + {hb}];
      o := Bwrite(area.start, hb);
      if o.Crashed? {
        SafeRecovers(may, area, sectors, from, to, disk.cur);
        return;
      }
      o := disk.Flush();
      if o.Crashed? {
        SafeRecovers(may, area, sectors, from, to, disk.cur);
      }
    }

    /** Copies the committed blocks home; the log stays whole until all of them are there. */
    method InstallTrans(ghost to: seq<Sector>) returns (o: Outcome)
      requires Parts() && Held(disk.may, area, sector[..n], to)
      requires forall h :: h in disk.may[area.start] ==> Lists(h, sector[..n])
      requires forall s :: s in dirty ==> s in sector[..n]
      modifies disk, this`dirty
      ensures disk.Valid() && |disk.cur| == |old(disk.cur)|
      ensures o.Crashed? ==> disk.crashSim
      ensures o.Crashed? ==> disk.may == Synced(disk.cur) && Recovers(disk.cur, area, to)
      ensures o.Done? ==> dirty == map[] && Held(disk.may, area, sector[..n], to) && disk.cur[..area.start] == to
      ensures o.Done? ==> forall h :: h in disk.may[area.start] ==> Lists(h, sector[..n])
      ensures o.Done? ==> disk.cur[area.start] == old(disk.cur)[area.start]
    {
      ghost var sectors := sector[..n];
      UnpinnedAll(dirty, sectors);
      hide Safe, Lists, Recovers, PinnedWithin, Held, Distinct;
      for tail := 0 to n
        invariant disk.Valid() && |disk.cur| == |old(disk.cur)| && Held(disk.may, area, sectors, to)
        invariant disk.may[area.start] == old(disk.may)[area.start] && disk.cur[area.start] == old(disk.cur)[area.start]
        invariant Installed(disk.cur, sectors, to, tail) && PinnedWithin(dirty, sectors, tail)
      {
        o := InstallOne(tail, to);
        if o.Crashed? {
          return;
        }
      }
      AllInstalled(disk.may, area, sectors, to, disk.cur);
      UnpinnedAll(dirty, sectors);
      o := Done;
    }

    /** Copies one block home. */
    method InstallOne(tail: int, ghost to: seq<Sector>) returns (o: Outcome)
      requires Parts() && 0 <= tail < n && Held(disk.may, area, sector[..n], to) && PinnedWithin(dirty, sector[..n], tail)
      requires forall h :: h in disk.may[area.start] ==> Lists(h, sector[..n])
      requires Installed(disk.cur, sector[..n], to, tail)
      modifies disk, this`dirty
      ensures disk.Valid() && |disk.cur| == |old(disk.cur)|
      ensures o.Crashed? ==> disk.crashSim
      ensures o.Crashed? ==> disk.may == Synced(disk.cur) && Recovers(disk.cur, area, to)
      ensures o.Done? ==> Held(disk.may, area, sector[..n], to) && PinnedWithin(dirty, sector[..n], tail + 1)
      ensures o.Done? ==> Installed(disk.cur, sector[..n], to, tail + 1)
      ensures o.Done? ==> disk.may[area.start] == old(disk.may)[area.start] && disk.cur[area.start] == old(disk.cur)[area.start]
    {
      ghost var sectors := sector[..n];
      UnpinnedNext(dirty, sectors, tail);
      HeldAt(disk.may, area, sectors, to, disk.cur, tail);
      hide Safe, Lists, Recovers, PinnedWithin, Held, Installed;
      var data := Bread(area.start + 1 + tail);
      InstallSafe(disk.may, area, sectors, to, tail, data);
      InstalledNext(disk.cur, area, sectors, to, tail);
      ghost var may := disk.may[sectors[tail] := disk.may[sectors[tail]] + {data}];
      o := Bwrite(sector[tail], data);
      if o.Crashed? {
        SafeRecovers(may, area, sectors, to, to, disk.cur);
      }
    }

    /** Copies the pinned blocks to the log. */
    method WriteLog(ghost to: seq<Sector>) returns (o: Outcome)
      requires Valid() && |to| == area.start
      requires forall i :: 0 <= i < n ==> to[sector[i]] == dirty[sector[i]]
      requires forall h :: 0 <= h < area.start && h !in sector[..n] ==> to[h] == home[h]
      modifies disk, this`dirty
      ensures dirty == old(dirty) && disk.Valid() && |disk.cur| == |old(disk.cur)|
      ensures o.Crashed? ==> disk.crashSim
      ensures o.Crashed? ==> disk.may == Synced(disk.cur) && Recovers(disk.cur, area, home)
      ensures o.Done? ==> Valid() && forall i :: 0 <= i < n ==> disk.cur[area.start + 1 + i] == to[sector[i]]
    {
      hide Recovers, Over;
      for tail := 0 to n
        invariant Valid() && dirty == old(dirty) && |disk.cur| == |old(disk.cur)|
        invariant forall i :: 0 <= i < tail ==> disk.cur[area.start + 1 + i] == to[sector[i]]
      {
        var data := Bread(sector[tail]);
        ghost var log := area.start + 1 + tail;
        ghost var may := disk.may[log := disk.may[log] + {data}];
        o := Bwrite(area.start + 1 + tail, data);
        assert dirty == old(dirty);
        if o.Crashed? {
          SafeRecovers(may, area, [], home, home, disk.cur);
          return;
        }
      }
      o := Done;
    }

    /** The commit point. */
    method WriteCommit(ghost to: seq<Sector>) returns (o: Outcome)
      requires Valid() && |to| == area.start
      requires forall i :: 0 <= i < n ==> disk.cur[area.start + 1 + i] == to[sector[i]]
      requires forall h :: 0 <= h < area.start && h !in sector[..n] ==> to[h] == home[h]
      modifies disk, this`dirty, this`home
      ensures o.Crashed? ==> disk.crashSim
      ensures o.Crashed? ==> Down() && (home == old(home) || home == to)
      ensures o.Done? ==> Parts() && home == to && dirty == old(dirty) && |disk.cur| == |old(disk.cur)|
      ensures o.Done? ==> Held(disk.may, area, sector[..n], to)
      ensures o.Done? ==> forall h :: h in disk.may[area.start] ==> Lists(h, sector[..n])
    {
      hide Safe, Recovers, Quiet, Cleared;
      ghost var h := disk.cur[area.start];
      QuietSafe(disk.may, area, sector[..n], home, to, disk.cur);
      CommitSafe(disk.cur, area, sector[..n], home, to, Header(h, sector[..n]));
      o := WriteHead(sector[..n], home, to);
      home := if o.Done? || Recovers(disk.cur, area, to) then to else home;
    }

    /** Clears the log once the blocks are at home. */
    method ClearLog() returns (o: Outcome)
      requires Parts() && Held(disk.may, area, sector[..n], home) && disk.cur[..area.start] == home && dirty == map[]
      requires forall h :: h in disk.may[area.start] ==> Lists(h, sector[..n])
      modifies disk, this`dirty, this`n
      ensures o.Crashed? ==> disk.crashSim
      ensures o.Crashed? ==> Down()
      ensures o.Done? ==> Valid() && n == 0
    {
      ghost var sectors, h := sector[..n], disk.cur[area.start];
      assert h in disk.may[area.start];
      assert forall l :: area.start < l <= area.start + n ==> disk.cur[l] in disk.may[l];
      n := 0;
      ClearSafe(disk.cur, area, sectors, home, Header(h, []));
      assert sector[..0] == [];
      o := WriteHead(sectors, home, home);
    }

    /** Makes the transaction durable; a crash anywhere leaves the home area as it was before, or as it is after. */
    method Commit() returns (o: Outcome)
      requires Valid()
      modifies disk, this`dirty, this`n, this`home
      ensures o.Crashed? ==> disk.crashSim
      ensures o.Crashed? ==> Down() && (home == old(home) || (old(n) > 0 && home == old(View())))
      ensures o.Done? ==> Valid() && n == 0 && home == old(View())
      ensures old(n) == 0 ==> o.Done? && disk.cur == old(disk.cur) && disk.may == old(disk.may)
    {
      ghost var to := View();
      if n > 0 {
        o := WriteLog(to);
        if o.Crashed? {
          return;
        }
        o := WriteCommit(to);
        if o.Crashed? {
          return;
        }
        o := InstallTrans(to);
        if o.Crashed? {
          return;
        }
        o := ClearLog();
        if o.Crashed? {
          return;
        }
      } else {
        assert to == home;
      }
      o := Done;
    }

    method ReadHead(ghost sectors: seq<int>)
      requires disk.Valid() && sector.Length == LOG_SIZE && area.Fits(|disk.cur|) && area.start !in dirty
      requires Lists(disk.cur[area.start], sectors)
      modifies this`n, sector
      ensures n == |sectors| && sector[..n] == sectors
    {
      var hb := Bread(area.start);
      n := hb[0];
      for i := 0 to n
        invariant n == |sectors| && sector[..i] == sectors[..i]
      {
        sector[i] := hb[1 + i];
      }
    }

    /** Repeats the installation of a committed transaction and clears the log. */
    method RecoverFromLog() returns (o: Outcome)
      requires Down() && dirty == map[]
      modifies disk, sector, this`dirty, this`n
      ensures o.Crashed? ==> disk.crashSim
      ensures o.Crashed? ==> Down()
      ensures o.Done? ==> Valid() && n == 0 && home == old(home)
    {
      ghost var sectors :| Restores(disk.cur, area, sectors, home);
      ReadHead(sectors);
      o := InstallTrans(home);
      if o.Crashed? {
        return;
      }
      o := ClearLog();
    }

    /** Starts the machine: memory is blank and the log is replayed. */
    method InitLog() returns (o: Outcome)
      requires Down()
      modifies this, disk, sector
      ensures home == old(home)
      ensures o.Crashed? ==> disk.crashSim
      ensures o.Crashed? ==> Down()
      ensures o.Done? ==> Up() && View() == home && outstanding == 0 && n == 0
    {
      n, outstanding, committing, dirty := 0, 0, false, map[];
      o := RecoverFromLog();
    }

    ghost predicate Up()
      reads this, disk, sector
    {
      Valid() && !committing
    }

    method Read(s: int) returns (data: Sector)
      requires Up() && 0 <= s < |home|
      ensures data == View()[s]
    {
      data := Bread(s);
      assert disk.cur[s] in disk.may[s];
    }

    /** Admits an operation unless the log might run out of room; the caller is to wait if it is not admitted. */
    method BeginOp() returns (admitted: bool)
      requires Up()
      modifies this`outstanding
      ensures Up() && admitted == (n + (old(outstanding) + 1) * MAX_OP_BLOCKS <= LOG_SIZE)
      ensures outstanding == if admitted then old(outstanding) + 1 else old(outstanding)
    {
      if committing || n + (outstanding + 1) * MAX_OP_BLOCKS > LOG_SIZE {
        return false;
      }
      outstanding := outstanding + 1;
      return true;
    }

    /** The caller has modified a buffer: its sector joins the transaction, once, and the buffer is pinned. */
    method LogWrite(s: int, data: Sector) returns (panicked: bool)
      requires Up() && 0 <= s < |home|
      modifies sector, this`n, this`dirty
      ensures panicked == (old(n) >= LOG_SIZE || old(n) >= area.size - 1 || outstanding < 1)
      ensures panicked ==> Up() && View() == old(View())
      ensures !panicked ==> Up() && View() == old(View())[s := data] && sector[..n] == Logged(old(sector[..n]), s)
      ensures !panicked ==> dirty == old(dirty)[s := data]
    {
      if n >= LOG_SIZE || n >= area.size - 1 || outstanding < 1 {
        return true;
      }
      hide Quiet, Distinct, Over, Logged;
      LoggedDistinct(sector[..n], s, area.start);
      OverPinned(home, dirty, s, data);
      var i := 0;
      while i < n && sector[i] != s
        invariant 0 <= i <= n && s !in sector[..i]
      {
        i := i + 1;
      }
      LoggedAt(sector[..], n, s, i);
      sector[i] := s;
      n := if i == n then n + 1 else n;
      dirty := dirty[s := data];
      return false;
    }

    /** Without pinned blocks reads see the home area. */
    lemma Quiescent()
      requires Valid()
      ensures n == 0 ==> View() == home
    {
      assert n == 0 ==> forall s :: s !in dirty;
    }

    /** Ends an operation; the last one commits for all. */
    method EndOp() returns (o: Outcome)
      requires Up()
      modifies this, disk
      ensures o.Crashed? ==> disk.crashSim
      ensures o.Crashed? ==> Down() && old(outstanding) == 1 && (home == old(home) || (old(n) > 0 && home == old(View())))
      ensures o.Done? ==> Up() && outstanding == old(outstanding) - 1 && View() == old(View())
      ensures o.Done? && old(outstanding) == 1 ==> n == 0 && home == old(View())
      ensures o.Done? && old(outstanding) != 1 ==> home == old(home) && sector[..n] == old(sector[..n])
    {
      outstanding := outstanding - 1;
      o := Done;
      if outstanding == 0 {
        committing := true;
        o := Commit();
        committing := false;
        assert o.Done? ==> View() == home;
      }
    }

    /** The power may fail between two calls as well. */
    method PowerLoss()
      requires Up()
      modifies disk
      ensures Down()
    {
      SafeRecovers(disk.may, area, [], home, home, disk.cur);
      ghost var may := disk.may;
      disk.Crash();
      SafeRecovers(may, area, [], home, home, disk.cur);
    }
  }
}
