/**
 The buffer cache: buffers on a ring in the order of their last release, each with a copy of
 a sector, which a log may pin until it has been committed.
 */
module BufferCache {
  import opened Geometry
  import opened Transactions

  const NBUF := 8192
  /** The index of the list head, which is not a buffer. */
  const HEAD := 8192
  const NO_DEV := 0xFFFF_FFFF
  const ROOT_DEV := 1

  // The ring

  /** The links of the buffers and of the head. */
  datatype Links = Links(prev: seq<int>, next: seq<int>) {
    predicate Shaped() { |prev| == NBUF + 1 && |next| == NBUF + 1 }
  }

  /** The i-th node of the ring; the head comes before the first buffer and after the last. */
  ghost function At(order: seq<int>, i: int): int {
    if 0 <= i < |order| then order[i] else HEAD
  }

  /** The links go around the ring in both directions. */
  ghost predicate Ring(l: Links, order: seq<int>) {
    && l.Shaped() && Distinct(order, NBUF)
    && (forall i :: -1 <= i < |order| ==> l.next[At(order, i)] == At(order, i + 1))
    && (forall i :: 0 <= i <= |order| ==> l.prev[At(order, i)] == At(order, i - 1))
  }

  /** The links after buffer b has been put behind the head. */
  ghost function Inserted(l: Links, b: int): (r: Links)
    requires l.Shaped() && 0 <= b < NBUF && 0 <= l.next[HEAD] <= NBUF
    ensures r.Shaped()
  {
    Links(l.prev[b := HEAD][l.next[HEAD] := b], l.next[b := l.next[HEAD]][HEAD := b])
  }

  lemma InsertKeepsRing(l: Links, order: seq<int>, b: int)
    requires Ring(l, order) && 0 <= b < NBUF && b !in order
    ensures 0 <= l.next[HEAD] <= NBUF && Ring(Inserted(l, b), [b] + order)
  {
    var after := [b] + order;
    assert l.next[At(order, -1)] == At(order, 0);
    forall i | -1 <= i < |after| ensures Inserted(l, b).next[At(after, i)] == At(after, i + 1) {
      assert i >= 1 ==> l.next[At(order, i - 1)] == At(order, i);
    }
    forall i | 0 <= i <= |after| ensures Inserted(l, b).prev[At(after, i)] == At(after, i - 1) {
      assert i >= 1 ==> l.prev[At(order, i - 1)] == At(order, i - 2);
    }
  }

  /** The links after buffer b has been taken off the ring. */
  ghost function Removed(l: Links, b: int): (r: Links)
    requires l.Shaped() && 0 <= b < NBUF && 0 <= l.next[b] <= NBUF && 0 <= l.prev[b] <= NBUF
    ensures r.Shaped()
  {
    Links(l.prev[l.next[b] := l.prev[b]], l.next[l.prev[b] := l.next[b]])
  }

  ghost function Without(order: seq<int>, k: int): seq<int>
    requires 0 <= k < |order|
  {
    order[..k] + order[k + 1..]
  }

  lemma RemoveKeepsRing(l: Links, order: seq<int>, k: int)
    requires Ring(l, order) && 0 <= k < |order|
    ensures var b := order[k]; 0 <= l.next[b] <= NBUF && 0 <= l.prev[b] <= NBUF && Ring(Removed(l, b), Without(order, k))
    ensures order[k] !in Without(order, k)
  {
    var b, after := order[k], Without(order, k);
    assert l.next[At(order, k)] == At(order, k + 1) && l.prev[At(order, k)] == At(order, k - 1);
    forall i | -1 <= i < |after| ensures Removed(l, b).next[At(after, i)] == At(after, i + 1) {
      assert At(after, i) == At(order, if i < k then i else i + 1);
      assert At(after, i + 1) == At(order, if i + 1 < k then i + 1 else i + 2);
    }
    forall i | 0 <= i <= |after| ensures Removed(l, b).prev[At(after, i)] == At(after, i - 1) {
      assert At(after, i) == At(order, if i < k then i else i + 1);
      assert At(after, i - 1) == At(order, if i - 1 < k then i - 1 else i);
    }
  }

  // What is cached

  datatype Buf = Buf(busy: bool, valid: bool, dirty: bool, dev: int, sector: int, data: Sector) {
    predicate Holds(s: int) { dev == ROOT_DEV && sector == s }
    /** May be given to another sector. */
    predicate Idle() { !busy && !dirty }
  }

  /** No sector is cached twice, and what can be thrown away is on the disk. */
  ghost predicate Coherent(bufs: seq<Buf>, disk: seq<Sector>) {
    && |bufs| == NBUF
    && (forall b :: 0 <= b < NBUF ==> bufs[b].dev == NO_DEV || (bufs[b].dev == ROOT_DEV && 0 <= bufs[b].sector < |disk|))
    && (forall b, c :: 0 <= b < c < NBUF && bufs[b].dev == ROOT_DEV && bufs[c].dev == ROOT_DEV ==> bufs[b].sector != bufs[c].sector)
    && (forall b :: 0 <= b < NBUF && (bufs[b].dirty || bufs[b].valid) ==> bufs[b].valid && bufs[b].dev == ROOT_DEV)
    && (forall b :: 0 <= b < NBUF && bufs[b].valid && bufs[b].Idle() ==> bufs[b].data == disk[bufs[b].sector])
  }

  /** Some buffer has the contents of sector s. */
  ghost predicate Cached(bufs: seq<Buf>, s: int) {
    exists b :: 0 <= b < |bufs| && bufs[b].Holds(s) && bufs[b].valid
  }

  /** What a holder of sector s sees. */
  ghost function Cell(bufs: seq<Buf>, disk: seq<Sector>, s: int): Sector
    requires 0 <= s < |disk|
  {
    if Cached(bufs, s) then var b :| 0 <= b < |bufs| && bufs[b].Holds(s) && bufs[b].valid; bufs[b].data else disk[s]
  }

  /** The sector is pinned: the disk is not to have its contents yet. */
  ghost predicate Pinned(bufs: seq<Buf>, s: int) {
    exists b :: 0 <= b < |bufs| && bufs[b].Holds(s) && bufs[b].dirty
  }

  lemma CellIs(bufs: seq<Buf>, disk: seq<Sector>, b: int)
    requires Coherent(bufs, disk) && 0 <= b < NBUF && bufs[b].valid
    ensures 0 <= bufs[b].sector < |disk| && Cell(bufs, disk, bufs[b].sector) == bufs[b].data
    ensures Pinned(bufs, bufs[b].sector) == bufs[b].dirty
  {
    assert bufs[b].Holds(bufs[b].sector);
  }

  ghost function ViewOf(bufs: seq<Buf>, disk: seq<Sector>): (v: seq<Sector>)
    ensures |v| == |disk|
  {
    seq(|disk|, s requires 0 <= s < |disk| => Cell(bufs, disk, s))
  }

  lemma ViewAt(bufs: seq<Buf>, disk: seq<Sector>, s: int)
    requires 0 <= s < |disk|
    ensures ViewOf(bufs, disk)[s] == Cell(bufs, disk, s)
  {
  }

  ghost function PinsOf(bufs: seq<Buf>, disk: seq<Sector>): map<int, Sector> {
    map s | 0 <= s < |disk| && Pinned(bufs, s) :: Cell(bufs, disk, s)
  }

  /** A change to one buffer that keeps its sector. */
  ghost predicate Touched(bufs: seq<Buf>, after: seq<Buf>, b: int) {
    && |bufs| == NBUF && |after| == NBUF && 0 <= b < NBUF && after == bufs[b := after[b]]
    && bufs[b].valid && after[b].valid && after[b].sector == bufs[b].sector && after[b].dev == bufs[b].dev
  }

  lemma TouchedElsewhere(bufs: seq<Buf>, disk: seq<Sector>, after: seq<Buf>, disk': seq<Sector>, b: int, s: int)
    requires Coherent(bufs, disk) && Coherent(after, disk') && Touched(bufs, after, b)
    requires 0 <= s < |disk| && s != bufs[b].sector && |disk'| == |disk| && disk'[s] == disk[s]
    ensures Cell(after, disk', s) == Cell(bufs, disk, s) && Pinned(after, s) == Pinned(bufs, s)
  {
    hide Coherent, Cell, Pinned;
    SameCell(bufs, disk, after, disk', s);
  }

  /** It is seen in that sector only. */
  lemma TouchedView(bufs: seq<Buf>, disk: seq<Sector>, after: seq<Buf>, disk': seq<Sector>, b: int)
    requires Coherent(bufs, disk) && Coherent(after, disk') && Touched(bufs, after, b)
    requires |disk'| == |disk| && forall s :: 0 <= s < |disk| && s != bufs[b].sector ==> disk'[s] == disk[s]
    ensures 0 <= bufs[b].sector < |disk| && ViewOf(after, disk') == ViewOf(bufs, disk)[bufs[b].sector := after[b].data]
  {
    hide Coherent, Cell, Pinned;
    CellIs(bufs, disk, b);
    CellIs(after, disk', b);
    forall s | 0 <= s < |disk| && s != bufs[b].sector ensures Cell(after, disk', s) == Cell(bufs, disk, s) {
      TouchedElsewhere(bufs, disk, after, disk', b, s);
    }
  }

  lemma TouchedPins(bufs: seq<Buf>, disk: seq<Sector>, after: seq<Buf>, disk': seq<Sector>, b: int)
    requires Coherent(bufs, disk) && Coherent(after, disk') && Touched(bufs, after, b)
    requires |disk'| == |disk| && forall s :: 0 <= s < |disk| && s != bufs[b].sector ==> disk'[s] == disk[s]
    ensures PinsOf(after, disk') ==
            if after[b].dirty then PinsOf(bufs, disk)[bufs[b].sector := after[b].data] else PinsOf(bufs, disk) - {bufs[b].sector}
  {
    hide Coherent, Cell, Pinned;
    CellIs(bufs, disk, b);
    CellIs(after, disk', b);
    forall s | 0 <= s < |disk| && s != bufs[b].sector
      ensures Cell(after, disk', s) == Cell(bufs, disk, s) && Pinned(after, s) == Pinned(bufs, s)
    {
      TouchedElsewhere(bufs, disk, after, disk', b, s);
    }
  }

  /** What is seen of a sector depends on the buffers that hold it. */
  lemma SameCell(bufs: seq<Buf>, disk: seq<Sector>, after: seq<Buf>, disk': seq<Sector>, s: int)
    requires Coherent(bufs, disk) && Coherent(after, disk') && 0 <= s < |disk| && |disk'| == |disk| && disk'[s] == disk[s]
    requires forall b :: 0 <= b < NBUF && (bufs[b].Holds(s) || after[b].Holds(s)) ==>
                           && after[b].Holds(s) && bufs[b].Holds(s) && after[b].valid == bufs[b].valid
                           && after[b].dirty == bufs[b].dirty && after[b].data == bufs[b].data
    ensures Cell(after, disk', s) == Cell(bufs, disk, s) && Pinned(after, s) == Pinned(bufs, s)
  {
    if Cached(bufs, s) {
      var b :| 0 <= b < |bufs| && bufs[b].Holds(s) && bufs[b].valid;
      CellIs(bufs, disk, b);
      CellIs(after, disk', b);
    } else {
      assert !Cached(after, s);
      assert !Pinned(after, s) && !Pinned(bufs, s);
    }
  }

  /** Taking a buffer for sector s keeps the cache coherent if it holds s already, or is idle and nothing holds s. */
  lemma Taken(bufs: seq<Buf>, disk: seq<Sector>, after: seq<Buf>, b: int, s: int)
    requires Coherent(bufs, disk) && |after| == NBUF && 0 <= b < NBUF && after == bufs[b := after[b]] && 0 <= s < |disk|
    requires || after[b] == bufs[b].(busy := true)
             || ((forall c :: 0 <= c < NBUF ==> !bufs[c].Holds(s)) && bufs[b].Idle()
                 && after[b] == bufs[b].(busy := true, valid := false, dev := ROOT_DEV, sector := s))
    ensures Coherent(after, disk)
  {
  }

  lemma ViewKept(bufs: seq<Buf>, disk: seq<Sector>, b: int)
    requires Coherent(bufs, disk) && 0 <= b < NBUF && bufs[b].valid
    ensures 0 <= bufs[b].sector < |disk| && ViewOf(bufs, disk)[bufs[b].sector := bufs[b].data] == ViewOf(bufs, disk)
    ensures bufs[b].dirty ==> PinsOf(bufs, disk)[bufs[b].sector := bufs[b].data] == PinsOf(bufs, disk)
    ensures !bufs[b].dirty ==> PinsOf(bufs, disk) - {bufs[b].sector} == PinsOf(bufs, disk)
  {
    hide Coherent, Cell, Pinned;
    CellIs(bufs, disk, b);
  }

  lemma PinnedIs(bufs: seq<Buf>, disk: seq<Sector>, b: int)
    requires Coherent(bufs, disk) && 0 <= b < NBUF && bufs[b].valid
    ensures 0 <= bufs[b].sector < |disk| && ViewOf(bufs, disk)[bufs[b].sector] == bufs[b].data
    ensures bufs[b].sector in PinsOf(bufs, disk) <==> bufs[b].dirty
  {
    hide Cell, Cached;
    CellIs(bufs, disk, b);
  }

  /** Nothing changes for anyone when a buffer becomes busy. */
  lemma Marked(bufs: seq<Buf>, disk: seq<Sector>, after: seq<Buf>, b: int)
    requires Coherent(bufs, disk) && |after| == NBUF && 0 <= b < NBUF && after == bufs[b := bufs[b].(busy := true)]
    ensures Coherent(after, disk) && ViewOf(after, disk) == ViewOf(bufs, disk) && PinsOf(after, disk) == PinsOf(bufs, disk)
  {
    hide Cell, Pinned;
    forall s | 0 <= s < |disk| ensures Cell(after, disk, s) == Cell(bufs, disk, s) && Pinned(after, s) == Pinned(bufs, s) {
      SameCell(bufs, disk, after, disk, s);
    }
  }

  /** Nor when an idle buffer is given to a sector that nothing holds, and filled from the disk. */
  ghost predicate Loaded(bufs: seq<Buf>, disk: seq<Sector>, after: seq<Buf>, b: int, s: int) {
    && |bufs| == NBUF && |after| == NBUF && 0 <= b < NBUF && 0 <= s < |disk|
    && bufs[b].Idle() && (forall c :: 0 <= c < NBUF ==> !bufs[c].Holds(s))
    && after == bufs[b := Buf(true, true, false, ROOT_DEV, s, disk[s])]
  }

  lemma LoadedCell(bufs: seq<Buf>, disk: seq<Sector>, after: seq<Buf>, b: int, s: int, t: int)
    requires Coherent(bufs, disk) && Coherent(after, disk) && Loaded(bufs, disk, after, b, s) && 0 <= t < |disk|
    ensures Cell(after, disk, t) == Cell(bufs, disk, t) && Pinned(after, t) == Pinned(bufs, t)
  {
    if t == s {
      CellIs(after, disk, b);
      assert !Cached(bufs, s) && !Pinned(bufs, s);
    } else if bufs[b].Holds(t) {
      if bufs[b].valid {
        CellIs(bufs, disk, b);
      } else {
        assert !Cached(bufs, t) && !Pinned(bufs, t);
      }
      assert !Cached(after, t) && !Pinned(after, t);
    } else {
      SameCell(bufs, disk, after, disk, t);
    }
  }

  lemma LoadedView(bufs: seq<Buf>, disk: seq<Sector>, after: seq<Buf>, b: int, s: int)
    requires Coherent(bufs, disk) && Loaded(bufs, disk, after, b, s)
    ensures Coherent(after, disk) && ViewOf(after, disk) == ViewOf(bufs, disk) && PinsOf(after, disk) == PinsOf(bufs, disk)
  {
    hide Cell, Pinned;
    assert Coherent(after, disk);
    hide Coherent, Loaded;
    forall t | 0 <= t < |disk| ensures Cell(after, disk, t) == Cell(bufs, disk, t) && Pinned(after, t) == Pinned(bufs, t) {
      LoadedCell(bufs, disk, after, b, s, t);
    }
  }

  /** Between operations a holder sees what a log expects: the pinned contents over the disk. */
  lemma ViewIsOver(bufs: seq<Buf>, disk: seq<Sector>)
    requires Coherent(bufs, disk) && forall b :: 0 <= b < NBUF ==> !bufs[b].busy
    ensures ViewOf(bufs, disk) == Over(disk, PinsOf(bufs, disk))
  {
    forall s | 0 <= s < |disk| ensures Cell(bufs, disk, s) == if Pinned(bufs, s) then Cell(bufs, disk, s) else disk[s] {
      if Cached(bufs, s) {
        var b :| 0 <= b < |bufs| && bufs[b].Holds(s) && bufs[b].valid;
        CellIs(bufs, disk, b);
      }
    }
  }

  /** What bget comes back with: a buffer, or the caller has to wait for a busy one, or there is none to be had. */
  datatype Got = Buffer(b: int) | Wait | Panic

  class Bcache {
    const buf: array<Buf>
    const prev: array<int>
    const next: array<int>
    var disk: seq<Sector>
    /** The buffers on the ring, the most recently released first. */
    ghost var order: seq<int>

    ghost predicate Shape()
      reads this
    {
      buf.Length == NBUF && prev.Length == NBUF + 1 && next.Length == NBUF + 1 && prev != next
    }

    ghost function L(): Links
      reads prev, next
    {
      Links(prev[..], next[..])
    }

    ghost predicate Valid()
      reads this, buf, prev, next
    {
      Shape() && Ring(L(), order) && |order| == NBUF && Coherent(buf[..], disk)
    }

    constructor (disk: seq<Sector>, blank: Sector)
      ensures Up() && fresh(buf) && fresh(prev) && fresh(next) && this.disk == disk
      ensures forall b :: 0 <= b < NBUF ==> buf[b].dev == NO_DEV && !buf[b].busy && !buf[b].dirty
    {
      this.disk := disk;
      buf := new Buf[NBUF](i => Buf(false, false, false, 0, 0, blank));
      prev, next := new int[NBUF + 1], new int[NBUF + 1];
      order := [];
      new;
      prev[HEAD], next[HEAD] := HEAD, HEAD;
      for b := 0 to NBUF
        invariant Shape() && Ring(L(), order) && |order| == b && forall i :: 0 <= i < b ==> order[i] == b - 1 - i
        invariant forall c :: 0 <= c < NBUF ==> !buf[c].busy && !buf[c].dirty && !buf[c].valid
        invariant forall c :: 0 <= c < b ==> buf[c].dev == NO_DEV
        invariant this.disk == disk
      {
        assert b !in order;
        Insert(b);
        buf[b] := buf[b].(dev := NO_DEV);
      }
    }

    /** Puts a buffer behind the head of the ring. */
    method Insert(b: int)
      requires Shape() && Ring(L(), order) && 0 <= b < NBUF && b !in order
      modifies prev, next, this`order
      ensures Ring(L(), order) && order == [b] + old(order)
    {
      hide Ring;
      InsertKeepsRing(L(), order, b);
      ghost var l := Inserted(L(), b);
      next[b] := next[HEAD];
      prev[b] := HEAD;
      prev[next[HEAD]] := b;
      next[HEAD] := b;
      assert L() == l;
      order := [b] + order;
    }

    method Remove(b: int, ghost k: int)
      requires Shape() && Ring(L(), order) && 0 <= k < |order| && order[k] == b
      modifies prev, next, this`order
      ensures Ring(L(), order) && order == Without(old(order), k) && b !in order && 0 <= b < NBUF
    {
      RemoveKeepsRing(L(), order, k);
      hide Ring;
      ghost var l := Removed(L(), b);
      prev[next[b]] := prev[b];
      next[prev[b]] := next[b];
      assert L() == l;
      order := Without(order, k);
    }

    /** What a caller may rely on between calls. */
    ghost predicate Up()
      reads this, buf, prev, next
    {
      Valid() && forall b :: 0 <= b < NBUF && (buf[b].busy || buf[b].dev == ROOT_DEV) ==> buf[b].valid
    }

    lemma Where(b: int) returns (k: int)
      requires Valid() && 0 <= b < NBUF
      ensures 0 <= k < NBUF && |order| == NBUF && order[k] == b
    {
      k := Position(order, b);
    }

    ghost function View(): seq<Sector>
      reads this, buf
    {
      ViewOf(buf[..], disk)
    }

    ghost function Pins(): map<int, Sector>
      reads this, buf
    {
      PinsOf(buf[..], disk)
    }

    /** Looks for a sector, and for the least recently released idle buffer if it is not there. */
    method Bget(s: int) returns (g: Got)
      requires Valid() && 0 <= s < |disk|
      modifies buf
      ensures Valid() && (g.Wait? || g.Panic? ==> buf[..] == old(buf[..]))
      ensures g.Wait? ==> exists b :: 0 <= b < NBUF && buf[b].Holds(s) && buf[b].busy
      ensures g.Panic? ==> forall b :: 0 <= b < NBUF ==> !buf[b].Holds(s) && !buf[b].Idle()
      ensures g.Buffer? ==> 0 <= g.b < NBUF && buf[..] == old(buf[..])[g.b := buf[g.b]] && buf[g.b].Holds(s)
      ensures g.Buffer? ==>
                || (old(buf[g.b]).Holds(s) && !old(buf[g.b]).busy && buf[g.b] == old(buf[g.b]).(busy := true))
                || (Recycled(old(buf[..]), g.b, s) && buf[g.b] == old(buf[g.b]).(busy := true, valid := false, dev := ROOT_DEV, sector := s))
    {
      hide Ring, Coherent;
      var b := Find(s);
      if b != HEAD {
        if buf[b].busy {
          return Wait;
        }
        buf[b] := buf[b].(busy := true);
        Taken(old(buf[..]), disk, buf[..], b, s);
        return Buffer(b);
      }
      b := Victim(s);
      if b == HEAD {
        return Panic;
      }
      buf[b] := buf[b].(busy := true, valid := false, dev := ROOT_DEV, sector := s);
      Taken(old(buf[..]), disk, buf[..], b, s);
      return Buffer(b);
    }

    /** The buffer that holds a sector, or the head if there is none. */
    method Find(s: int) returns (b: int)
      requires Valid()
      ensures 0 <= b <= NBUF && if b != HEAD then buf[b].Holds(s) else forall c :: 0 <= c < NBUF ==> !buf[c].Holds(s)
    {
      hide Coherent;
      b := next[HEAD];
      ghost var i := 0;
      assert next[At(order, -1)] == At(order, 0);
      while b != HEAD
        invariant 0 <= i <= NBUF && b == At(order, i)
        invariant forall j :: 0 <= j < i ==> !buf[order[j]].Holds(s)
        decreases NBUF - i
      {
        if buf[b].Holds(s) {
          return;
        }
        assert next[At(order, i)] == At(order, i + 1);
        b, i := next[b], i + 1;
      }
      forall c | 0 <= c < NBUF ensures !buf[c].Holds(s) {
        var j := Position(order, c);
      }
    }

    /** The idle buffer that was released the longest ago, or the head if there is none. */
    method Victim(ghost s: int) returns (b: int)
      requires Valid() && forall c :: 0 <= c < NBUF ==> !buf[c].Holds(s)
      ensures 0 <= b <= NBUF && if b != HEAD then Recycled(buf[..], b, s) else forall c :: 0 <= c < NBUF ==> !buf[c].Idle()
    {
      hide Coherent;
      b := prev[HEAD];
      ghost var i := NBUF - 1;
      assert prev[At(order, NBUF)] == At(order, NBUF - 1);
      while b != HEAD
        invariant -1 <= i < NBUF && b == At(order, i)
        invariant forall j :: i < j < NBUF ==> !buf[order[j]].Idle()
        decreases i + 1
      {
        if buf[b].Idle() {
          return;
        }
        assert prev[At(order, i)] == At(order, i - 1);
        b, i := prev[b], i - 1;
      }
      forall c | 0 <= c < NBUF ensures !buf[c].Idle() {
        var j := Position(order, c);
      }
    }

    /** The disk driver: writes a dirty buffer, and reads into one that is not valid. */
    method Iderw(b: int) returns (panicked: bool)
      requires Shape() && 0 <= b < NBUF && 0 <= buf[b].sector < |disk|
      modifies buf, this`disk
      ensures var was := old(buf[b]);
              && panicked == (!was.busy || (was.valid && !was.dirty))
              && disk == (if !panicked && was.dirty then old(disk)[was.sector := was.data] else old(disk))
              && buf[..] == old(buf[..])[b := if panicked then was
                                              else if was.dirty then was.(dirty := false)
                                              else was.(data := old(disk)[was.sector], valid := true)]
    {
      if !buf[b].busy || (buf[b].valid && !buf[b].dirty) {
        return true;
      }
      if buf[b].dirty {
        disk := disk[buf[b].sector := buf[b].data];
        buf[b] := buf[b].(dirty := false);
      } else {
        buf[b] := buf[b].(data := disk[buf[b].sector], valid := true);
      }
      return false;
    }

    /** A busy buffer with the current contents of a sector; nobody else sees a difference. */
    method Bread(s: int) returns (g: Got)
      requires Up() && 0 <= s < |disk|
      modifies buf, this`disk
      ensures Up() && disk == old(disk) && View() == old(View()) && Pins() == old(Pins())
      ensures g.Buffer? ==>
                && 0 <= g.b < NBUF && buf[g.b].busy && buf[g.b].Holds(s)
                && buf[g.b].data == old(View())[s] && !old(buf[g.b]).busy && (old(buf[g.b]).Holds(s) || old(buf[g.b]).Idle())
      ensures g.Buffer? ==> forall c :: 0 <= c < NBUF && c != g.b ==> buf[c] == old(buf[c])
      ensures !g.Buffer? ==> buf[..] == old(buf[..])
      ensures g.Wait? ==> exists b :: 0 <= b < NBUF && buf[b].Holds(s) && buf[b].busy
      ensures g.Panic? ==> forall b :: 0 <= b < NBUF ==> !buf[b].Holds(s) && !buf[b].Idle()
    {
      hide Ring, Coherent, ViewOf, PinsOf;
      ghost var bufs := buf[..];
      g := Bget(s);
      if g.Buffer? {
        if !buf[g.b].valid {
          var panicked := Iderw(g.b);
          LoadedView(bufs, disk, buf[..], g.b, s);
        } else {
          Marked(bufs, disk, buf[..], g.b);
        }
        CellIs(buf[..], disk, g.b);
        ViewAt(buf[..], disk, s);
      }
    }

    /** The holder of a buffer changes it. */
    method Modify(b: int, data: Sector)
      requires Up() && 0 <= b < NBUF && buf[b].busy
      modifies buf
      ensures Up() && buf[..] == old(buf[..])[b := old(buf[b]).(data := data)]
      ensures 0 <= buf[b].sector < |disk| && View() == old(View())[buf[b].sector := data]
      ensures Pins() == if buf[b].dirty then old(Pins())[buf[b].sector := data] else old(Pins()) - {buf[b].sector}
    {
      hide Ring, ViewOf, PinsOf;
      ghost var bufs := buf[..];
      buf[b] := buf[b].(data := data);
      TouchedView(bufs, disk, buf[..], disk, b);
      TouchedPins(bufs, disk, buf[..], disk, b);
    }

    /** A log pins a buffer that its holder has changed. */
    method Pin(b: int)
      requires Up() && 0 <= b < NBUF && buf[b].busy
      modifies buf
      ensures Up() && buf[..] == old(buf[..])[b := old(buf[b]).(dirty := true)]
      ensures View() == old(View()) && Pins() == old(Pins())[buf[b].sector := buf[b].data]
    {
      hide Ring, ViewOf, PinsOf;
      ghost var bufs := buf[..];
      buf[b] := buf[b].(dirty := true);
      TouchedView(bufs, disk, buf[..], disk, b);
      TouchedPins(bufs, disk, buf[..], disk, b);
      ViewKept(bufs, disk, b);
    }

    /** Writes a buffer to the disk; it is not pinned any more. */
    method Bwrite(b: int) returns (panicked: bool)
      requires Up() && 0 <= b < NBUF
      modifies buf, this`disk
      ensures Up() && panicked == !old(buf[b]).busy
      ensures panicked ==> buf[..] == old(buf[..]) && disk == old(disk)
      ensures !panicked ==>
                && buf[..] == old(buf[..])[b := old(buf[b]).(dirty := false)] && 0 <= buf[b].sector < |old(disk)|
                && disk == old(disk)[buf[b].sector := buf[b].data]
                && View() == old(View()) && Pins() == old(Pins()) - {buf[b].sector}
    {
      hide Ring, ViewOf, PinsOf;
      if !buf[b].busy {
        return true;
      }
      ghost var bufs, d := buf[..], disk;
      ViewKept(bufs, d, b);
      buf[b] := buf[b].(dirty := true);
      panicked := Iderw(b);
      assert buf[..] == bufs[b := bufs[b].(dirty := false)];
      TouchedView(bufs, d, buf[..], disk, b);
      TouchedPins(bufs, d, buf[..], disk, b);
    }

    /**
     Releases a buffer, which becomes the first of the ring.  The cache stays coherent exactly if
     the buffer is pinned or has been written since it was changed.
     */
    method Brelse(b: int, ghost k: int) returns (panicked: bool)
      requires Up() && 0 <= b < NBUF && 0 <= k < NBUF && order[k] == b
      modifies buf, prev, next, this`order
      ensures panicked == !old(buf[b]).busy
      ensures panicked ==> Up() && buf[..] == old(buf[..]) && order == old(order)
      ensures !panicked ==> Shape() && Ring(L(), order) && order == [b] + Without(old(order), k)
      ensures !panicked ==> buf[..] == old(buf[..])[b := old(buf[b]).(busy := false)] && 0 <= buf[b].sector < |disk|
      ensures !panicked ==> (Up() <==> buf[b].dirty || buf[b].data == disk[buf[b].sector])
      ensures Up() ==> View() == old(View()) && Pins() == old(Pins())
    {
      hide Ring, ViewOf, PinsOf;
      if !buf[b].busy {
        return true;
      }
      ghost var bufs := buf[..];
      Remove(b, k);
      Insert(b);
      buf[b] := buf[b].(busy := false);
      ViewKept(bufs, disk, b);
      if buf[b].dirty || buf[b].data == disk[buf[b].sector] {
        TouchedView(bufs, disk, buf[..], disk, b);
        TouchedPins(bufs, disk, buf[..], disk, b);
      }
      return false;
    }

    /** Buffer b is the idle one that was released the longest ago, and nothing holds sector s. */
    ghost predicate Recycled(bufs: seq<Buf>, b: int, s: int)
      requires |bufs| == NBUF && 0 <= b < NBUF && Distinct(order, NBUF)
      reads this
    {
      && (forall c :: 0 <= c < NBUF ==> !bufs[c].Holds(s))
      && bufs[b].Idle()
      && forall i, j :: 0 <= i < j < |order| && order[i] == b ==> !bufs[order[j]].Idle()
    }
  }

  /** All buffers are on the ring. */
  lemma Position(order: seq<int>, b: int) returns (i: int)
    requires Distinct(order, NBUF) && |order| == NBUF && 0 <= b < NBUF
    ensures 0 <= i < |order| && order[i] == b
  {
    hide Range;
    if b !in order {
      Pigeonhole(order, Range(NBUF) - {b});
      assert false;
    }
    i :| 0 <= i < |order| && order[i] == b;
  }

  /** As long as fewer buffers are held or pinned than there are, one is idle and bget cannot panic. */
  lemma SomeIdle(bufs: seq<Buf>, held: set<int>, pinned: set<int>) returns (b: int)
    requires |bufs| == NBUF && |held| + |pinned| < NBUF
    requires forall c :: 0 <= c < NBUF ==> (bufs[c].busy ==> c in held) && (bufs[c].dirty ==> c in pinned)
    ensures 0 <= b < NBUF && bufs[b].Idle()
  {
    if forall c :: 0 <= c < NBUF ==> !bufs[c].Idle() {
      Pigeonhole(seq(NBUF, i => i), held + pinned);
      assert false;
    }
    b :| 0 <= b < NBUF && bufs[b].Idle();
  }

  ghost function Range(n: nat): (r: set<int>)
    ensures |r| == n && forall b :: b in r <==> 0 <= b < n
  {
    if n == 0 then {} else Range(n - 1) + {n - 1}
  }

  /** Distinct elements of a set are no more than the set has. */
  lemma {:induction false} Pigeonhole(xs: seq<int>, pool: set<int>)
    requires forall i :: 0 <= i < |xs| ==> xs[i] in pool
    requires forall i, j :: 0 <= i < j < |xs| ==> xs[i] != xs[j]
    ensures |xs| <= |pool|
  {
    if xs != [] {
      Pigeonhole(xs[1..], pool - {xs[0]});
    }
  }
}
