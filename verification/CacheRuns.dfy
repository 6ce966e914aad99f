/**
 Runs of the buffer cache: whatever its callers read, change, pin, write and release, they see
 their own changes and nothing else, although buffers come and go.
 */
module CacheRuns {
  import opened Geometry
  import opened Transactions
  import opened BufferCache

  // The specification, which knows buffers by their numbers only

  /** What the holders of sectors see, what the disk has, what is pinned, and which buffers are held for which sectors. */
  datatype Memo = Memo(view: seq<Sector>, disk: seq<Sector>, pins: map<int, Sector>, owner: map<int, int>) {
    ghost function Held(): set<int> { Sectors(owner) }

    /** Buffer b is held for sector s. */
    ghost predicate Owns(b: int, s: int) { b in owner && owner[b] == s && 0 <= s < |view| && 0 <= s < |disk| }
  }

  ghost function Sectors(owner: map<int, int>): set<int> {
    set b | b in owner :: owner[b]
  }

  datatype Access =
    | Got(s: int, b: int, data: Sector)
    | Waits(s: int)
    | NoBuffers(s: int)
    | Changed(b: int, s: int, data: Sector)
    | Pinned(b: int, s: int)
    | Written(b: int, s: int)
    | Released(b: int, s: int)
    | Refused(b: int)
    | Dropped(b: int, s: int)

  /** A held sector that has been changed and is neither pinned nor written: releasing it may lose the change. */
  ghost predicate Loose(p: Memo, s: int) {
    s in p.Held() && 0 <= s < |p.view| && 0 <= s < |p.disk| && s !in p.pins && p.view[s] != p.disk[s]
  }

  /** There is no buffer for sector s: all are held or pinned, and none of them has the sector. */
  ghost predicate Crowded(p: Memo, s: int) {
    s !in p.Held() && s !in p.pins && |p.Held() + p.pins.Keys| >= NBUF
  }

  ghost predicate Allowed(p: Memo, e: Access, q: Memo) {
    match e
    case Got(s, b, data) =>
      && s !in p.Held() && b !in p.owner && !Crowded(p, s) && 0 <= s < |p.view| && data == p.view[s]
      && q == p.(owner := p.owner[b := s])
    case Waits(s) => s in p.Held() && q == p
    case NoBuffers(s) => Crowded(p, s) && q == p
    case Changed(b, s, data) =>
      p.Owns(b, s) && q == p.(view := p.view[s := data], pins := if s in p.pins then p.pins[s := data] else p.pins)
    case Pinned(b, s) => p.Owns(b, s) && q == p.(pins := p.pins[s := p.view[s]])
    case Written(b, s) => p.Owns(b, s) && q == p.(disk := p.disk[s := p.view[s]], pins := p.pins - {s})
    case Released(b, s) => p.Owns(b, s) && !Loose(p, s) && q == p.(owner := p.owner - {b})
    case Refused(b) => b !in p.owner && q == p
    case Dropped(_, _) => false
  }

  ghost predicate IsCacheRun(memos: seq<Memo>, events: seq<Access>) {
    && |memos| == |events| + 1
    && forall i :: 0 <= i < |events| ==> Allowed(memos[i], events[i], memos[i + 1])
  }

  /** The contents that a sector was given last. */
  ghost function LastChange(events: seq<Access>, s: int, first: Sector): Sector {
    if events == [] then first
    else
      var e := events[|events| - 1];
      if e.Changed? && e.s == s then e.data else LastChange(events[..|events| - 1], s, first)
  }

  /** The contents that a sector had when it was written last. */
  ghost function LastWrite(events: seq<Access>, s: int, first: Sector, disk: Sector): Sector {
    if events == [] then disk
    else
      var k := |events| - 1;
      if events[k].Written? && events[k].s == s then LastChange(events[..k], s, first) else LastWrite(events[..k], s, first, disk)
  }

  /** The cache is transparent: a sector is what it was given last, and on the disk what was written last. */
  lemma {:induction false} Transparent(memos: seq<Memo>, events: seq<Access>, s: int)
    requires IsCacheRun(memos, events) && 0 <= s < |memos[0].view| == |memos[0].disk|
    ensures var q := memos[|events|]; |q.view| == |q.disk| == |memos[0].view|
    ensures memos[|events|].view[s] == LastChange(events, s, memos[0].view[s])
    ensures memos[|events|].disk[s] == LastWrite(events, s, memos[0].view[s], memos[0].disk[s])
  {
    if events != [] {
      var k := |events| - 1;
      Transparent(memos[..k + 1], events[..k], s);
      assert Allowed(memos[k], events[k], memos[k + 1]);
    }
  }

  /** What the pins and the disk have of the sectors that nobody holds. */
  ghost predicate Sound(p: Memo) {
    && |p.view| == |p.disk|
    && (forall s :: s in p.pins ==> 0 <= s < |p.view| && p.pins[s] == p.view[s])
    && (forall s :: 0 <= s < |p.view| && s !in p.Held() && s !in p.pins ==> p.view[s] == p.disk[s])
  }

  /** At every point of a run the pinned contents over the disk are what a new holder sees. */
  lemma {:induction false} StaysSound(memos: seq<Memo>, events: seq<Access>, n: nat)
    requires IsCacheRun(memos, events) && n < |memos| && Sound(memos[0])
    ensures Sound(memos[n])
    ensures memos[n].owner == map[] ==> memos[n].view == Over(memos[n].disk, memos[n].pins)
  {
    if n > 0 {
      StaysSound(memos, events, n - 1);
      assert Allowed(memos[n - 1], events[n - 1], memos[n]);
      SoundNext(memos[n - 1], events[n - 1], memos[n]);
    }
  }

  /** Taking a buffer adds its sector to the held ones, and releasing one takes away no other sector. */
  lemma Taken(owner: map<int, int>, b: int, s: int)
    requires b !in owner
    ensures Sectors(owner[b := s]) == Sectors(owner) + {s}
  {
    var after := owner[b := s];
    assert after[b] == s;
    forall h | h in Sectors(owner) ensures h in Sectors(after) {
      var c :| c in owner && owner[c] == h;
      assert after[c] == h;
    }
  }

  lemma GivenBack(owner: map<int, int>, b: int)
    requires b in owner
    ensures Sectors(owner) - {owner[b]} <= Sectors(owner - {b}) <= Sectors(owner)
  {
    var after := owner - {b};
    forall h | h in Sectors(owner) && h != owner[b] ensures h in Sectors(after) {
      var c :| c in owner && owner[c] == h;
      assert after[c] == h;
    }
  }

  lemma SoundNext(p: Memo, e: Access, q: Memo)
    requires Sound(p) && Allowed(p, e, q)
    ensures Sound(q)
  {
    hide Crowded;
    if e.Got? {
      Taken(p.owner, e.b, e.s);
    } else if e.Released? {
      GivenBack(p.owner, e.b);
    } else {
      assert q.owner == p.owner;
    }
  }

  // The buffers follow the specification

  ghost function HeldOf(bufs: seq<Buf>): set<int> {
    set b | 0 <= b < |bufs| && bufs[b].busy :: bufs[b].sector
  }

  ghost function OwnerOf(bufs: seq<Buf>): map<int, int> {
    map b | 0 <= b < |bufs| && bufs[b].busy :: bufs[b].sector
  }

  lemma HeldIs(bufs: seq<Buf>)
    ensures Sectors(OwnerOf(bufs)) == HeldOf(bufs)
  {
    forall s | s in HeldOf(bufs) ensures s in Sectors(OwnerOf(bufs)) {
      var b :| 0 <= b < |bufs| && bufs[b].busy && bufs[b].sector == s;
      assert OwnerOf(bufs)[b] == s;
    }
  }

  ghost function MemoOf(c: Bcache): Memo
    reads c, c.buf
  {
    Memo(c.View(), c.disk, c.Pins(), OwnerOf(c.buf[..]))
  }

  /** If no buffer is idle, as many sectors are held or pinned as there are buffers. */
  lemma NoneIdle(bufs: seq<Buf>, disk: seq<Sector>)
    requires Coherent(bufs, disk) && forall c :: 0 <= c < NBUF && bufs[c].busy ==> bufs[c].valid
    requires forall c :: 0 <= c < NBUF ==> !bufs[c].Idle()
    ensures |HeldOf(bufs) + PinsOf(bufs, disk).Keys| >= NBUF
  {
    hide Cell;
    var sectors := seq(NBUF, c requires 0 <= c < NBUF => bufs[c].sector);
    forall c | 0 <= c < NBUF ensures bufs[c].sector in HeldOf(bufs) + PinsOf(bufs, disk).Keys {
      if bufs[c].dirty {
        assert bufs[c].Holds(bufs[c].sector);
      }
    }
    Pigeonhole(sectors, HeldOf(bufs) + PinsOf(bufs, disk).Keys);
  }

  /** A set of members of a list has no more of them than the list. */
  lemma {:induction false} Fewer(a: set<int>, xs: seq<int>)
    requires forall x :: x in a ==> x in xs
    ensures |a| <= |xs|
  {
    if xs == [] {
      forall x ensures x !in a {
        assert x in a ==> x in xs;
      }
    } else {
      var b := a - {xs[0]};
      forall x | x in b ensures x in xs[1..] {
        assert x in xs;
      }
      Fewer(b, xs[1..]);
      assert a <= b + {xs[0]};
      assert a == if xs[0] in a then b + {xs[0]} else b;
    }
  }

  /** The sectors of all buffers but one. */
  ghost function Others(bufs: seq<Buf>, b: int): (r: seq<int>)
    requires 0 <= b < |bufs|
    ensures |r| == |bufs| - 1 && forall c :: 0 <= c < |bufs| && c != b ==> bufs[c].sector in r
  {
    var r := seq(|bufs| - 1, i requires 0 <= i < |bufs| - 1 => bufs[if i < b then i else i + 1].sector);
    assert forall c :: 0 <= c < |bufs| && c != b ==> bufs[c].sector == r[if c < b then c else c - 1];
    r
  }

  /** If a buffer is idle, fewer sectors are held or pinned than there are buffers. */
  lemma SomeIdleHere(bufs: seq<Buf>, disk: seq<Sector>, b: int)
    requires |bufs| == NBUF && 0 <= b < NBUF && bufs[b].Idle()
    ensures |HeldOf(bufs) + PinsOf(bufs, disk).Keys| < NBUF
  {
    hide Cell;
    var taken := HeldOf(bufs) + PinsOf(bufs, disk).Keys;
    forall s | s in taken ensures s in Others(bufs, b) {
      if s in PinsOf(bufs, disk).Keys {
        assert BufferCache.Pinned(bufs, s);
        var c :| 0 <= c < NBUF && bufs[c].Holds(s) && bufs[c].dirty;
        assert bufs[c].sector in Others(bufs, b);
      } else {
        var c :| 0 <= c < |bufs| && bufs[c].busy && bufs[c].sector == s;
        assert bufs[c].sector in Others(bufs, b);
      }
    }
    Fewer(taken, Others(bufs, b));
  }

  datatype Request =
    | Get(s: int)
    | Change(b: int, data: Sector)
    | Keep(b: int)
    | Store(b: int)
    | Release(b: int)

  ghost predicate Proper(r: Request, size: nat) {
    match r
    case Get(s) => 0 <= s < size
    case Change(b, _) => 0 <= b < NBUF
    case Keep(b) => 0 <= b < NBUF
    case Store(b) => 0 <= b < NBUF
    case Release(b) => 0 <= b < NBUF
  }

  /** The event answers the request: it is about the same sector or buffer, and does what was asked, or says why not. */
  predicate Asked(r: Request, e: Access) {
    match r
    case Get(s) => (e.Got? || e.Waits? || e.NoBuffers?) && e.s == s
    case Change(b, data) => (e.Changed? && e.b == b && e.data == data) || e == Refused(b)
    case Keep(b) => (e.Pinned? && e.b == b) || e == Refused(b)
    case Store(b) => (e.Written? && e.b == b) || e == Refused(b)
    case Release(b) => ((e.Released? || e.Dropped?) && e.b == b) || e == Refused(b)
  }

  /** Only the buffer that holds a sector can be busy with it. */
  lemma HeldBy(bufs: seq<Buf>, disk: seq<Sector>, s: int)
    requires Coherent(bufs, disk) && forall c :: 0 <= c < NBUF && bufs[c].busy ==> bufs[c].valid
    ensures s in HeldOf(bufs) <==> exists c :: 0 <= c < NBUF && bufs[c].Holds(s) && bufs[c].busy
  {
    if c :| 0 <= c < NBUF && bufs[c].Holds(s) && bufs[c].busy {
      assert bufs[c].sector in HeldOf(bufs);
    }
  }

  lemma NotPinned(bufs: seq<Buf>, disk: seq<Sector>, s: int)
    requires |bufs| == NBUF && forall c :: 0 <= c < NBUF ==> !bufs[c].Holds(s)
    ensures s !in PinsOf(bufs, disk)
  {
  }

  /** The buffer that was taken for a sector was its own, or idle. */
  lemma HadRoom(bufs: seq<Buf>, disk: seq<Sector>, b: int, s: int)
    requires |bufs| == NBUF && 0 <= b < NBUF && 0 <= s < |disk| && (bufs[b].Holds(s) || bufs[b].Idle()) && !bufs[b].busy
    ensures s in PinsOf(bufs, disk) || |HeldOf(bufs) + PinsOf(bufs, disk).Keys| < NBUF
  {
    if bufs[b].Idle() {
      SomeIdleHere(bufs, disk, b);
    } else {
      assert BufferCache.Pinned(bufs, s);
    }
  }

  method Fetch(c: Bcache, s: int) returns (e: Access)
    requires c.Up() && 0 <= s < |c.disk|
    modifies c.buf, c`disk
    ensures c.Up() && Allowed(old(MemoOf(c)), e, MemoOf(c)) && Asked(Get(s), e)
  {
    hide Ring, Coherent, ViewOf, PinsOf, HeldOf;
    ghost var bufs := c.buf[..];
    HeldBy(bufs, c.disk, s);
    HeldIs(bufs);
    var g := c.Bread(s);
    if g.Buffer? {
      OneHolder(bufs, c.buf[..], c.disk, g.b, s);
      HadRoom(bufs, c.disk, g.b, s);
      assert OwnerOf(c.buf[..]) == OwnerOf(bufs)[g.b := s];
      return Got(s, g.b, c.buf[g.b].data);
    } else if g.Wait? {
      return Waits(s);
    } else {
      NoneIdle(c.buf[..], c.disk);
      NotPinned(c.buf[..], c.disk, s);
      return NoBuffers(s);
    }
  }

  /** A buffer that has been taken for a sector was taken from nobody. */
  lemma OneHolder(bufs: seq<Buf>, after: seq<Buf>, disk: seq<Sector>, b: int, s: int)
    requires |bufs| == NBUF && Coherent(after, disk) && 0 <= b < NBUF && after[b].Holds(s) && !bufs[b].busy
    requires forall c :: 0 <= c < NBUF && c != b ==> after[c] == bufs[c]
    ensures forall c :: 0 <= c < NBUF && bufs[c].busy ==> !bufs[c].Holds(s)
  {
  }

  method ChangeBuf(c: Bcache, b: int, data: Sector) returns (e: Access)
    requires c.Up() && 0 <= b < NBUF && c.buf[b].busy
    modifies c.buf
    ensures c.Up() && e == Changed(b, c.buf[b].sector, data) && Allowed(old(MemoOf(c)), e, MemoOf(c))
  {
    hide Ring, Coherent, ViewOf, PinsOf;
    ghost var bufs := c.buf[..];
    PinnedIs(bufs, c.disk, b);
    c.Modify(b, data);
    assert OwnerOf(c.buf[..]) == OwnerOf(bufs);
    e := Changed(b, c.buf[b].sector, data);
  }

  method PinBuf(c: Bcache, b: int) returns (e: Access)
    requires c.Up() && 0 <= b < NBUF && c.buf[b].busy
    modifies c.buf
    ensures c.Up() && e == Pinned(b, c.buf[b].sector) && Allowed(old(MemoOf(c)), e, MemoOf(c))
  {
    hide Ring, Coherent, ViewOf, PinsOf;
    ghost var bufs := c.buf[..];
    PinnedIs(bufs, c.disk, b);
    c.Pin(b);
    assert OwnerOf(c.buf[..]) == OwnerOf(bufs);
    e := Pinned(b, c.buf[b].sector);
  }

  method WriteBuf(c: Bcache, b: int) returns (e: Access)
    requires c.Up() && 0 <= b < NBUF && c.buf[b].busy
    modifies c.buf, c`disk
    ensures c.Up() && e == Written(b, c.buf[b].sector) && Allowed(old(MemoOf(c)), e, MemoOf(c))
  {
    hide Ring, Coherent, ViewOf, PinsOf;
    ghost var bufs := c.buf[..];
    PinnedIs(bufs, c.disk, b);
    var panicked := c.Bwrite(b);
    assert OwnerOf(c.buf[..]) == OwnerOf(bufs);
    e := Written(b, c.buf[b].sector);
  }

  /** Releasing a changed buffer that is neither pinned nor written drops it from the specification. */
  method ReleaseBuf(c: Bcache, b: int) returns (e: Access)
    requires c.Up() && 0 <= b < NBUF && c.buf[b].busy
    modifies c.buf, c.prev, c.next, c`order
    ensures e == (if Loose(old(MemoOf(c)), c.buf[b].sector) then Dropped(b, c.buf[b].sector) else Released(b, c.buf[b].sector))
    ensures old(MemoOf(c)).Owns(b, c.buf[b].sector)
    ensures e.Released? ==> c.Up() && Allowed(old(MemoOf(c)), e, MemoOf(c))
  {
    hide Ring, Coherent, ViewOf, PinsOf;
    ghost var bufs := c.buf[..];
    PinnedIs(bufs, c.disk, b);
    assert OwnerOf(bufs)[b] == bufs[b].sector;
    ghost var k := c.Where(b);
    var panicked := c.Brelse(b, k);
    assert OwnerOf(c.buf[..]) == OwnerOf(bufs) - {b};
    var s := c.buf[b].sector;
    e := if c.buf[b].dirty || c.buf[b].data == c.disk[s] then Released(b, s) else Dropped(b, s);
  }

  /** The cache follows the specification and answers what it is asked, until a change is dropped. */
  method Serve(c: Bcache, r: Request) returns (e: Access)
    requires c.Up() && Proper(r, |c.disk|)
    modifies c, c.buf, c.prev, c.next
    ensures Asked(r, e)
    ensures if e.Dropped? then old(MemoOf(c)).Owns(e.b, e.s) && Loose(old(MemoOf(c)), e.s)
            else c.Up() && Allowed(old(MemoOf(c)), e, MemoOf(c))
  {
    hide Ring, Coherent, MemoOf, Allowed, Loose, Memo.Owns;
    if r.Get? {
      e := Fetch(c, r.s);
      return;
    }
    if !c.buf[r.b].busy {
      NotHeld(c, r.b);
      return Refused(r.b);
    }
    match r {
      case Change(b, data) => e := ChangeBuf(c, b, data);
      case Keep(b) => e := PinBuf(c, b);
      case Store(b) => e := WriteBuf(c, b);
      case Release(b) => e := ReleaseBuf(c, b);
    }
  }

  lemma NotHeld(c: Bcache, b: int)
    requires 0 <= b < c.buf.Length && !c.buf[b].busy
    ensures Allowed(MemoOf(c), Refused(b), MemoOf(c))
  {
    hide ViewOf, PinsOf;
  }

  lemma SameSize(p: Memo, e: Access, q: Memo)
    requires Allowed(p, e, q)
    ensures |q.disk| == |p.disk|
  {
  }

  /** The request releases a buffer whose change would be lost. */
  ghost predicate Drops(p: Memo, r: Request) {
    r.Release? && r.b in p.owner && Loose(p, p.owner[r.b])
  }

  /** All requests are answered, until a change is dropped. */
  ghost predicate Ends(memos: seq<Memo>, events: seq<Access>, requests: seq<Request>, dropped: bool) {
    && IsCacheRun(memos, events) && |events| <= |requests|
    && (forall i :: 0 <= i < |events| ==> Asked(requests[i], events[i]))
    && if dropped then |events| < |requests| && Drops(memos[|events|], requests[|events|]) else |events| == |requests|
  }

  /** Every sequence of requests gives a run of the specification, whatever is on the disk. */
  method CacheLife(disk: seq<Sector>, blank: Sector, requests: seq<Request>)
    returns (c: Bcache, events: seq<Access>, dropped: bool, ghost memos: seq<Memo>)
    requires forall i :: 0 <= i < |requests| ==> Proper(requests[i], |disk|)
    ensures Ends(memos, events, requests, dropped) && (!dropped ==> memos[|events|] == MemoOf(c))
    ensures memos[0] == Memo(disk, disk, map[], map[]) && Sound(memos[0])
  {
    hide Ring, Coherent, ViewOf, PinsOf, OwnerOf, Allowed, Loose;
    c := new Bcache(disk, blank);
    Fresh(c);
    events, dropped, memos := [], false, [MemoOf(c)];
    for i := 0 to |requests|
      invariant fresh(c) && fresh(c.buf) && fresh(c.prev) && fresh(c.next) && c.Up() && |c.disk| == |disk|
      invariant Ends(memos, events, requests[..i], false) && memos[i] == MemoOf(c) && memos[0] == Memo(disk, disk, map[], map[])
    {
      var e := Serve(c, requests[i]);
      if e.Dropped? {
        dropped := true;
        return;
      }
      SameSize(memos[i], e, MemoOf(c));
      events, memos := events + [e], memos + [MemoOf(c)];
    }
  }

  /** An empty cache is not noticed. */
  lemma Fresh(c: Bcache)
    requires c.Up() && forall b :: 0 <= b < NBUF ==> c.buf[b].dev == NO_DEV && !c.buf[b].busy && !c.buf[b].dirty
    ensures MemoOf(c) == Memo(c.disk, c.disk, map[], map[])
  {
    hide Ring;
    forall s | 0 <= s < |c.disk| ensures Cell(c.buf[..], c.disk, s) == c.disk[s] && !BufferCache.Pinned(c.buf[..], s) {
      assert forall b :: 0 <= b < NBUF ==> !c.buf[b].Holds(s);
    }
  }
}
