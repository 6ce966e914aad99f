/**
 The flash device: a matrix of pages, each erased or programmed, and a matrix of flags
 that say which pages are known to survive a crash.  Only an operation that reaches the
 device (a synchronous program or erase, or a sync) can crash, and it crashes before it
 has any effect; every page that is not synced then holds arbitrary data, and may change
 again in the next crash.
 */
module FlashDevice {
  import opened Geometry

  /** How an operation ends.  A crash ends every caller as well, as a thread exit does. */
  datatype Outcome = Done | Crashed {
    predicate IsFailure() { Crashed? }
    function PropagateFailure(): Outcome requires IsFailure() { this }
  }

  datatype Cell = Erased | Programmed(data: Page)

  type Image = seq<seq<Cell>>
  type Flags = seq<seq<bool>>

  predicate Shaped<T>(m: seq<seq<T>>) {
    && |m| == NUM_BLOCKS
    && forall b :: 0 <= b < NUM_BLOCKS ==> |m[b]| == PAGES_PER_BLOCK
  }

  /** What reading a cell returns: an erased one reads as all ones. */
  function Contents(c: Cell): Page {
    if c.Erased? then seq(ENTRIES_PER_PAGE, _ => ONES) else c.data
  }

  /** One entry of a matrix replaced, and a whole block of it replaced. */
  function Put<T>(m: seq<seq<T>>, b: int, p: int, x: T): (r: seq<seq<T>>)
    requires Shaped(m) && 0 <= b < NUM_BLOCKS && 0 <= p < PAGES_PER_BLOCK
    ensures Shaped(r)
  {
    m[b := m[b][p := x]]
  }

  function Uniform<T>(x: T): seq<T> {
    seq(PAGES_PER_BLOCK, _ => x)
  }

  /** after is a flash image that a crash in state (before, synced) may leave. */
  ghost predicate CrashImage(before: Image, synced: Flags, after: Image)
    requires Shaped(before) && Shaped(synced)
  {
    && Shaped(after)
    && forall b, p :: 0 <= b < NUM_BLOCKS && 0 <= p < PAGES_PER_BLOCK && synced[b][p] ==> after[b][p] == before[b][p]
  }

  /** Pages of a block go in ascending order, onto erased pages only. */
  ghost predicate InOrder(c: Image, b: int, p: int)
    requires Shaped(c) && 0 <= b < NUM_BLOCKS && 0 <= p < PAGES_PER_BLOCK
  {
    forall q :: p <= q < PAGES_PER_BLOCK ==> c[b][q].Erased?
  }

  ghost predicate AllSynced(s: Flags)
    requires Shaped(s)
  {
    forall b, p :: 0 <= b < NUM_BLOCKS && 0 <= p < PAGES_PER_BLOCK ==> s[b][p]
  }

  /**
   A crash before unsynchronised work is one of the crashes after it, so letting only
   synchronous operations crash loses no behaviour.
   */
  lemma UnsyncedWorkWidens(c: Image, s: Flags, b: int, p: int, x: Cell, after: Image)
    requires Shaped(c) && Shaped(s)
    requires 0 <= b < NUM_BLOCKS && 0 <= p < PAGES_PER_BLOCK
    requires CrashImage(c, s, after)
    ensures CrashImage(Put(c, b, p, x), Put(s, b, p, false), after)
  {
  }

  class Flash {
    /** Whether the device may lose power in the middle of an operation. */
    const crashSim: bool
    const flash: array2<Cell>
    const flags: array2<bool>
    ghost var cells: Image
    ghost var synced: Flags
    /** No page has ever been programmed out of order or twice without an erase. */
    ghost var disciplined: bool

    ghost predicate Valid()
      reads this, flash, flags
    {
      && flash.Length0 == NUM_BLOCKS && flash.Length1 == PAGES_PER_BLOCK
      && flags.Length0 == NUM_BLOCKS && flags.Length1 == PAGES_PER_BLOCK
      && Shaped(cells) && Shaped(synced)
      && (forall b, p :: 0 <= b < NUM_BLOCKS && 0 <= p < PAGES_PER_BLOCK ==> flash[b, p] == cells[b][p])
      && (forall b, p :: 0 <= b < NUM_BLOCKS && 0 <= p < PAGES_PER_BLOCK ==> flags[b, p] == synced[b][p])
    }

    constructor (crashSim: bool)
      ensures Valid() && fresh(flash) && fresh(flags) && this.crashSim == crashSim
      ensures disciplined
    {
      this.crashSim := crashSim;
      flash := new Cell[NUM_BLOCKS, PAGES_PER_BLOCK]((b, p) => Erased);
      flags := new bool[NUM_BLOCKS, PAGES_PER_BLOCK]((b, p) => false);
      cells := seq(NUM_BLOCKS, _ => Uniform(Erased));
      synced := seq(NUM_BLOCKS, _ => Uniform(false));
      disciplined := true;
    }

    lemma Facts()
      requires Valid()
      ensures Shaped(cells) && Shaped(synced)
    {
    }

    /** Power is lost: whatever was not synced is replaced by anything at all. */
    method Crash()
      requires Valid()
      modifies this`cells, flash
      ensures Valid()
      ensures CrashImage(old(cells), synced, cells)
    {
      for b := 0 to NUM_BLOCKS
        invariant Valid()
        invariant CrashImage(old(cells), synced, cells)
      {
        for p := 0 to PAGES_PER_BLOCK
          invariant Valid()
          invariant CrashImage(old(cells), synced, cells)
        {
          if !flags[b, p] {
            var junk: Cell := *;
            flash[b, p] := junk;
            cells := Put(cells, b, p, junk);
          }
        }
      }
    }

    function Read(b: int, p: int): (data: Page)
      requires Valid()
      requires 0 <= b < NUM_BLOCKS && 0 <= p < PAGES_PER_BLOCK
      reads this, flash, flags
      ensures data == Contents(cells[b][p])
    {
      Contents(flash[b, p])
    }

    /** Reads n blocks, page after page, into data. */
    method ReadBulk(b: int, n: int, data: array<Word>)
      requires Valid()
      requires 0 <= b <= b + n <= NUM_BLOCKS && data.Length == n * ENTRIES_PER_BLOCK
      modifies data
      ensures forall x :: 0 <= x < data.Length ==> 0 <= EntryBlock(x) < n && data[x] == Entry(b, x)
    {
      hide EntryBlock, EntryPage, EntryWord, Contents;
      var x := 0;
      while x < data.Length
        invariant 0 <= x <= data.Length
        invariant forall y :: 0 <= y < x ==> 0 <= EntryBlock(y) < n && data[y] == Entry(b, y)
      {
        EntrySplit(x);
        data[x] := Contents(flash[b + EntryBlock(x), EntryPage(x)])[EntryWord(x)];
        x := x + 1;
      }
    }

    /** Entry x of the blocks that start at block b. */
    ghost function Entry(b: int, x: int): Word
      requires Valid() && 0 <= x && 0 <= b <= b + EntryBlock(x) < NUM_BLOCKS
      reads this, flash, flags
    {
      EntrySplit(x);
      Contents(cells[b + EntryBlock(x)][EntryPage(x)])[EntryWord(x)]
    }

    method Program(b: int, p: int, data: array<Word>, sync: bool) returns (o: Outcome)
      requires Valid()
      requires 0 <= b < NUM_BLOCKS && 0 <= p < PAGES_PER_BLOCK && data.Length == ENTRIES_PER_PAGE
      modifies this, flash, flags
      ensures Valid()
      ensures o.Crashed? ==>
                && crashSim && sync
                && CrashImage(old(cells), old(synced), cells) && synced == old(synced)
                && disciplined == old(disciplined)
      ensures o.Done? ==>
                && cells == Put(old(cells), b, p, Programmed(data[..]))
                && synced == Put(old(synced), b, p, sync)
                && disciplined == (old(disciplined) && InOrder(old(cells), b, p))
    {
      var crash: bool := *;
      if crashSim && sync && crash {
        Crash();
        return Crashed;
      }
      disciplined := disciplined && InOrder(cells, b, p);
      flash[b, p] := Programmed(data[..]);
      flags[b, p] := sync;
      cells := Put(cells, b, p, Programmed(data[..]));
      synced := Put(synced, b, p, sync);
      return Done;
    }

    /** Programs n blocks, page after page, from data; nothing of it is synced. */
    method ProgramBulk(b: int, n: int, data: array<Word>)
      requires Valid()
      requires 0 <= b <= b + n <= NUM_BLOCKS && data.Length == n * ENTRIES_PER_BLOCK
      modifies this, flash, flags
      ensures Valid()
      ensures forall i :: 0 <= i < NUM_BLOCKS && !(b <= i < b + n) ==> cells[i] == old(cells)[i] && synced[i] == old(synced)[i]
      ensures forall i, p :: b <= i < b + n && 0 <= p < PAGES_PER_BLOCK ==>
                && !synced[i][p]
                && cells[i][p] == Programmed(Slice(data[..], i - b, p))
      ensures disciplined == (old(disciplined) && forall i :: b <= i < b + n ==> InOrder(old(cells), i, 0))
    {
      ghost var c0, d0 := cells, disciplined;
      var i := b;
      while i < b + n
        invariant b <= i <= b + n && Valid()
        invariant forall j :: 0 <= j < NUM_BLOCKS && !(b <= j < i) ==> cells[j] == c0[j] && synced[j] == old(synced)[j]
        invariant forall j, p :: b <= j < i && 0 <= p < PAGES_PER_BLOCK ==>
                    && !synced[j][p]
                    && cells[j][p] == Programmed(Slice(data[..], j - b, p))
        invariant disciplined == (d0 && forall j :: b <= j < i ==> InOrder(c0, j, 0))
      {
        assert InOrder(cells, i, 0) == InOrder(c0, i, 0) by { assert cells[i] == c0[i]; }
        ProgramBlock(i, i - b, data);
        i := i + 1;
      }
    }

    /** Where page p of the k-th block starts in a bulk buffer. */
    static function At(k: int, p: int): int { k * ENTRIES_PER_BLOCK + p * ENTRIES_PER_PAGE }

    /** Page p of the k-th block of a bulk buffer. */
    static function Slice(data: seq<Word>, k: int, p: int): Page
      requires 0 <= k && (k + 1) * ENTRIES_PER_BLOCK <= |data| && 0 <= p < PAGES_PER_BLOCK
    {
      data[At(k, p) .. At(k, p) + ENTRIES_PER_PAGE]
    }

    method ProgramBlock(b: int, k: int, data: array<Word>)
      requires Valid()
      requires 0 <= b < NUM_BLOCKS && 0 <= k && (k + 1) * ENTRIES_PER_BLOCK <= data.Length
      modifies this, flash, flags
      ensures Valid()
      ensures forall i :: 0 <= i < NUM_BLOCKS && i != b ==> cells[i] == old(cells)[i] && synced[i] == old(synced)[i]
      ensures forall p :: 0 <= p < PAGES_PER_BLOCK ==> !synced[b][p] && cells[b][p] == Programmed(Slice(data[..], k, p))
      ensures disciplined == (old(disciplined) && InOrder(old(cells), b, 0))
    {
      ghost var d := data[..];
      ghost var block := seq(PAGES_PER_BLOCK, p requires 0 <= p < PAGES_PER_BLOCK => Programmed(Slice(d, k, p)));
      for p := 0 to PAGES_PER_BLOCK
        invariant cells == old(cells) && synced == old(synced) && disciplined == old(disciplined)
        invariant forall i, q :: 0 <= i < NUM_BLOCKS && 0 <= q < PAGES_PER_BLOCK ==>
                    && flash[i, q] == (if i == b && q < p then block[q] else cells[i][q])
                    && flags[i, q] == (if i == b && q < p then false else synced[i][q])
      {
        flash[b, p] := Programmed(data[At(k, p) .. At(k, p) + ENTRIES_PER_PAGE]);
        assert flash[b, p] == Programmed(Slice(d, k, p));
        flags[b, p] := false;
      }
      disciplined := disciplined && InOrder(cells, b, 0);
      cells := cells[b := block];
      synced := synced[b := Uniform(false)];
    }

    method Erase(b: int, sync: bool) returns (o: Outcome)
      requires Valid()
      requires 0 <= b < NUM_BLOCKS
      modifies this, flash, flags
      ensures Valid()
      ensures disciplined == old(disciplined)
      ensures o.Crashed? ==> crashSim && sync && CrashImage(old(cells), old(synced), cells) && synced == old(synced)
      ensures o.Done? ==> cells == old(cells)[b := Uniform(Erased)] && synced == old(synced)[b := Uniform(sync)]
    {
      var crash: bool := *;
      if crashSim && sync && crash {
        Crash();
        return Crashed;
      }
      EraseBlock(b, sync);
      return Done;
    }

    method EraseBlock(b: int, sync: bool)
      requires Valid()
      requires 0 <= b < NUM_BLOCKS
      modifies this, flash, flags
      ensures Valid()
      ensures disciplined == old(disciplined)
      ensures cells == old(cells)[b := Uniform(Erased)] && synced == old(synced)[b := Uniform(sync)]
    {
      for p := 0 to PAGES_PER_BLOCK
        invariant cells == old(cells) && synced == old(synced) && disciplined == old(disciplined)
        invariant forall i, q :: 0 <= i < NUM_BLOCKS && 0 <= q < PAGES_PER_BLOCK ==>
                    && flash[i, q] == (if i == b && q < p then Erased else cells[i][q])
                    && flags[i, q] == (if i == b && q < p then sync else synced[i][q])
      {
        flash[b, p] := Erased;
        flags[b, p] := sync;
      }
      cells := cells[b := Uniform(Erased)];
      synced := synced[b := Uniform(sync)];
    }

    method EraseBulk(b: int, n: int)
      requires Valid()
      requires 0 <= b <= b + n <= NUM_BLOCKS
      modifies this, flash, flags
      ensures Valid()
      ensures disciplined == old(disciplined)
      ensures forall i :: 0 <= i < NUM_BLOCKS ==> cells[i] == if b <= i < b + n then Uniform(Erased) else old(cells)[i]
      ensures forall i :: 0 <= i < NUM_BLOCKS ==> synced[i] == if b <= i < b + n then Uniform(false) else old(synced)[i]
    {
      var i := b;
      while i < b + n
        invariant b <= i <= b + n && Valid()
        invariant disciplined == old(disciplined)
        invariant forall j :: 0 <= j < NUM_BLOCKS ==> cells[j] == if b <= j < i then Uniform(Erased) else old(cells)[j]
        invariant forall j :: 0 <= j < NUM_BLOCKS ==> synced[j] == if b <= j < i then Uniform(false) else old(synced)[j]
      {
        EraseBlock(i, false);
        i := i + 1;
      }
    }

    method Sync() returns (o: Outcome)
      requires Valid()
      modifies this, flash, flags
      ensures Valid()
      ensures disciplined == old(disciplined)
      ensures o.Crashed? ==> crashSim && CrashImage(old(cells), old(synced), cells) && synced == old(synced)
      ensures o.Done? ==> cells == old(cells) && AllSynced(synced)
    {
      var crash: bool := *;
      if crashSim && crash {
        Crash();
        return Crashed;
      }
      forall b, p | 0 <= b < NUM_BLOCKS && 0 <= p < PAGES_PER_BLOCK {
        flags[b, p] := true;
      }
      synced := seq(NUM_BLOCKS, _ => Uniform(true));
      return Done;
    }
  }
}
