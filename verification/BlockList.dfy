/**
 The circular list of data blocks.  Five cursors cut the ring into consecutive queues:
 usable (erased, ready to be written), erasable (dead since the last commit point),
 invalid (emptied by the collector since the last commit point, still needed if we crash),
 used, and the one active block.  The proofs elsewhere only need to know which queue each
 block is in, so the class keeps that as a view of the list: role[b].
 */
module BlockManagement {
  import opened Geometry
  import opened FlashDevice
  import opened Mapping

  datatype Role = Reserved | Usable | Erasable | Invalid | Used | Active {
    /** Ready blocks hold no live sector. */
    predicate Ready() { Usable? || Erasable? || Invalid? }
  }

  datatype Cursors = Cursors(usable: int, erasable: int, invalid: int, used: int, active: int) {
    predicate InRing() {
      && 0 <= usable < BLOCKS_DATA && 0 <= erasable < BLOCKS_DATA && 0 <= invalid < BLOCKS_DATA
      && 0 <= used < BLOCKS_DATA && 0 <= active < BLOCKS_DATA
    }
    function NUsable(): int { Dist(usable, erasable) }
    function NErasable(): int { Dist(erasable, invalid) }
    function NInvalid(): int { Dist(invalid, used) }
    function NUsed(): int { Dist(used, active) }
    function NReady(): int { Dist(usable, used) }

    /** The queues follow each other around the ring and, with the active block, fill it. */
    predicate Consecutive() {
      && InRing() && usable == Next(active)
      && NUsable() + NErasable() + NInvalid() + NUsed() + 1 == BLOCKS_DATA
    }

    /** The queue that position i of the ring belongs to. */
    function RoleAt(i: int): Role {
      var d := Dist(usable, i);
      if d < NUsable() then Usable
      else if d < NUsable() + NErasable() then Erasable
      else if d < NUsable() + NErasable() + NInvalid() then Invalid
      else if d < NUsable() + NErasable() + NInvalid() + NUsed() then Used
      else Active
    }
  }

  function Next(i: int): int { if i == BLOCKS_DATA - 1 then 0 else i + 1 }

  /** How far a cursor moves forward from one position to another. */
  function Dist(from: int, to: int): int { if from <= to then to - from else to + BLOCKS_DATA - from }

  ghost function CountRole(role: seq<Role>, n: nat, r: Role): nat
    requires n <= |role|
  {
    if n == 0 then 0 else CountRole(role, n - 1, r) + if role[n - 1] == r then 1 else 0
  }

  lemma {:induction false} CountRoleUpdate(role: seq<Role>, n: nat, i: nat, x: Role, r: Role)
    requires n <= |role| && i < |role|
    ensures CountRole(role[i := x], n, r) == CountRole(role, n, r)
              + (if i < n && x == r then 1 else 0) - (if i < n && role[i] == r then 1 else 0)
  {
    if n > 0 {
      CountRoleUpdate(role, n - 1, i, x, r);
    }
  }

  lemma {:induction false} CountRolePositive(role: seq<Role>, n: nat, i: nat)
    requires i < n <= |role|
    ensures CountRole(role, n, role[i]) >= 1
  {
    if i < n - 1 {
      CountRolePositive(role, n - 1, i);
    }
  }

  /** list is a permutation of the data blocks, with pos its inverse. */
  ghost predicate Permutation(list: seq<Word>, pos: seq<int>) {
    && |list| == BLOCKS_DATA && |pos| == BLOCKS_TOTAL
    && (forall i :: 0 <= i < BLOCKS_DATA ==> PBA_DATA <= list[i] < BLOCKS_TOTAL && pos[list[i]] == i)
    && (forall b :: PBA_DATA <= b < BLOCKS_TOTAL ==> 0 <= pos[b] < BLOCKS_DATA && list[pos[b]] == b)
  }

  /** role says of each data block which queue its position belongs to. */
  ghost predicate Assigned(pos: seq<int>, role: seq<Role>, c: Cursors)
    requires |pos| == BLOCKS_TOTAL
  {
    && |role| == BLOCKS_TOTAL
    && (forall b :: 0 <= b < PBA_DATA ==> role[b] == Reserved)
    && (forall b :: PBA_DATA <= b < BLOCKS_TOTAL ==> role[b] == c.RoleAt(pos[b]))
  }

  ghost predicate Sizes(role: seq<Role>, c: Cursors)
    requires |role| == BLOCKS_TOTAL
  {
    && CountRole(role, BLOCKS_TOTAL, Usable) == c.NUsable()
    && CountRole(role, BLOCKS_TOTAL, Erasable) == c.NErasable()
    && CountRole(role, BLOCKS_TOTAL, Invalid) == c.NInvalid()
    && CountRole(role, BLOCKS_TOTAL, Used) == c.NUsed()
  }

  ghost predicate Ring(list: seq<Word>, pos: seq<int>, role: seq<Role>, c: Cursors) {
    && c.Consecutive() && Permutation(list, pos) && Assigned(pos, role, c) && Sizes(role, c)
  }

  /** The ready queues, as the source measures them, are the three queues before the used one. */
  lemma ReadyCount(c: Cursors)
    requires c.Consecutive()
    ensures c.NReady() == c.NUsable() + c.NErasable() + c.NInvalid()
    ensures c.NUsed() + 1 + c.NReady() == BLOCKS_DATA
  {
  }

  /** Moving one block to another queue. */
  lemma SizesUpdate(role: seq<Role>, i: nat, x: Role)
    requires |role| == BLOCKS_TOTAL && i < BLOCKS_TOTAL
    ensures forall r :: CountRole(role[i := x], BLOCKS_TOTAL, r) == CountRole(role, BLOCKS_TOTAL, r)
              + (if x == r then 1 else 0) - (if role[i] == r then 1 else 0)
  {
    forall r {
      CountRoleUpdate(role, BLOCKS_TOTAL, i, x, r);
    }
  }

  /** What the methods below use of a ring. */
  lemma RingFacts(list: seq<Word>, pos: seq<int>, role: seq<Role>, c: Cursors)
    requires Ring(list, pos, role, c)
    ensures c.Consecutive() && |list| == BLOCKS_DATA && |pos| == BLOCKS_TOTAL && |role| == BLOCKS_TOTAL
    ensures forall i :: 0 <= i < BLOCKS_DATA ==> PBA_DATA <= list[i] < BLOCKS_TOTAL
    ensures c.NUsable() >= 0 && c.NErasable() >= 0 && c.NInvalid() >= 0 && c.NUsed() >= 0
    ensures c.NUsable() + c.NErasable() + c.NInvalid() + c.NUsed() + 1 == BLOCKS_DATA
    ensures c.NReady() == c.NUsable() + c.NErasable() + c.NInvalid() && Permutation(list, pos)
  {
    ReadyCount(c);
  }

  /** How each cursor step moves the queue boundaries: one position changes queue, no other does. */
  lemma ChooseMoves(c: Cursors, i: int)
    requires c.Consecutive() && c.NUsable() > 0 && 0 <= i < BLOCKS_DATA
    ensures c.RoleAt(c.usable) == Usable && c.RoleAt(c.active) == Active
    ensures var c' := c.(active := c.usable, usable := Next(c.usable));
            && c'.Consecutive() && c'.NUsable() == c.NUsable() - 1 && c'.NErasable() == c.NErasable()
            && c'.NInvalid() == c.NInvalid() && c'.NUsed() == c.NUsed() + 1
            && c'.RoleAt(i) == if i == c.active then Used else if i == c.usable then Active else c.RoleAt(i)
  {
  }

  lemma EraseMoves(c: Cursors, i: int)
    requires c.Consecutive() && c.NErasable() > 0 && 0 <= i < BLOCKS_DATA
    ensures c.RoleAt(c.erasable) == Erasable
    ensures var c' := c.(erasable := Next(c.erasable));
            && c'.Consecutive() && c'.NUsable() == c.NUsable() + 1 && c'.NErasable() == c.NErasable() - 1
            && c'.NInvalid() == c.NInvalid() && c'.NUsed() == c.NUsed()
            && c'.RoleAt(i) == if i == c.erasable then Usable else c.RoleAt(i)
  {
  }

  lemma RetireMoves(c: Cursors, i: int)
    requires c.Consecutive() && c.NUsed() > 0 && 0 <= i < BLOCKS_DATA
    ensures c.RoleAt(c.used) == Used
    ensures var c' := c.(used := Next(c.used));
            && c'.Consecutive() && c'.NUsable() == c.NUsable() && c'.NErasable() == c.NErasable()
            && c'.NInvalid() == c.NInvalid() + 1 && c'.NUsed() == c.NUsed() - 1
            && c'.RoleAt(i) == if i == c.used then Invalid else c.RoleAt(i)
  {
  }

  /** The head of the usable queue becomes active and the active block becomes used. */
  lemma ChooseKeepsRing(list: seq<Word>, pos: seq<int>, role: seq<Role>, c: Cursors)
    requires Ring(list, pos, role, c) && c.NUsable() > 0
    ensures role[list[c.usable]] == Usable && role[list[c.active]] == Active
    ensures var c' := c.(active := c.usable, usable := Next(c.usable));
            && Ring(list, pos, role[list[c.active] := Used][list[c.usable] := Active], c')
            && c'.NUsable() == c.NUsable() - 1 && c'.NErasable() == c.NErasable()
            && c'.NInvalid() == c.NInvalid() && c'.NUsed() == c.NUsed() + 1
  {
    var a, u := list[c.active], list[c.usable];
    ChooseMoves(c, c.usable);
    SizesUpdate(role, a, Used);
    SizesUpdate(role[a := Used], u, Active);
    forall b | PBA_DATA <= b < BLOCKS_TOTAL
      ensures role[a := Used][u := Active][b] == c.(active := c.usable, usable := Next(c.usable)).RoleAt(pos[b])
    {
      ChooseMoves(c, pos[b]);
    }
  }

  lemma EraseKeepsRing(list: seq<Word>, pos: seq<int>, role: seq<Role>, c: Cursors)
    requires Ring(list, pos, role, c) && c.NErasable() > 0
    ensures role[list[c.erasable]] == Erasable
    ensures var c' := c.(erasable := Next(c.erasable));
            && Ring(list, pos, role[list[c.erasable] := Usable], c')
            && c'.NUsable() == c.NUsable() + 1 && c'.NErasable() == c.NErasable() - 1
            && c'.NInvalid() == c.NInvalid() && c'.NUsed() == c.NUsed()
  {
    var e := list[c.erasable];
    EraseMoves(c, c.erasable);
    SizesUpdate(role, e, Usable);
    forall b | PBA_DATA <= b < BLOCKS_TOTAL
      ensures role[e := Usable][b] == c.(erasable := Next(c.erasable)).RoleAt(pos[b])
    {
      EraseMoves(c, pos[b]);
    }
  }

  lemma RetireKeepsRing(list: seq<Word>, pos: seq<int>, role: seq<Role>, c: Cursors)
    requires Ring(list, pos, role, c) && c.NUsed() > 0
    ensures role[list[c.used]] == Used
    ensures var c' := c.(used := Next(c.used));
            && Ring(list, pos, role[list[c.used] := Invalid], c')
            && c'.NUsable() == c.NUsable() && c'.NErasable() == c.NErasable()
            && c'.NInvalid() == c.NInvalid() + 1 && c'.NUsed() == c.NUsed() - 1
  {
    var v := list[c.used];
    RetireMoves(c, c.used);
    SizesUpdate(role, v, Invalid);
    forall b | PBA_DATA <= b < BLOCKS_TOTAL
      ensures role[v := Invalid][b] == c.(used := Next(c.used)).RoleAt(pos[b])
    {
      RetireMoves(c, pos[b]);
    }
  }

  /** Every invalid block becomes erasable. */
  function Released(role: seq<Role>): (r: seq<Role>) {
    seq(|role|, i requires 0 <= i < |role| => if role[i] == Invalid then Erasable else role[i])
  }

  lemma {:induction false} ReleasedCounts(role: seq<Role>, n: nat, r: Role)
    requires n <= |role|
    ensures CountRole(Released(role), n, r) ==
            if r == Invalid then 0
            else if r == Erasable then CountRole(role, n, Erasable) + CountRole(role, n, Invalid)
            else CountRole(role, n, r)
  {
    if n > 0 {
      ReleasedCounts(role, n - 1, r);
    }
  }

  lemma ReleaseKeepsRing(list: seq<Word>, pos: seq<int>, role: seq<Role>, c: Cursors)
    requires Ring(list, pos, role, c)
    ensures var c' := c.(invalid := c.used);
            && Ring(list, pos, Released(role), c')
            && c'.NUsable() == c.NUsable() && c'.NErasable() == c.NErasable() + c.NInvalid()
            && c'.NInvalid() == 0 && c'.NUsed() == c.NUsed()
  {
    ReleasedCounts(role, BLOCKS_TOTAL, Usable);
    ReleasedCounts(role, BLOCKS_TOTAL, Erasable);
    ReleasedCounts(role, BLOCKS_TOTAL, Invalid);
    ReleasedCounts(role, BLOCKS_TOTAL, Used);
  }

  function Swapped(list: seq<Word>, i: int, j: int): seq<Word>
    requires 0 <= i < |list| && 0 <= j < |list|
  {
    list[i := list[j]][j := list[i]]
  }

  /** The inverse that goes with a swap. */
  ghost function SwappedPos(list: seq<Word>, pos: seq<int>, i: int, j: int): seq<int>
    requires Permutation(list, pos) && 0 <= i < BLOCKS_DATA && 0 <= j < BLOCKS_DATA
  {
    pos[list[j] := i][list[i] := j]
  }

  /** Two blocks of the same queue may trade places. */
  lemma SwapKeepsRing(list: seq<Word>, pos: seq<int>, role: seq<Role>, c: Cursors, i: int, j: int)
    requires Ring(list, pos, role, c)
    requires 0 <= i < BLOCKS_DATA && 0 <= j < BLOCKS_DATA && c.RoleAt(i) == c.RoleAt(j)
    ensures Ring(Swapped(list, i, j), SwappedPos(list, pos, i, j), role, c)
  {
    hide Cursors.RoleAt, CountRole, Dist;
    assert Permutation(Swapped(list, i, j), SwappedPos(list, pos, i, j));
  }

  /** No sector lives in a ready block, so the blocks in use are at most those that are not ready. */
  lemma {:induction false} TouchedAtMost(l2p: seq<Word>, role: seq<Role>, n: nat)
    requires |l2p| >= N_LAS && n <= |role| == BLOCKS_TOTAL
    requires forall b :: 0 <= b < PBA_DATA ==> role[b] == Reserved
    requires forall b :: PBA_DATA <= b < BLOCKS_TOTAL && role[b].Ready() ==> !Touches(l2p, b)
    ensures TouchedBlocks(l2p, n) + CountRole(role, n, Usable) + CountRole(role, n, Erasable) + CountRole(role, n, Invalid)
              <= if n <= PBA_DATA then 0 else n - PBA_DATA
  {
    if n > 0 {
      TouchedAtMost(l2p, role, n - 1);
    }
  }

  lemma {:induction false} UsedTimesLeast(l2p: seq<Word>, role: seq<Role>, v: nat, n: nat)
    requires |l2p| >= N_LAS && n <= |role| == BLOCKS_TOTAL
    requires forall b :: 0 <= b < BLOCKS_TOTAL && role[b] == Used ==> v <= CountIn(l2p, N_LAS, b)
    ensures CountRole(role, n, Used) * v <= SumCounts(l2p, N_LAS, n)
  {
    if n > 0 {
      UsedTimesLeast(l2p, role, v, n - 1);
      if role[n - 1] == Used {
        calc {
          CountRole(role, n, Used) * v;
          (CountRole(role, n - 1, Used) + 1) * v;
          CountRole(role, n - 1, Used) * v + v;
        }
      }
    }
  }

  lemma TimesMonotone(a: int, b: int, v: int)
    requires a <= b && 0 <= v
    ensures a * v <= b * v
  {
    assert (b - a) * v >= 0;
  }

  /** A used block with the fewest live sectors has at most VICTIM_MAX of them once the collector may start. */
  lemma VictimBound(l2p: seq<Word>, vcnts: seq<Count16>, role: seq<Role>, victim: int)
    requires |l2p| >= N_LAS && |vcnts| == BLOCKS_TOTAL + 1 && |role| == BLOCKS_TOTAL
    requires Counted(l2p, vcnts) && PBA_DATA <= victim < BLOCKS_TOTAL
    requires forall b :: 0 <= b < BLOCKS_TOTAL && role[b] == Used ==> vcnts[victim] <= vcnts[b]
    requires CountRole(role, BLOCKS_TOTAL, Used) >= THRESHOLD_GC
    ensures vcnts[victim] <= VICTIM_MAX
  {
    hide CountRole, CountIn, SumCounts;
    UsedTimesLeast(l2p, role, vcnts[victim], BLOCKS_TOTAL);
    SumBounded(l2p, N_LAS, BLOCKS_TOTAL);
    TimesMonotone(THRESHOLD_GC, CountRole(role, BLOCKS_TOTAL, Used), vcnts[victim]);
  }

  /** After reconstruction: the mapped blocks come first, all others are erasable, none is active. */
  ghost predicate Partitioned(l2p: seq<Word>, list: seq<Word>, pos: seq<int>, role: seq<Role>, k: int)
    requires |l2p| >= N_LAS
  {
    && Permutation(list, pos) && |role| == BLOCKS_TOTAL
    && 0 <= k == TouchedBlocks(l2p, BLOCKS_TOTAL) <= BLOCKS_DATA
    && (forall b :: PBA_DATA <= b < BLOCKS_TOTAL ==> (pos[b] < k <==> Touches(l2p, b)))
    && (forall b :: 0 <= b < PBA_DATA ==> role[b] == Reserved)
    && (forall b :: PBA_DATA <= b < BLOCKS_TOTAL ==> role[b] == if pos[b] < k then Used else Erasable)
  }

  lemma {:induction false} PartitionCounts(l2p: seq<Word>, role: seq<Role>, n: nat)
    requires |l2p| >= N_LAS && n <= |role| == BLOCKS_TOTAL
    requires forall b :: 0 <= b < PBA_DATA ==> role[b] == Reserved
    requires forall b :: PBA_DATA <= b < BLOCKS_TOTAL ==> role[b] == if Touches(l2p, b) then Used else Erasable
    ensures CountRole(role, n, Used) == TouchedBlocks(l2p, n)
    ensures CountRole(role, n, Used) + CountRole(role, n, Erasable) == if n <= PBA_DATA then 0 else n - PBA_DATA
    ensures CountRole(role, n, Usable) == CountRole(role, n, Invalid) == 0
  {
    if n > 0 {
      PartitionCounts(l2p, role, n - 1);
    }
  }

  lemma OpenMoves(k: int, i: int)
    requires 0 <= k < BLOCKS_DATA - 1 && 0 <= i < BLOCKS_DATA
    ensures var c := Cursors(k + 1, k + 1, 0, 0, k);
            && c.Consecutive() && c.NUsable() == 0 && c.NErasable() == BLOCKS_DATA - 1 - k && c.NInvalid() == 0 && c.NUsed() == k
            && c.RoleAt(i) == if i < k then Used else if i == k then Active else Erasable
  {
  }

  /** The first erasable block becomes the active one, which starts the ring. */
  lemma OpenKeepsRing(l2p: seq<Word>, list: seq<Word>, pos: seq<int>, role: seq<Role>, k: int)
    requires |l2p| >= N_LAS && Partitioned(l2p, list, pos, role, k) && k < BLOCKS_DATA - 1
    ensures role[list[k]] == Erasable
    ensures var c := Cursors(k + 1, k + 1, 0, 0, k);
            && Ring(list, pos, role[list[k] := Active], c)
            && c.NUsable() == 0 && c.NErasable() == BLOCKS_DATA - 1 - k && c.NInvalid() == 0 && c.NUsed() == k
  {
    OpenMoves(k, k);
    PartitionCounts(l2p, role, BLOCKS_TOTAL);
    SizesUpdate(role, list[k], Active);
    forall b | PBA_DATA <= b < BLOCKS_TOTAL
      ensures role[list[k] := Active][b] == Cursors(k + 1, k + 1, 0, 0, k).RoleAt(pos[b])
    {
      OpenMoves(k, pos[b]);
    }
  }

  /** The first n data blocks are in place, the k of them that hold sectors first. */
  ghost predicate Placed(l2p: seq<Word>, list: seq<Word>, pos: seq<int>, k: int, n: int)
    requires |l2p| >= N_LAS && |list| == BLOCKS_DATA && |pos| == BLOCKS_TOTAL && 0 <= n <= BLOCKS_DATA
  {
    && 0 <= k == TouchedBlocks(l2p, PBA_DATA + n) <= n
    && (forall i :: 0 <= i < n ==> PBA_DATA <= list[i] < PBA_DATA + n && pos[list[i]] == i)
    && (forall b :: PBA_DATA <= b < PBA_DATA + n ==> 0 <= pos[b] < n && list[pos[b]] == b)
    && (forall b :: PBA_DATA <= b < PBA_DATA + n ==> (pos[b] < k <==> Touches(l2p, b)))
  }

  lemma PlaceKeeps(l2p: seq<Word>, list: seq<Word>, pos: seq<int>, k: int, n: int)
    requires |l2p| >= N_LAS && |list| == BLOCKS_DATA && |pos| == BLOCKS_TOTAL && 0 <= n < BLOCKS_DATA
    requires Placed(l2p, list, pos, k, n)
    ensures 0 <= k <= n && (k < n ==> PBA_DATA <= list[k] < PBA_DATA + n)
    ensures Touches(l2p, PBA_DATA + n) ==>
              Placed(l2p, list[n := list[k]][k := PBA_DATA + n],
                     (if k < n then pos[list[k] := n] else pos)[PBA_DATA + n := k], k + 1, n + 1)
    ensures !Touches(l2p, PBA_DATA + n) ==> Placed(l2p, list[n := PBA_DATA + n], pos[PBA_DATA + n := n], k, n + 1)
  {
    hide Touches;
  }

  class BlockList {
    const list: array<Word>
    var usable: int
    var erasable: int
    var invalid: int
    var used: int
    var active: int
    var pbaActive: int
    /** The contents of list, its inverse, and the queue of each block. */
    ghost var blks: seq<Word>
    ghost var pos: seq<int>
    ghost var role: seq<Role>

    ghost function Cur(): Cursors
      reads this
    {
      Cursors(usable, erasable, invalid, used, active)
    }

    ghost predicate Valid()
      reads this, list
    {
      && list.Length == BLOCKS_DATA && blks == list[..]
      && Ring(blks, pos, role, Cur())
      && pbaActive == blks[active]
    }

    constructor ()
      ensures list.Length == BLOCKS_DATA && fresh(list)
    {
      list := new Word[BLOCKS_DATA](_ => 0);
      usable, erasable, invalid, used, active, pbaActive := 0, 0, 0, 0, 0, 0;
    }

    /** What users of the list rely on. */
    lemma Facts()
      requires Valid()
      ensures list.Length == BLOCKS_DATA && |blks| == BLOCKS_DATA && |role| == BLOCKS_TOTAL && Cur().InRing()
      ensures PBA_DATA <= pbaActive < BLOCKS_TOTAL && blks == list[..]
      ensures Cur().NUsable() >= 0 && Cur().NErasable() >= 0 && Cur().NInvalid() >= 0 && Cur().NUsed() >= 0
      ensures Cur().NUsable() + Cur().NErasable() + Cur().NInvalid() + Cur().NUsed() + 1 == BLOCKS_DATA
      ensures usable == erasable <==> Cur().NUsable() == 0
      ensures erasable == invalid <==> Cur().NErasable() == 0
    {
      RingFacts(blks, pos, role, Cur());
      hide Ring;
    }

    /** The queue lengths count the blocks in each queue. */
    lemma Counts()
      requires Valid()
      ensures |role| == BLOCKS_TOTAL && (forall b :: 0 <= b < PBA_DATA ==> role[b] == Reserved)
      ensures CountRole(role, BLOCKS_TOTAL, Usable) == Cur().NUsable() &&
              CountRole(role, BLOCKS_TOTAL, Erasable) == Cur().NErasable()
      ensures CountRole(role, BLOCKS_TOTAL, Invalid) == Cur().NInvalid() && CountRole(role, BLOCKS_TOTAL, Used) == Cur().NUsed()
    {
      hide Permutation, CountRole, Dist;
    }

    lemma UsedExists(b: int)
      requires Valid() && 0 <= b < BLOCKS_TOTAL && role[b] == Used
      ensures Cur().NUsed() > 0
    {
      Counts();
      hide BlockList.Valid, Dist;
      CountRolePositive(role, BLOCKS_TOTAL, b);
    }

    method ChooseFreeBlock()
      requires Valid()
      requires Cur().NUsable() > 0
      modifies this
      ensures Valid()
      ensures blks == old(blks) && pos == old(pos)
      ensures old(role)[pbaActive] == Usable
      ensures role == old(role)[old(pbaActive) := Used][pbaActive := Active]
      ensures Cur() == old(Cur()).(active := old(usable), usable := Next(old(usable)))
      ensures Cur().NUsable() == old(Cur().NUsable()) - 1 && Cur().NErasable() == old(Cur().NErasable())
      ensures Cur().NInvalid() == old(Cur().NInvalid()) && Cur().NUsed() == old(Cur().NUsed()) + 1
    {
      hide Ring, Dist;
      RingFacts(blks, pos, role, Cur());
      ChooseKeepsRing(blks, pos, role, Cur());
      role := role[pbaActive := Used][blks[usable] := Active];
      pbaActive := list[usable];
      active := usable;
      usable := Next(usable);
    }

    method MakeAllInvalidBlocksErasable()
      requires Valid()
      modifies this
      ensures Valid()
      ensures blks == old(blks) && pos == old(pos) && pbaActive == old(pbaActive)
      ensures role == Released(old(role))
      ensures Cur() == old(Cur()).(invalid := used)
      ensures Cur().NUsable() == old(Cur().NUsable()) && Cur().NErasable() == old(Cur().NErasable() + Cur().NInvalid())
      ensures Cur().NInvalid() == 0 && Cur().NUsed() == old(Cur().NUsed())
    {
      hide Ring, Dist;
      ReleaseKeepsRing(blks, pos, role, Cur());
      role := Released(role);
      invalid := used;
    }

    /** Erases the head of the erasable queue, without waiting for the device. */
    method MakeOneErasableBlockFree(flash: Flash) returns (ghost b: int)
      requires Valid() && flash.Valid()
      requires Cur().NErasable() > 0
      modifies this, flash, flash.flash, flash.flags
      ensures Valid() && flash.Valid()
      ensures blks == old(blks) && pos == old(pos) && pbaActive == old(pbaActive)
      ensures PBA_DATA <= b < BLOCKS_TOTAL && old(role)[b] == Erasable
      ensures role == old(role)[b := Usable]
      ensures flash.cells == old(flash.cells)[b := Uniform(Erased)] && flash.synced == old(flash.synced)[b := Uniform(false)]
      ensures flash.disciplined == old(flash.disciplined)
      ensures Cur() == old(Cur()).(erasable := Next(old(erasable)))
      ensures Cur().NUsable() == old(Cur().NUsable()) + 1 && Cur().NErasable() == old(Cur().NErasable()) - 1
      ensures Cur().NInvalid() == old(Cur().NInvalid()) && Cur().NUsed() == old(Cur().NUsed())
    {
      hide Ring, Dist;
      RingFacts(blks, pos, role, Cur());
      EraseKeepsRing(blks, pos, role, Cur());
      b := blks[erasable];
      var _ := flash.Erase(list[erasable], false);
      role := role[b := Usable];
      erasable := Next(erasable);
    }

    /** The ready blocks can be measured from two cursors. */
    lemma ReadyIs()
      requires Valid()
      ensures Dist(usable, used) == Cur().NUsable() + Cur().NErasable() + Cur().NInvalid() == BLOCKS_DATA - 1 - Cur().NUsed()
    {
      RingFacts(blks, pos, role, Cur());
      hide Ring;
    }

    /** Finds a used block with the fewest live sectors and swaps it to the head of the used queue. */
    method ChooseVictimBlock(vcnts: array<Count16>) returns (victim: Word)
      requires Valid() && Cur().NUsed() > 0
      requires vcnts.Length == BLOCKS_TOTAL + 1
      modifies this`blks, this`pos, list
      ensures Valid()
      ensures PBA_DATA <= victim < BLOCKS_TOTAL && victim == blks[used] && role[victim] == Used
      ensures forall b :: PBA_DATA <= b < BLOCKS_TOTAL && role[b] == Used ==> vcnts[victim] <= vcnts[b]
    {
      hide Ring, Dist, Cursors.RoleAt;
      var i := FindIndexOfVictimBlock(vcnts);
      UsedPositions(blks, pos, role, Cur());
      RingFacts(blks, pos, role, Cur());
      SwapKeepsRing(blks, pos, role, Cur(), i, used);
      hide Permutation;
      victim := list[i];
      ghost var s, p := Swapped(blks, i, used), SwappedPos(blks, pos, i, used);
      list[i] := list[used];
      list[used] := victim;
      assert list[..] == s;
      blks, pos := s, p;
    }

    method FindIndexOfVictimBlock(vcnts: array<Count16>) returns (idxVictim: int)
      requires Valid() && Cur().NUsed() > 0
      requires vcnts.Length == BLOCKS_TOTAL + 1
      ensures 0 <= idxVictim < BLOCKS_DATA && Cur().RoleAt(idxVictim) == Used && PBA_DATA <= blks[idxVictim] < BLOCKS_TOTAL
      ensures forall b :: PBA_DATA <= b < BLOCKS_TOTAL && role[b] == Used ==> vcnts[blks[idxVictim]] <= vcnts[b]
    {
      hide Ring, Dist, Cursors.RoleAt;
      RingFacts(blks, pos, role, Cur());
      UsedSpan(Cur(), used);
      var idx := used;
      idxVictim := used;
      var minVcnt := vcnts[list[idxVictim]];
      forall i | 0 <= i < BLOCKS_DATA ensures Dist(used, i) >= 0 {
        DistInjective(used, i, i);
      }
      while idx != active
        invariant 0 <= idx < BLOCKS_DATA && 0 <= idxVictim < BLOCKS_DATA
        invariant Dist(used, idx) <= Cur().NUsed()
        invariant Cur().RoleAt(idxVictim) == Used
        invariant minVcnt == vcnts[blks[idxVictim]]
        invariant forall i :: 0 <= i < BLOCKS_DATA && Dist(used, i) < Dist(used, idx) ==> minVcnt <= vcnts[blks[i]]
        decreases Cur().NUsed() - Dist(used, idx)
      {
        UsedSpan(Cur(), idx);
        if vcnts[list[idx]] < minVcnt {
          idxVictim := idx;
          minVcnt := vcnts[list[idx]];
        }
        forall i | 0 <= i < BLOCKS_DATA && Dist(used, i) < Dist(used, Next(idx)) ensures minVcnt <= vcnts[blks[i]] {
          DistInjective(used, i, idx);
        }
        idx := Next(idx);
      }
      UsedPositions(blks, pos, role, Cur());
    }

    method MakeVictimBlockInvalid()
      requires Valid() && Cur().NUsed() > 0
      modifies this
      ensures Valid()
      ensures blks == old(blks) && pos == old(pos) && pbaActive == old(pbaActive)
      ensures old(role)[blks[old(used)]] == Used
      ensures role == old(role)[blks[old(used)] := Invalid]
      ensures Cur() == old(Cur()).(used := Next(old(used)))
      ensures Cur().NUsable() == old(Cur().NUsable()) && Cur().NErasable() == old(Cur().NErasable())
      ensures Cur().NInvalid() == old(Cur().NInvalid()) + 1 && Cur().NUsed() == old(Cur().NUsed()) - 1
    {
      hide Ring, Dist;
      RingFacts(blks, pos, role, Cur());
      RetireKeepsRing(blks, pos, role, Cur());
      role := role[blks[used] := Invalid];
      used := Next(used);
    }

    /** Rebuilds the list after a crash: the blocks that l2p maps into come first. */
    method ReconstructBlockList(l2p: array<Word>)
      requires list.Length == BLOCKS_DATA
      requires l2p != list && l2p.Length == N_LAS + 1 && InRange(l2p[..])
      modifies this, list
      ensures blks == list[..]
      ensures Partitioned(l2p[..], blks, pos, role, erasable)
      ensures usable == erasable && invalid == 0 && used == 0
    {
      hide Touches;
      erasable, invalid, used := 0, 0, 0;
      var isUsed := IdentifyUsedBlocks(l2p);
      CategorizeUsedAndErasableBlocks(isUsed, l2p[..]);
      usable := erasable;
      ghost var p, k := pos, erasable;
      assert |p| == BLOCKS_TOTAL;
      role := seq(BLOCKS_TOTAL, b requires 0 <= b < |p| =>
        if b < PBA_DATA then Reserved else if p[b] < k then Used else Erasable);
    }

    /** Places the blocks one by one, moving each used one down to the end of the used stretch. */
    method CategorizeUsedAndErasableBlocks(isUsed: array<bool>, ghost l: seq<Word>)
      requires list.Length == BLOCKS_DATA && isUsed.Length == BLOCKS_DATA + 1 && |l| >= N_LAS
      requires forall i :: 0 <= i < BLOCKS_DATA ==> (isUsed[i] <==> Touches(l, PBA_DATA + i))
      requires erasable == 0
      modifies this`erasable, this`pos, this`blks, list
      ensures blks == list[..] && Permutation(blks, pos)
      ensures 0 <= erasable == TouchedBlocks(l, BLOCKS_TOTAL) <= BLOCKS_DATA
      ensures forall b :: PBA_DATA <= b < BLOCKS_TOTAL ==> (pos[b] < erasable <==> Touches(l, b))
    {
      hide Touches;
      pos := seq(BLOCKS_TOTAL, _ => 0);
      blks := list[..];
      var idx, blkid: Word := 0, PBA_DATA;
      while idx != BLOCKS_DATA
        invariant 0 <= idx <= BLOCKS_DATA && blkid == PBA_DATA + idx
        invariant blks == list[..] && |pos| == BLOCKS_TOTAL
        invariant Placed(l, blks, pos, erasable, idx)
      {
        hide Placed;
        PlaceBlock(idx, blkid, isUsed[idx], l);
        idx := idx + 1;
        blkid := blkid + 1;
      }
    }

    /** Puts one block at position idx, or, if it is used, at the end of the used stretch. */
    method PlaceBlock(idx: int, blkid: Word, isUsed: bool, ghost l: seq<Word>)
      requires list.Length == BLOCKS_DATA && blks == list[..] && |pos| == BLOCKS_TOTAL && |l| >= N_LAS
      requires 0 <= idx < BLOCKS_DATA && blkid == PBA_DATA + idx && (isUsed <==> Touches(l, blkid))
      requires Placed(l, blks, pos, erasable, idx)
      modifies this`erasable, this`pos, this`blks, list
      ensures blks == list[..] && |pos| == BLOCKS_TOTAL && Placed(l, blks, pos, erasable, idx + 1)
    {
      hide Placed, Touches;
      ghost var s, p, k := blks, pos, erasable;
      PlaceKeeps(l, s, p, k, idx);
      if isUsed {
        list[idx] := list[erasable];
        list[erasable] := blkid;
        erasable := erasable + 1;
        blks, pos := s[idx := s[k]][k := blkid], (if k < idx then p[s[k] := idx] else p)[blkid := k];
      } else {
        list[idx] := blkid;
        blks, pos := s[idx := blkid], p[blkid := idx];
      }
    }

    method IdentifyUsedBlocks(l2p: array<Word>) returns (isUsed: array<bool>)
      requires l2p.Length == N_LAS + 1 && InRange(l2p[..])
      ensures fresh(isUsed) && isUsed.Length == BLOCKS_DATA + 1
      ensures forall i :: 0 <= i < BLOCKS_DATA ==> (isUsed[i] <==> Touches(l2p[..], PBA_DATA + i))
    {
      isUsed := new bool[BLOCKS_DATA + 1](_ => false);
      ghost var l := l2p[..];
      var sectid := 0;
      while sectid != N_LAS
        invariant 0 <= sectid <= N_LAS
        invariant forall i :: 0 <= i < BLOCKS_DATA ==>
                    (isUsed[i] <==> exists x :: 0 <= x < sectid && Pba(l[x]) == PBA_DATA + i)
      {
        var pba := Pba(l2p[sectid]);
        isUsed[pba - PBA_DATA] := true;
        sectid := sectid + 1;
      }
    }

    /** Erases the first erasable block and makes it the active one. */
    method OpenFirstBlock(flash: Flash, ghost l2p: seq<Word>)
      requires flash.Valid() && list.Length == BLOCKS_DATA && blks == list[..] && |l2p| >= N_LAS
      requires Partitioned(l2p, blks, pos, role, erasable)
      requires usable == erasable < BLOCKS_DATA - 1 && invalid == 0 && used == 0
      modifies this, flash, flash.flash, flash.flags
      ensures Valid() && flash.Valid()
      ensures blks == old(blks) && pos == old(pos)
      ensures old(role)[pbaActive] == Erasable
      ensures role == old(role)[pbaActive := Active]
      ensures flash.cells == old(flash.cells)[pbaActive := Uniform(Erased)] &&
              flash.synced == old(flash.synced)[pbaActive := Uniform(false)]
      ensures flash.disciplined == old(flash.disciplined)
      ensures Cur().NUsable() == 0 && Cur().NErasable() == BLOCKS_DATA - 1 - old(erasable)
      ensures Cur().NInvalid() == 0 && Cur().NUsed() == old(erasable)
    {
      hide Ring, Dist;
      OpenKeepsRing(l2p, blks, pos, role, erasable);
      var _ := flash.Erase(list[erasable], false);
      erasable := Next(erasable);
      pbaActive := list[usable];
      active := usable;
      usable := Next(usable);
      role := role[pbaActive := Active];
    }
  }

  /** The used queue is exactly the stretch from the used cursor to the active one. */
  lemma UsedSpan(c: Cursors, i: int)
    requires c.Consecutive() && 0 <= i < BLOCKS_DATA
    ensures c.RoleAt(i) == Used <==> Dist(c.used, i) < c.NUsed()
    ensures 0 <= Dist(c.used, i) < BLOCKS_DATA
    ensures Dist(c.used, c.used) == 0
    ensures Dist(c.used, i) < c.NUsed() ==> Dist(c.used, Next(i)) == Dist(c.used, i) + 1
    ensures Dist(c.used, i) == c.NUsed() <==> i == c.active
  {
  }

  lemma DistInjective(from: int, i: int, j: int)
    requires 0 <= from < BLOCKS_DATA && 0 <= i < BLOCKS_DATA && 0 <= j < BLOCKS_DATA
    ensures Dist(from, i) == Dist(from, j) ==> i == j
    ensures Dist(from, i) >= 0 && Dist(from, from) == 0
  {
  }

  /** A block is used exactly when its position lies in the used stretch. */
  lemma UsedPositions(list: seq<Word>, pos: seq<int>, role: seq<Role>, c: Cursors)
    requires Ring(list, pos, role, c)
    ensures |list| == BLOCKS_DATA && |pos| == |role| == BLOCKS_TOTAL
    ensures forall b :: PBA_DATA <= b < BLOCKS_TOTAL ==> 0 <= pos[b] < BLOCKS_DATA && list[pos[b]] == b
    ensures forall b :: PBA_DATA <= b < BLOCKS_TOTAL ==> (role[b] == Used <==> Dist(c.used, pos[b]) < c.NUsed())
    ensures forall i :: 0 <= i < BLOCKS_DATA ==> PBA_DATA <= list[i] < BLOCKS_TOTAL && role[list[i]] == c.RoleAt(i)
    ensures c.NUsed() > 0 ==> c.RoleAt(c.used) == Used
  {
    forall b | PBA_DATA <= b < BLOCKS_TOTAL ensures role[b] == Used <==> Dist(c.used, pos[b]) < c.NUsed() {
      UsedSpan(c, pos[b]);
    }
    UsedSpan(c, c.used);
  }
}
