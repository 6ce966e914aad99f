/**
 The garbage collector and the space it guarantees: what is left of the reserve, how many
 copies a retired block can have cost, and how far the log can have grown since the last
 commit point.
 */
module Collector {
  import opened Division
  import opened Geometry
  import opened FlashDevice
  import opened Mapping
  import opened BlockManagement
  import opened Sizing
  import opened Snapshot
  import opened Checkpointing
  import opened LayerState

  /** The collector's variables and the two counters of an epoch. */
  datatype Gc = Gc(on: bool, victim: int, pos: int, lsa: Word, gcprog: int, wcnt: int)

  const SIZES := Sizes(SECTORS_PER_PAGE, SECTORS_PER_BLOCK, PAGES_PER_BLOCK, MAX_WCNT, MAX_GCPROG,
                       N_DELTA_PAIR, BLOCKS_DELTA, THRESHOLD_DELTA_WB, RESERVE, BLOCKS_DATA, THRESHOLD_GC, VICTIM_MAX)

  /** Every sector of the epoch has been paid for from the reserve and is in the log. */
  predicate Budget(x: State, g: Gc) {
    && x.nUsable >= 0 && x.nErasable >= 0 && x.nInvalid >= 0
    && SIZES.Paid(x.nUsable + x.nErasable, x.ipa, x.isa, g.wcnt, g.gcprog)
    && SIZES.Logged(x.kc, x.k, x.ptr, g.wcnt, g.gcprog)
  }

  /** The victim address that the collector looks at next. */
  function VictimPsa(g: Gc): int { g.victim * SECTORS_PER_BLOCK + g.pos }

  /** Nothing of the victim before the current position is live, and no copy was wasted. */
  ghost predicate Collecting(x: State, g: Gc)
    requires Shapes(x) && Tabled(x)
  {
    if g.on then
      && PBA_DATA <= g.victim < BLOCKS_TOTAL && 0 <= g.pos < SECTORS_PER_BLOCK
      && x.role[g.victim] == Used
      && (forall l :: 0 <= l < N_LAS && Pba(x.l2p[l]) == g.victim ==> x.l2p[l] >= VictimPsa(g))
      && g.lsa == x.p2l[VictimPsa(g)]
      && x.vcnts[g.victim] <= VICTIM_MAX
      && g.gcprog <= x.nInvalid * VICTIM_MAX + VICTIM_MAX - x.vcnts[g.victim]
    else
      g.gcprog <= x.nInvalid * VICTIM_MAX
  }

  /** The erasable queue is never empty when the usable one is: the reserve cannot run out within an epoch. */
  lemma ReserveHolds(x: State, g: Gc)
    requires Shapes(x) && Budget(x, g)
    ensures x.nUsable + x.nErasable >= 1
  {
    hide Sizes.Paid, Sizes.Logged;
    SIZES.ReadyBetween(x.nUsable + x.nErasable, x.ipa, x.isa, g.wcnt, g.gcprog);
  }

  /** The log has room for one more page. */
  lemma LogHasRoom(x: State, g: Gc)
    requires Shapes(x) && Budget(x, g)
    ensures x.k < DELTA_PAGES - PAGES_PER_BLOCK
  {
    hide Sizes.Paid, Sizes.Logged;
    SIZES.PageBetween(x.kc, x.k, x.ptr, g.wcnt, g.gcprog);
  }

  /** Once the collector has used up its copies, enough blocks are ready for a flush. */
  lemma SpentMeansReady(x: State, g: Gc)
    requires Shapes(x) && Tabled(x) && Budget(x, g) && Collecting(x, g) && g.gcprog == MAX_GCPROG
    ensures x.nUsable + x.nErasable + x.nInvalid >= RESERVE
  {
    hide Sizes.Paid, Sizes.Logged;
    SIZES.ReadyBetween(x.nUsable + x.nErasable, x.ipa, x.isa, g.wcnt, g.gcprog);
    SIZES.RetiredBound(x.nInvalid);
  }

  /** Steps that move no sector and retire no block do not concern the collector. */
  lemma CollectingSame(x: State, y: State, g: Gc)
    requires Shapes(x) && Tabled(x) && Shapes(y) && Tabled(y) && Collecting(x, g)
    requires y.l2p == x.l2p && y.p2l == x.p2l && y.vcnts == x.vcnts && y.nInvalid == x.nInvalid
    requires forall b :: 0 <= b < BLOCKS_TOTAL && x.role[b] == Used ==> y.role[b] == Used
    ensures Collecting(y, g)
  {
    hide Consistent;
  }

  /** What a write does to the collector's variables. */
  function Noticed(g: Gc, lsa: Word): Gc {
    g.(lsa := if lsa == g.lsa then N_LAS else g.lsa, wcnt := g.wcnt + 1)
  }

  lemma VictimNotActive(x: State, g: Gc)
    requires Shapes(x) && Tabled(x) && Roles(x) && Located(x) && Collecting(x, g) && g.on
    requires x.isa < SECTORS_PER_PAGE && x.ipa < PAGES_PER_BLOCK
    ensures g.victim != x.act && Pba(NextPsa(x)) == x.act && NextPsa(x) != VictimPsa(g) && 0 <= VictimPsa(g) < N_PAS
    ensures Pba(VictimPsa(g)) == g.victim && PBA_DATA * SECTORS_PER_BLOCK <= NextPsa(x) < N_PAS && x.p2l[NextPsa(x)] == N_LAS
  {
    NextFree(x);
    QuotientIs(VictimPsa(g), SECTORS_PER_BLOCK, g.victim, g.pos);
  }

  lemma WriteCollecting(x: State, g: Gc, lsa: Word, data: Sector)
    requires Shapes(x) && Tabled(x) && Roles(x) && Located(x) && Collecting(x, g) && Assignable(x, lsa)
    requires Shapes(Assign(x, lsa, data)) && Tabled(Assign(x, lsa, data))
    ensures Collecting(Assign(x, lsa, data), Noticed(g, lsa))
  {
    var y := Assign(x, lsa, data);
    if g.on {
      VictimNotActive(x, g);
      hide Pba, Counted, NextPsa, VictimPsa;
      CountsMoved(x, lsa, g.victim);
    }
  }

  /** Giving a sector a place in the active block never adds to another block's count. */
  lemma CountsMoved(x: State, lsa: Word, b: int)
    requires Shapes(x) && Tabled(x) && Located(x) && Assignable(x, lsa) && PBA_DATA <= b < BLOCKS_TOTAL && b != x.act
    ensures NextPsa(x) <= N_PAS
    ensures Moved(x.vcnts, x.l2p[lsa], NextPsa(x))[b] == x.vcnts[b] as int - if Pba(x.l2p[lsa]) == b then 1 else 0
  {
    NextFree(x);
    hide NextPsa, Located, Pba, Moved;
    RemapConsistent(x.l2p, x.p2l, x.vcnts, lsa, NextPsa(x));
  }

  /** The sector under the collector is live and is not in the merge buffer. */
  lemma VictimSector(x: State, g: Gc)
    requires Shapes(x) && Tabled(x) && Roles(x) && Located(x) && Merged(x) && Visible(x) && Collecting(x, g) &&
             g.on && g.lsa < N_LAS
    ensures x.l2p[g.lsa] == VictimPsa(g) && 0 <= VictimPsa(g) < N_PAS && SectorAt(x.c, VictimPsa(g)) == x.vlt[g.lsa]
  {
    hide Counted, SectorAt, Pba, Ipa, Isa, Psa;
    VictimAddress(g);
    assert x.l2p[g.lsa] == VictimPsa(g);
    assert Pba(x.l2p[g.lsa]) == g.victim != x.act;
    if x.isa >= 1 {
      BufferedIsActive(x, 0);
    }
    if x.isa >= 2 {
      BufferedIsActive(x, 1);
    }
    assert View(x, g.lsa) == x.vlt[g.lsa];
  }

  lemma VictimAddress(g: Gc)
    requires PBA_DATA <= g.victim < BLOCKS_TOTAL && 0 <= g.pos < SECTORS_PER_BLOCK
    ensures 0 <= VictimPsa(g) < N_PAS && Pba(VictimPsa(g)) == g.victim
  {
    QuotientIs(VictimPsa(g), SECTORS_PER_BLOCK, g.victim, g.pos);
  }

  lemma BufferedIsActive(x: State, i: int)
    requires Shapes(x) && Tabled(x) && Merged(x) && 0 <= i < x.isa
    ensures x.who[i] < N_LAS && Pba(x.l2p[x.who[i]]) == x.act
  {
    PsaRoundTrip(x.act, x.ipa, 0);
    PsaRoundTrip(x.act, x.ipa, 1);
  }

  /** Copying the sector under the collector out of the victim. */
  lemma CopyCollecting(x: State, g: Gc, data: Sector)
    requires Shapes(x) && Tabled(x) && Roles(x) && Located(x) && Collecting(x, g) && g.on && g.lsa < N_LAS && Assignable(x, g.lsa)
    requires Shapes(Assign(x, g.lsa, data)) && Tabled(Assign(x, g.lsa, data))
    ensures Collecting(Assign(x, g.lsa, data), g.(gcprog := g.gcprog + 1, lsa := N_LAS))
  {
    var y := Assign(x, g.lsa, data);
    VictimNotActive(x, g);
    hide Pba, Counted, NextPsa, VictimPsa;
    assert x.l2p[g.lsa] == VictimPsa(g);
    CountsMoved(x, g.lsa, g.victim);
  }

  /** With nothing left under it, the collector moves one sector on. */
  lemma StepCollecting(x: State, g: Gc)
    requires Shapes(x) && Tabled(x) && Collecting(x, g) && g.on && g.lsa == N_LAS && g.pos + 1 < SECTORS_PER_BLOCK
    ensures 0 <= VictimPsa(g) + 1 < N_PAS
    ensures Collecting(x, g.(pos := g.pos + 1, lsa := x.p2l[VictimPsa(g) + 1]))
  {
    hide Counted, Pba;
    VictimAddress(g);
    NotAtVictim(x, g);
  }

  lemma NotAtVictim(x: State, g: Gc)
    requires Shapes(x) && Tabled(x) && Collecting(x, g) && g.on && g.lsa == N_LAS
    ensures forall l :: 0 <= l < N_LAS ==> x.l2p[l] != VictimPsa(g)
  {
    hide Counted, Pba;
    VictimAddress(g);
  }

  /** At the end of the victim nothing lives in it. */
  lemma VictimEmpty(x: State, g: Gc)
    requires Shapes(x) && Tabled(x) && Collecting(x, g) && g.on && g.lsa == N_LAS && g.pos + 1 == SECTORS_PER_BLOCK
    ensures forall l :: 0 <= l < N_LAS ==> Pba(x.l2p[l]) != g.victim
  {
    NotAtVictim(x, g);
    hide Counted, Inverse;
    forall l | 0 <= l < N_LAS ensures Pba(x.l2p[l]) != g.victim {
      AddressBlock(x.l2p[l]);
    }
  }

  /** The emptied victim leaves the used queue. */
  function Retire(x: State, b: int): State
    requires Shapes(x) && PBA_DATA <= b < BLOCKS_TOTAL
  {
    x.(role := x.role[b := Invalid], nInvalid := x.nInvalid + 1, nUsed := x.nUsed - 1)
  }

  lemma RetirePlaces(x: State, b: int)
    requires Shapes(x) && Tabled(x) && Roles(x) && Located(x) && Merged(x) && Blank(x) && Kept(x)
    requires PBA_DATA <= b < BLOCKS_TOTAL && x.role[b] == Used && forall l :: 0 <= l < N_LAS ==> Pba(x.l2p[l]) != b
    ensures var y := Retire(x, b);
            Shapes(y) && Tabled(y) && Roles(y) && Located(y) && Merged(y) && Blank(y) && Kept(y)
  {
    hide Consistent, Pba, Ipa, Isa, Psa;
  }

  lemma RetireKeeps(x: State, b: int)
    requires Inv(x) && PBA_DATA <= b < BLOCKS_TOTAL && x.role[b] == Used && forall l :: 0 <= l < N_LAS ==> Pba(x.l2p[l]) != b
    ensures Inv(Retire(x, b))
  {
    hide Durable, Logged, Consistent, Located, Kept, Blank, Merged, Roles, View;
    var y := Retire(x, b);
    RetirePlaces(x, b);
    MetaLogged(x, y);
    forall l | 0 <= l < N_LAS ensures View(y, l) == x.vlt[l] {
      SameView(x, y, l);
    }
  }

  // The invariant between the steps of an operation

  ghost predicate Good(x: State, g: Gc) {
    Inv(x) && Budget(x, g) && Collecting(x, g)
  }

  /** What the operations read off the invariant. */
  lemma GoodShapes(x: State, g: Gc)
    requires Good(x, g)
    ensures Shapes(x) && Tabled(x) && 0 <= g.wcnt <= MAX_WCNT && 0 <= g.gcprog <= MAX_GCPROG
    ensures x.nUsable >= 0 && x.nErasable >= 0 && x.nUsable + x.nErasable >= 1
  {
    hide Roles, Located, Merged, Blank, Kept, Visible, Consistent, Durable, Logged;
    ReserveHolds(x, g);
  }

  lemma GoodLog(x: State, g: Gc)
    requires Good(x, g)
    ensures Shapes(x) && Durable(x.c, x.s, x.m, x.stb) && x.k < DELTA_PAGES - 1 && BufferOk(x.buf, x.ptr) &&
            DeltaRegion(x.c, x.kc, x.k)
  {
    hide Roles, Located, Merged, Blank, Kept, Visible, Consistent, Durable, DeltaRegion, Faithful, BufferOk, Chosen, SlotErased;
    LogHasRoom(x, g);
  }

  lemma GoodNext(x: State, g: Gc)
    requires Good(x, g) && x.isa < SECTORS_PER_PAGE && x.ipa < PAGES_PER_BLOCK
    ensures PBA_DATA * SECTORS_PER_BLOCK <= NextPsa(x) < N_PAS && |x.p2l| == N_PAS + 1 && x.p2l[NextPsa(x)] == N_LAS
  {
    hide Roles, Merged, Blank, Kept, Visible, Inverse, Counted, Durable, Logged, NextPsa, Pba, Isa;
    NextFree(x);
  }

  lemma NextIs(x: State)
    ensures NextPsa(x) == Psa(x.act, x.ipa, x.isa)
  {
  }

  lemma GoodView(x: State, g: Gc, l: int)
    requires Good(x, g) && 0 <= l < N_LAS
    ensures Shapes(x) && Tabled(x) && View(x, l) == x.vlt[l]
  {
    hide Roles, Located, Merged, Blank, Kept, Consistent, Durable, Logged, View;
  }

  lemma GoodVictimRange(x: State, g: Gc)
    requires Good(x, g) && g.on
    ensures Shapes(x) && PBA_DATA <= g.victim < BLOCKS_TOTAL && 0 <= g.pos < SECTORS_PER_BLOCK && x.role[g.victim] == Used
    ensures 0 <= VictimPsa(g) < N_PAS && |x.p2l| == N_PAS + 1 && g.lsa == x.p2l[VictimPsa(g)]
  {
    hide Roles, Located, Merged, Blank, Kept, Inverse, Counted, Durable, Logged, Visible, Pba;
    VictimAddress(g);
  }

  lemma GoodVictimLsa(x: State, g: Gc)
    requires Good(x, g) && g.on
    ensures g.lsa <= N_LAS
  {
    hide Roles, Located, Merged, Blank, Kept, Counted, Durable, Logged, Visible, Pba;
    VictimAddress(g);
  }

  lemma GoodSpent(x: State, g: Gc)
    requires Good(x, g) && x.nUsable + x.nErasable + x.nInvalid < RESERVE
    ensures g.gcprog < MAX_GCPROG
  {
    hide Roles, Located, Merged, Blank, Kept, Consistent, Durable, Logged, Visible, Collecting;
    if g.gcprog == MAX_GCPROG {
      SpentMeansReady(x, g);
    }
  }

  lemma GoodTables(x: State, g: Gc)
    requires Good(x, g)
    ensures |x.p2l| == N_PAS + 1 && |x.role| == BLOCKS_TOTAL
  {
    hide Roles, Located, Merged, Blank, Kept, Inverse, Counted, Durable, Logged, Visible;
  }

  lemma GoodVictim(x: State, g: Gc)
    requires Good(x, g) && g.on && g.lsa < N_LAS
    ensures Shapes(x) && PBA_DATA <= g.victim < BLOCKS_TOTAL && 0 <= g.pos < SECTORS_PER_BLOCK
    ensures 0 <= VictimPsa(g) < N_PAS && SectorAt(x.c, VictimPsa(g)) == x.vlt[g.lsa]
  {
    hide Blank, Kept, Durable, Logged, SectorAt;
    VictimSector(x, g);
  }

  lemma EraseGood(x: State, g: Gc, b: int)
    requires Good(x, g) && PBA_DATA <= b < BLOCKS_TOTAL && x.role[b] == Erasable && x.nErasable > 0
    ensures Good(EraseBlock(x, b), g)
  {
    EraseBlockKeeps(x, b);
    hide Located, Merged, Blank, Kept, Visible, Logged, Consistent, Durable;
    CollectingSame(x, EraseBlock(x, b), g);
  }

  lemma PersistGood(x: State, g: Gc)
    requires Good(x, g) && x.ipa < PAGES_PER_BLOCK
    ensures Inv(Persist(x)) && Collecting(Persist(x), g) && InOrder(x.c, x.act, x.ipa)
    ensures x.isa == SECTORS_PER_PAGE ==> Good(Persist(x), g)
  {
    PersistKeeps(x);
    hide Located, Merged, Blank, Kept, Visible, Logged, Consistent, Durable;
    CollectingSame(x, Persist(x), g);
  }

  lemma AdvanceGood(x: State, g: Gc, b: int)
    requires Inv(x) && Collecting(x, g) && x.ipa == PAGES_PER_BLOCK
    requires PBA_DATA <= b < BLOCKS_TOTAL && x.role[b] == Usable && x.nUsable > 0
    ensures Inv(Advance(x, b)) && Collecting(Advance(x, b), g)
    ensures Budget(x, g) ==> Budget(Advance(x, b), g)
  {
    AdvanceKeeps(x, b);
    hide Located, Merged, Blank, Kept, Visible, Logged, Consistent, Durable;
    CollectingSame(x, Advance(x, b), g);
  }

  lemma TentativeGood(x: State, g: Gc, b: int, p: int, page: Page, empty: Page)
    requires Good(x, g) && x.ptr == N_DELTA_PAIR && Appendable(x, b, p, page, empty, FLAG_TENTATIVE)
    ensures Good(Append(x, b, p, page, empty), g)
  {
    TentativeKeeps(x, b, p, page, empty);
    hide Located, Merged, Blank, Kept, Visible, Logged, Consistent, Durable, Put, PageFrom, BufferOk;
    CollectingSame(x, Append(x, b, p, page, empty), g);
  }

  /** A sector written costs one sector of capacity and one pair of the log. */
  lemma AssignBudget(x: State, g: Gc, lsa: Word, data: Sector)
    requires Shapes(x) && Tabled(x) && Assignable(x, lsa) && Budget(x, g)
    ensures g.wcnt < MAX_WCNT ==> Budget(Assign(x, lsa, data), Noticed(g, lsa))
    ensures g.gcprog < MAX_GCPROG ==> Budget(Assign(x, lsa, data), g.(gcprog := g.gcprog + 1, lsa := N_LAS))
  {
    hide Consistent, NextPsa, Moved, WithHalf, WithPair;
  }

  lemma WriteGood(x: State, g: Gc, lsa: Word, data: Sector)
    requires Good(x, g) && Assignable(x, lsa) && g.wcnt < MAX_WCNT
    ensures Good(Assign(x, lsa, data), Noticed(g, lsa))
  {
    hide Located, Merged, Blank, Kept, Visible, Logged, Consistent, Durable, Roles, Assign, Collecting, Budget, Noticed;
    AssignKeeps(x, lsa, data);
    AssignBudget(x, g, lsa, data);
    WriteCollecting(x, g, lsa, data);
  }

  lemma CopyGood(x: State, g: Gc, data: Sector)
    requires Good(x, g) && g.on && Assignable(x, g.lsa) && g.gcprog < MAX_GCPROG
    ensures Good(Assign(x, g.lsa, data), g.(gcprog := g.gcprog + 1, lsa := N_LAS))
  {
    hide Located, Merged, Blank, Kept, Visible, Logged, Consistent, Durable, Roles, Assign, Collecting, Budget;
    AssignKeeps(x, g.lsa, data);
    AssignBudget(x, g, g.lsa, data);
    CopyCollecting(x, g, data);
  }

  /** What giving sector lsa a place does to the collector's variables, in a copy and in a write. */
  function After(g: Gc, lsa: Word, copy: bool): Gc {
    if copy then g.(gcprog := g.gcprog + 1, lsa := N_LAS) else Noticed(g, lsa)
  }

  lemma AssignGood(x: State, g: Gc, lsa: Word, data: Sector, copy: bool)
    requires Good(x, g) && Assignable(x, lsa)
    requires if copy then g.on && lsa == g.lsa && g.gcprog < MAX_GCPROG else g.wcnt < MAX_WCNT
    ensures Shapes(x) && Tabled(x) && Good(Assign(x, lsa, data), After(g, lsa, copy))
  {
    hide Good, Assign;
    if copy {
      CopyGood(x, g, data);
    } else {
      WriteGood(x, g, lsa, data);
    }
    GoodShapes(x, g);
  }

  /** A used block with the fewest live sectors may become the victim. */
  lemma StartGood(x: State, g: Gc, victim: int)
    requires Good(x, g) && !g.on && PBA_DATA <= victim < BLOCKS_TOTAL && x.role[victim] == Used
    requires forall b :: 0 <= b < BLOCKS_TOTAL && x.role[b] == Used ==> x.vcnts[victim] <= x.vcnts[b]
    requires CountRole(x.role, BLOCKS_TOTAL, Used) >= THRESHOLD_GC
    ensures 0 <= victim * SECTORS_PER_BLOCK < N_PAS
    ensures Good(x, g.(on := true, victim := victim, pos := 0, lsa := x.p2l[victim * SECTORS_PER_BLOCK]))
  {
    hide Located, Merged, Blank, Kept, Visible, Logged, Inverse, Durable, CountRole, Pba;
    VictimBound(x.l2p, x.vcnts, x.role, victim);
    forall l | 0 <= l < N_LAS && Pba(x.l2p[l]) == victim ensures x.l2p[l] >= victim * SECTORS_PER_BLOCK {
      AddressBlock(x.l2p[l]);
    }
  }

  lemma StepGood(x: State, g: Gc)
    requires Good(x, g) && g.on && g.lsa == N_LAS && g.pos + 1 < SECTORS_PER_BLOCK
    ensures 0 <= VictimPsa(g) + 1 < N_PAS
    ensures Good(x, g.(pos := g.pos + 1, lsa := x.p2l[VictimPsa(g) + 1]))
  {
    hide Located, Merged, Blank, Kept, Visible, Logged, Consistent, Durable, Collecting;
    StepCollecting(x, g);
  }

  lemma RetireGood(x: State, g: Gc, lsa: Word)
    requires Good(x, g) && g.on && g.lsa == N_LAS && g.pos + 1 == SECTORS_PER_BLOCK && PBA_DATA <= g.victim < BLOCKS_TOTAL
    ensures Good(Retire(x, g.victim), g.(on := false, pos := 0, lsa := lsa))
  {
    hide Located, Merged, Blank, Kept, Visible, Logged, Inverse, Counted, Durable, Roles, Pba;
    VictimEmpty(x, g);
    RetireKeeps(x, g.victim);
  }

  /** The commit point ends an epoch: the emptied blocks are released and the counters start again. */
  lemma EpochGood(x: State, g: Gc)
    requires Inv(x) && Inv(Release(x)) && Collecting(x, g) && x.ipa < PAGES_PER_BLOCK && x.isa == 0 && x.ptr == 0 && x.kc == x.k
    requires x.kc <= THRESHOLD_DELTA_WB * PAGES_PER_BLOCK && x.nInvalid >= 0 && x.nUsable >= 0 && x.nErasable >= 0
    requires SIZES.Refilled(x.nUsable + x.nErasable + x.nInvalid, x.ipa)
    ensures Good(Release(x), g.(gcprog := 0, wcnt := 0))
  {
    hide Roles, Located, Merged, Blank, Kept, Visible, Logged, Consistent, Durable;
  }

  lemma SyncCollecting(x: State, t: Flags, g: Gc)
    requires Inv(x) && Inv(x.(s := t)) && Collecting(x, g)
    ensures Collecting(x.(s := t), g)
  {
    hide Roles, Located, Merged, Visible, Durable, Kept, Blank, Consistent, Logged;
    CollectingSame(x, x.(s := t), g);
  }

  lemma CommitCollecting(x: State, b: int, p: int, page: Page, empty: Page, g: Gc)
    requires Inv(x) && 0 <= b < BLOCKS_DELTA && 0 <= p < PAGES_PER_BLOCK && Inv(Commit(x, b, p, page, empty)) && Collecting(x, g)
    ensures Collecting(Commit(x, b, p, page, empty), g)
  {
    hide Roles, Located, Merged, Visible, Durable, Kept, Blank, Consistent, Logged;
    CollectingSame(x, Commit(x, b, p, page, empty), g);
  }

  lemma RewrittenCollecting(x: State, y: State, g: Gc)
    requires Inv(x) && Inv(y) && OnlyMeta(x, y) && Collecting(x, g)
    ensures Collecting(y, g)
  {
    hide Roles, Located, Merged, Visible, Durable, Kept, Blank, Consistent, Logged;
    CollectingSame(x, y, g);
  }

  // The state that recovery builds

  /** The block list holds the mapped blocks first; block act, which holds nothing, has just been erased and opened. */
  ghost predicate Opened(x: State, role: seq<Role>)
    requires |x.l2p| >= N_LAS
  {
    && |role| == BLOCKS_TOTAL && PBA_DATA <= x.act < BLOCKS_TOTAL && x.role == role[x.act := Active]
    && (forall b :: 0 <= b < PBA_DATA ==> role[b] == Reserved)
    && (forall b :: PBA_DATA <= b < BLOCKS_TOTAL ==> role[b] == if Touches(x.l2p, b) then Used else Erasable)
    && role[x.act] == Erasable
  }

  /** The merge buffer is empty, the log is empty, and the host sees the last snapshot. */
  ghost predicate Fresh(x: State) {
    && Shapes(x) && Tabled(x) && x.m == x.l2p[..N_LAS] && x.vlt == x.stb
    && x.ipa == 0 && x.isa == 0 && x.who == [N_LAS, N_LAS] && x.kc == 1 && x.k == 1 && x.ptr == 0
  }

  lemma OpenedPlaces(x: State, role: seq<Role>)
    requires Fresh(x) && Opened(x, role) && BlockErased(x.c, x.act)
    ensures Roles(x) && Located(x) && Merged(x) && Blank(x) && Kept(x)
    ensures forall l :: 0 <= l < N_LAS ==> Pba(x.l2p[l]) != x.act
  {
    hide Inverse, Counted, Pba, Ipa, Isa, Psa;
    forall l | 0 <= l < N_LAS ensures Pba(x.l2p[l]) != x.act && (x.l2p[l] < N_PAS ==> Live(x, l, x.l2p[l]) && Untouchable(x, x.m[l])) {
      PsaInRange(x.l2p[l]);
      assert Touches(x.l2p, Pba(x.l2p[l]));
      assert x.m[l] == x.l2p[l];
    }
  }

  lemma OpenedDurable(x: State, c: Image, s: Flags)
    requires Fresh(x) && Durable(c, s, x.m, x.stb) && PBA_DATA <= x.act < BLOCKS_TOTAL
    requires x.c == c[x.act := Uniform(Erased)] && x.s == s[x.act := Uniform(false)]
    requires forall l :: 0 <= l < N_LAS ==> Pba(x.l2p[l]) != x.act
    ensures Durable(x.c, x.s, x.m, x.stb) && SameMeta(c, x.c) && SameMeta(s, x.s)
  {
    hide Durable, Decodes, Inverse, Counted, Pba, Ipa, Isa;
    DurableShape(c, s, x.m, x.stb);
    forall l | 0 <= l < N_LAS
      ensures 0 <= Pba(x.m[l]) < NUM_BLOCKS && 0 <= Ipa(x.m[l]) < PAGES_PER_BLOCK
      ensures x.c[Pba(x.m[l])][Ipa(x.m[l])] == c[Pba(x.m[l])][Ipa(x.m[l])]
      ensures x.s[Pba(x.m[l])][Ipa(x.m[l])] == s[Pba(x.m[l])][Ipa(x.m[l])]
    {
      PsaInRange(x.l2p[l]);
      assert x.m[l] == x.l2p[l];
    }
    DataDurable(c, s, x.c, x.s, x.m, x.stb);
  }

  lemma OpenedLogged(x: State, c: Image, s: Flags)
    requires Fresh(x) && Durable(x.c, x.s, x.m, x.stb) && Shaped(c) && Shaped(s) && SameMeta(c, x.c) && SameMeta(s, x.s)
    requires SlotErased(c, x.slot) && Chosen(c) == 1 - x.slot && DeltaRegion(c, 1, 1) && AllMetaSynced(s) && BufferOk(x.buf, 0)
    ensures Logged(x)
  {
    hide Durable, Inverse, Counted, Decodes, DeltaRegion, BufferOk, Faithful;
    MetaCells(c, x.c);
    MetaRegion(c, x.c, 1, 1);
    DurableShape(x.c, x.s, x.m, x.stb);
    RewrittenFaithful(x.l2p, x.c, x.buf);
  }

  lemma OpenedVisible(x: State)
    requires Fresh(x) && Durable(x.c, x.s, x.m, x.stb)
    ensures Visible(x)
  {
    hide Inverse, Counted, Decodes, MetaSynced, DataSynced, SectorAt, Sound;
    forall l | 0 <= l < N_LAS ensures View(x, l) == x.vlt[l] {
      assert x.m[l] == x.l2p[l];
    }
  }

  lemma RecoveredGood(x: State, g: Gc, c: Image, s: Flags, role: seq<Role>)
    requires Fresh(x) && Opened(x, role) && Durable(c, s, x.m, x.stb)
    requires x.c == c[x.act := Uniform(Erased)] && x.s == s[x.act := Uniform(false)]
    requires SlotErased(c, x.slot) && Chosen(c) == 1 - x.slot && DeltaRegion(c, 1, 1) && AllMetaSynced(s) && BufferOk(x.buf, 0)
    requires x.nUsable == 0 && x.nInvalid == 0 && x.nErasable >= RESERVE - 1
    requires !g.on && g.gcprog == 0 && g.wcnt == 0
    ensures Good(x, g)
  {
    assert BlockErased(x.c, x.act);
    hide Durable, Consistent, SlotErased, Chosen, DeltaRegion, AllMetaSynced, BufferOk, Opened, Located, Merged,
         Roles, Blank, Kept, Logged, Visible, Pba;
    OpenedPlaces(x, role);
    OpenedDurable(x, c, s);
    OpenedLogged(x, c, s);
    OpenedVisible(x);
  }
}
