/**
 The steps of the translation layer are moves of its account: what `Sizing` proves of all runs of
 the account is about the layer.
 */
module Accounts {
  import opened Geometry
  import opened FlashDevice
  import opened Mapping
  import opened BlockManagement
  import opened Snapshot
  import opened Checkpointing
  import opened Sizing
  import opened LayerState
  import opened Collector

  ghost function AccountOf(x: State, g: Gc): Account
    requires g.on ==> 0 <= g.victim < |x.vcnts|
  {
    Account(x.nUsable + x.nErasable, x.nInvalid, x.ipa, x.isa, x.kc, x.k, x.ptr, g.wcnt, g.gcprog, g.on,
            if g.on then x.vcnts[g.victim] as int else 0)
  }

  /** The conditions are met by the sizes of the layer, and are exact for them. */
  lemma Shipped()
    ensures SIZES.Valid() && SIZES.ReserveLasts() && SIZES.CopiesLast() && SIZES.LogLasts()
    ensures SIZES.Busy(RESERVE + Whole(SIZES.Total(), SIZES.perBlock)) && SIZES.Busy(RESERVE - 1)
  {
    hide Sizes.ReserveLasts, Sizes.CopiesLast, Sizes.LogLasts;
    SIZES.ReserveLastsIff();
    SIZES.CopiesLastIff();
    SIZES.ThresholdIff();
  }

  /** Making room for a sector: the full page is programmed, into block b next if the block is full. */
  ghost function WithRoom(x: State, b: int): State
    requires Shapes(x) && x.ipa < PAGES_PER_BLOCK && PBA_DATA <= b < BLOCKS_TOTAL && Shapes(Persist(x))
  {
    if x.isa < SECTORS_PER_PAGE then x
    else if x.ipa + 1 < PAGES_PER_BLOCK then Persist(x)
    else Advance(Persist(x), b)
  }

  lemma RoomIs(x: State, b: int, g: Gc)
    requires Shapes(x) && x.ipa < PAGES_PER_BLOCK && PBA_DATA <= b < BLOCKS_TOTAL && Shapes(Persist(x))
    requires g.on ==> 0 <= g.victim < |x.vcnts|
    ensures var y := WithRoom(x, b);
            && y.vcnts == x.vcnts && y.l2p == x.l2p
            && AccountOf(y, g) == if x.isa == SECTORS_PER_PAGE then SIZES.Persisted(AccountOf(x, g)) else AccountOf(x, g)
  {
  }

  /** A sector of the victim is the only one that a write takes from it. */
  ghost predicate Hits(x: State, g: Gc, lsa: int)
    requires 0 <= lsa < |x.l2p|
  {
    g.on && Pba(x.l2p[lsa]) == g.victim
  }

  lemma VictimCount(x: State, g: Gc, lsa: Word, copy: bool)
    requires Good(x, g) && Assignable(x, lsa) && g.on && (copy ==> lsa == g.lsa)
    ensures Shapes(x) && Tabled(x) && PBA_DATA <= g.victim < BLOCKS_TOTAL && NextPsa(x) <= N_PAS && NextPsa(x) >= 0
    ensures Moved(x.vcnts, x.l2p[lsa], NextPsa(x))[g.victim] as int == x.vcnts[g.victim] as int - (if Hits(x, g, lsa) then 1 else 0)
    ensures (copy ==> Hits(x, g, lsa)) && (Hits(x, g, lsa) ==> x.vcnts[g.victim] >= 1)
  {
    hide Merged, Blank, Kept, Visible, LayerState.Logged, Durable, Counted, Moved, NextPsa, VictimPsa, Pba, Budget;
    VictimNotActive(x, g);
    CountsMoved(x, lsa, g.victim);
    if copy {
      assert x.l2p[g.lsa] == VictimPsa(g);
    }
  }

  /** Giving a sector its place and its pair, in a state with room for both, takes one of each. */
  lemma AssignIs(x: State, g: Gc, lsa: Word, data: Sector, copy: bool)
    requires Good(x, g) && Assignable(x, lsa)
    requires if copy then g.on && lsa == g.lsa && g.gcprog < MAX_GCPROG else g.wcnt < MAX_WCNT
    ensures Shapes(x) && Tabled(x) && (g.on ==> 0 <= g.victim < |x.vcnts|)
    ensures var a, m := AccountOf(x, g), if copy then Copy else Write(Hits(x, g, lsa));
            SIZES.Can(a, m) && AccountOf(Assign(x, lsa, data), After(g, lsa, copy)) == SIZES.Moved(a, m)
  {
    hide Good, Moved, NextPsa, Pba, WithHalf, WithPair;
    GoodShapes(x, g);
    if g.on {
      VictimCount(x, g, lsa, copy);
    }
  }

  /** The buffer of the log is written out if it is full. */
  ghost function WithPairRoom(x: State, b: int, p: int, page: Page, empty: Page): State
    requires Shapes(x) && 0 <= b < BLOCKS_DELTA && 0 <= p < PAGES_PER_BLOCK
  {
    if x.ptr == N_DELTA_PAIR then Append(x, b, p, page, empty) else x
  }

  lemma PairRoomIs(x: State, b: int, p: int, page: Page, empty: Page, g: Gc)
    requires Shapes(x) && 0 <= b < BLOCKS_DELTA && 0 <= p < PAGES_PER_BLOCK && (g.on ==> 0 <= g.victim < |x.vcnts|)
    ensures var y, a := WithPairRoom(x, b, p, page, empty), AccountOf(x, g);
            && y.vcnts == x.vcnts && y.l2p == x.l2p
            && AccountOf(y, g) == if x.ptr == N_DELTA_PAIR then a.(k := a.k + 1, ptr := 0) else a
  {
  }

  /** A write, or a copy, from its start to its end. */
  lemma PlaceIs(x: State, next: int, b: int, p: int, page: Page, empty: Page, g: Gc, lsa: Word, data: Sector, copy: bool)
    requires Shapes(x) && x.ipa < PAGES_PER_BLOCK && PBA_DATA <= next < BLOCKS_TOTAL && Shapes(Persist(x)) && Shapes(WithRoom(x, next))
    requires 0 <= b < BLOCKS_DELTA && 0 <= p < PAGES_PER_BLOCK
    requires var y := WithPairRoom(WithRoom(x, next), b, p, page, empty); Good(y, g) && Assignable(y, lsa)
    requires if copy then g.on && lsa == g.lsa && g.gcprog < MAX_GCPROG else g.wcnt < MAX_WCNT
    ensures var y := WithPairRoom(WithRoom(x, next), b, p, page, empty);
            && Shapes(y) && Tabled(y) && |x.l2p| > N_LAS && (g.on ==> 0 <= g.victim < |x.vcnts|)
            && var a, m := AccountOf(x, g), if copy then Copy else Write(Hits(x, g, lsa));
               SIZES.Can(a, m) && AccountOf(Assign(y, lsa, data), After(g, lsa, copy)) == SIZES.Moved(a, m)
  {
    hide Good, Assign, Pba, Put, Shapes, Inverse, Counted, WithRoom, WithPairRoom;
    var r := WithRoom(x, next);
    var y := WithPairRoom(r, b, p, page, empty);
    AssignIs(y, g, lsa, data, copy);
    RoomIs(x, next, g.(on := false));
    PairRoomIs(r, b, p, page, empty, g.(on := false));
    RoomIs(x, next, g);
    PairRoomIs(r, b, p, page, empty, g);
  }

  /** A new victim has no more sectors than the account says. */
  lemma StartIs(x: State, g: Gc, victim: int)
    requires Good(x, g) && !g.on && PBA_DATA <= victim < BLOCKS_TOTAL && x.role[victim] == Used
    requires forall b :: 0 <= b < BLOCKS_TOTAL && x.role[b] == Used ==> x.vcnts[victim] <= x.vcnts[b]
    requires CountRole(x.role, BLOCKS_TOTAL, Used) >= THRESHOLD_GC
    requires x.nUsed == CountRole(x.role, BLOCKS_TOTAL, Used) == BLOCKS_DATA - 1 - x.nUsable - x.nErasable - x.nInvalid
    ensures |x.vcnts| > victim && |x.p2l| == N_PAS + 1 && 0 <= victim * SECTORS_PER_BLOCK < N_PAS
    ensures var a, m := AccountOf(x, g), Start(x.vcnts[victim] as int);
            && SIZES.Can(a, m)
            && AccountOf(x, g.(on := true, victim := victim, pos := 0, lsa := x.p2l[victim * SECTORS_PER_BLOCK])) == SIZES.Moved(a, m)
  {
    hide Good, CountRole;
    GoodShapes(x, g);
    StartGood(x, g, victim);
    GoodVictimCount(x, g.(on := true, victim := victim, pos := 0, lsa := x.p2l[victim * SECTORS_PER_BLOCK]));
  }

  lemma GoodVictimCount(x: State, g: Gc)
    requires Good(x, g) && g.on
    ensures 0 <= g.victim < |x.vcnts| && x.vcnts[g.victim] <= VICTIM_MAX
  {
    hide Roles, Located, Merged, Blank, Kept, Inverse, Counted, Durable, LayerState.Logged, Visible, Pba, Budget;
  }

  /** A victim without sectors is retired. */
  lemma FinishIs(x: State, g: Gc, lsa: Word)
    requires Shapes(x) && g.on && 0 <= g.victim < |x.vcnts| && x.vcnts[g.victim] == 0 && PBA_DATA <= g.victim < BLOCKS_TOTAL
    ensures var a := AccountOf(x, g);
            SIZES.Can(a, Finish) && AccountOf(Retire(x, g.victim), g.(on := false, pos := 0, lsa := lsa)) == SIZES.Moved(a, Finish)
  {
  }

  /** The page that a flush writes, if there is anything on it. */
  ghost function Written(x: State, b: int): State
    requires Shapes(x) && x.ipa < PAGES_PER_BLOCK && PBA_DATA <= b < BLOCKS_TOTAL && Shapes(Persist(x))
  {
    if x.isa == 0 then x else if x.ipa + 1 < PAGES_PER_BLOCK then Persist(x) else Advance(Persist(x), b)
  }

  /** A flush settles the account: z is the state behind the commit page, or that with rewritten checkpoints. */
  lemma FlushIs(x: State, next: int, b: int, p: int, page: Page, empty: Page, z: State, g: Gc)
    requires Shapes(x) && x.ipa < PAGES_PER_BLOCK && PBA_DATA <= next < BLOCKS_TOTAL && Shapes(Persist(x)) && Shapes(Written(x, next))
    requires Tabled(Written(x, next)) && 0 <= b < BLOCKS_DELTA && 0 <= p < PAGES_PER_BLOCK && (g.on ==> 0 <= g.victim < |x.vcnts|)
    requires var y := Commit(Written(x, next), b, p, page, empty);
             if x.k + 1 > THRESHOLD_DELTA_WB * PAGES_PER_BLOCK then Shapes(y) && Shapes(z) && OnlyMeta(y, z) && z.kc == z.k == 1 && z.ptr == 0
             else z == y
    ensures |z.vcnts| == |x.vcnts| && AccountOf(Release(z), g.(gcprog := 0, wcnt := 0)) == SIZES.Moved(AccountOf(x, g), Flush)
  {
  }
}
