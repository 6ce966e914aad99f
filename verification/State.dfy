/**
 The state of the translation layer as a value, and the invariant that ties its parts
 together.  The methods of the layer are sequences of the steps below; each step is shown
 to keep the invariant.
 */
module LayerState {
  import opened Geometry
  import opened FlashDevice
  import opened Mapping
  import opened BlockManagement
  import opened Snapshot
  import opened Checkpointing

  datatype State = State(
    // the device
    c: Image, s: Flags,
    // the tables
    l2p: seq<Word>, p2l: seq<Word>, vcnts: seq<Count16>,
    // the queue of each block, and how long the queues are
    role: seq<Role>, nUsable: int, nErasable: int, nInvalid: int, nUsed: int,
    // the active page and the merge buffer
    act: int, ipa: int, isa: int, who: seq<Word>, page: Page,
    // the checkpoints: the empty slot, the committed and the written delta pages, the buffer
    slot: int, kc: int, k: int, buf: Page, ptr: int,
    // what the last commit point stored, and what the host sees
    m: seq<Word>, stb: seq<Sector>, vlt: seq<Sector>)

  /** The address that the next sector gets. */
  function NextPsa(x: State): int { Psa(x.act, x.ipa, x.isa) }

  ghost predicate Shapes(x: State) {
    && Shaped(x.c) && Shaped(x.s) && |x.role| == BLOCKS_TOTAL && |x.who| == SECTORS_PER_PAGE
    && |x.m| == N_LAS && |x.stb| == N_LAS && |x.vlt| == N_LAS
    && PBA_DATA <= x.act < BLOCKS_TOTAL && 0 <= x.ipa <= PAGES_PER_BLOCK && 0 <= x.isa <= SECTORS_PER_PAGE
    && 0 <= x.slot <= 1 && 1 <= x.kc <= x.k <= DELTA_PAGES && 0 <= x.ptr <= N_DELTA_PAIR
    && (x.ipa == PAGES_PER_BLOCK ==> x.isa == 0)
  }

  ghost predicate Roles(x: State)
    requires Shapes(x)
  {
    && (forall b :: 0 <= b < BLOCKS_TOTAL ==> (x.role[b] == Reserved <==> b < PBA_DATA))
    && (forall b :: 0 <= b < BLOCKS_TOTAL ==> (x.role[b] == Active <==> b == x.act))
  }

  ghost predicate Tabled(x: State) { Consistent(x.l2p, x.p2l, x.vcnts) }

  /** Address a is one where a live sector may be: in a used block or already written to the active one. */
  ghost predicate Live(x: State, l: int, a: Word)
    requires Shapes(x) && 0 <= a < N_PAS
  {
    0 <= Pba(a) < BLOCKS_TOTAL &&
    if Pba(a) == x.act then a < NextPsa(x) && (a >= Psa(x.act, x.ipa, 0) ==> x.who[Isa(a)] == l)
    else x.role[Pba(a)] == Used
  }

  ghost predicate Located(x: State)
    requires Shapes(x) && Tabled(x)
  {
    forall l :: 0 <= l < N_LAS && x.l2p[l] < N_PAS ==> Live(x, l, x.l2p[l])
  }

  /** The merge buffer holds the sectors of the active page, the newest copy last. */
  ghost predicate Merged(x: State)
    requires Shapes(x) && Tabled(x)
  {
    && (forall i :: 0 <= i < x.isa ==> x.who[i] < N_LAS)
    && (forall i :: x.isa <= i < SECTORS_PER_PAGE ==> x.who[i] == N_LAS)
    && (x.isa >= 1 ==> x.l2p[x.who[0]] == Psa(x.act, x.ipa, 0) || (x.isa == 2 && x.who[1] == x.who[0]))
    && (x.isa >= 2 ==> x.l2p[x.who[1]] == Psa(x.act, x.ipa, 1))
  }

  /** Blocks ready to be written are erased, and so is the rest of the active block. */
  ghost predicate Blank(x: State)
    requires Shapes(x)
  {
    && (forall b :: PBA_DATA <= b < BLOCKS_TOTAL && x.role[b] == Usable ==> BlockErased(x.c, b))
    && (forall p :: x.ipa <= p < PAGES_PER_BLOCK ==> x.c[x.act][p].Erased?)
  }

  /** The committed map only uses pages that nothing will touch before the next commit. */
  ghost predicate Untouchable(x: State, a: Word)
    requires Shapes(x) && 0 <= a < N_PAS
  {
    0 <= Pba(a) < BLOCKS_TOTAL &&
    if Pba(a) == x.act then a < Psa(x.act, x.ipa, 0) else x.role[Pba(a)] == Used || x.role[Pba(a)] == Invalid
  }

  ghost predicate Kept(x: State)
    requires Shapes(x)
  {
    forall l :: 0 <= l < N_LAS && x.m[l] < N_PAS ==> Untouchable(x, x.m[l])
  }

  ghost predicate Logged(x: State)
    requires Shapes(x) && Tabled(x)
  {
    && SlotErased(x.c, x.slot) && Chosen(x.c) == 1 - x.slot
    && DeltaRegion(x.c, x.kc, x.k) && AllMetaSynced(x.s)
    && BufferOk(x.buf, x.ptr) && Faithful(x.l2p, x.c, x.k, x.buf, x.ptr)
  }

  /** What a read of sector l returns. */
  ghost function View(x: State, l: int): Sector
    requires Shapes(x) && Tabled(x) && 0 <= l < N_LAS
  {
    if l == x.who[1] then Half(x.page, 1)
    else if l == x.who[0] then Half(x.page, 0)
    else SectorAt(x.c, x.l2p[l])
  }

  ghost predicate Visible(x: State)
    requires Shapes(x) && Tabled(x)
  {
    forall l :: 0 <= l < N_LAS ==> View(x, l) == x.vlt[l]
  }

  ghost predicate Inv(x: State) {
    && Shapes(x) && Tabled(x) && Roles(x) && Located(x) && Merged(x) && Blank(x)
    && Durable(x.c, x.s, x.m, x.stb) && Kept(x) && Logged(x) && Visible(x)
  }

  // Facts about addresses

  lemma AddressBlock(a: int)
    ensures Pba(a) * SECTORS_PER_BLOCK <= a < Pba(a) * SECTORS_PER_BLOCK + SECTORS_PER_BLOCK
  {
  }

  lemma ActiveAddress(b: int, p: int, i: int)
    requires 0 <= p <= PAGES_PER_BLOCK && 0 <= i
    ensures Psa(b, p, i) == Psa(b, p, 0) + i == b * SECTORS_PER_BLOCK + p * SECTORS_PER_PAGE + i
  {
  }

  /** Page p of block b holds exactly the two addresses from Psa(b, p, 0) on. */
  lemma PageAddresses(a: int, b: int, p: int)
    requires 0 <= p < PAGES_PER_BLOCK
    ensures (Pba(a) == b && Ipa(a) == p) <==> Psa(b, p, 0) <= a < Psa(b, p, 0) + SECTORS_PER_PAGE
    ensures Psa(b, p, 0) <= a < Psa(b, p, 0) + SECTORS_PER_PAGE ==> Isa(a) == a - Psa(b, p, 0)
  {
    PsaSplit(a);
    PsaRoundTrip(b, p, 0);
    PsaRoundTrip(b, p, 1);
    hide Pba, Ipa, Isa;
  }

  // What depends on the checkpoint blocks alone

  ghost predicate SameMeta<T(!new)>(c: seq<seq<T>>, d: seq<seq<T>>)
    requires Shaped(c) && Shaped(d)
  {
    forall b :: 0 <= b < PBA_DATA ==> d[b] == c[b]
  }

  lemma MetaCells(c: Image, d: Image)
    requires Shaped(c) && Shaped(d) && SameMeta(c, d)
    ensures forall k :: 0 <= k < DELTA_PAGES ==> DeltaCell(d, k) == DeltaCell(c, k)
    ensures Chosen(d) == Chosen(c) && Agree(c, d)
  {
    forall k | 0 <= k < DELTA_PAGES ensures DeltaCell(d, k) == DeltaCell(c, k) {
      DeltaIndex(0, 0, k);
    }
  }

  lemma MetaRegion(c: Image, d: Image, kc: int, k: int)
    requires Shaped(c) && Shaped(d) && SameMeta(c, d) && DeltaRegion(c, kc, k)
    ensures DeltaRegion(d, kc, k)
  {
    MetaCells(c, d);
    hide DeltaCell, Las;
    assert forall j :: 0 <= j < DELTA_PAGES ==> DeltaPage(d, j) == DeltaPage(c, j);
    hide DeltaPage;
  }

  lemma MetaFaithful(l2p: seq<Word>, c: Image, d: Image, k: int, buf: Page, ptr: int)
    requires |l2p| >= N_LAS && Shaped(c) && Shaped(d) && SameMeta(c, d) && 0 <= k <= DELTA_PAGES && 0 <= ptr <= N_DELTA_PAIR
    requires Faithful(l2p, c, k, buf, ptr)
    ensures Faithful(l2p, d, k, buf, ptr)
  {
    MetaCells(c, d);
    hide FullEntry, Over;
    forall l | 0 <= l < N_LAS ensures l2p[l] == Over(buf, ptr, l, Replay(d, k, l, FullEntry(d, Chosen(d), l))) {
      FullAgrees(c, d, Chosen(c), l);
      ReplayAgrees(c, d, k, l, FullEntry(c, Chosen(c), l));
    }
  }

  lemma MetaLogged(x: State, y: State)
    requires Shapes(x) && Tabled(x) && Logged(x) && Shapes(y) && Tabled(y)
    requires SameMeta(x.c, y.c) && SameMeta(x.s, y.s)
    requires y.l2p == x.l2p && y.slot == x.slot && y.kc == x.kc && y.k == x.k && y.buf == x.buf && y.ptr == x.ptr
    ensures Logged(y)
  {
    MetaCells(x.c, y.c);
    MetaRegion(x.c, y.c, x.kc, x.k);
    MetaFaithful(x.l2p, x.c, y.c, x.k, x.buf, x.ptr);
    hide Tabled, BufferOk, DeltaRegion, Faithful, Chosen;
  }

  /** Work on data pages that the committed map does not use keeps the device durable. */
  lemma DataDurable(c: Image, s: Flags, d: Image, t: Flags, m: seq<Word>, stb: seq<Sector>)
    requires Durable(c, s, m, stb) && Shaped(d) && Shaped(t) && SameMeta(c, d) && SameMeta(s, t) && InRange(m)
    requires forall l :: 0 <= l < N_LAS ==>
               && d[Pba(m[l])][Ipa(m[l])] == c[Pba(m[l])][Ipa(m[l])]
               && t[Pba(m[l])][Ipa(m[l])] == s[Pba(m[l])][Ipa(m[l])]
    ensures Durable(d, t, m, stb)
  {
    MetaCells(c, d);
    DecodesAgrees(c, d, m);
    assert MetaSynced(d, t);
    hide Decodes, Sound, MetaSynced;
    SoundInRange(m);
    forall l | 0 <= l < N_LAS ensures SectorAt(d, m[l]) == stb[l] && t[Pba(m[l])][Ipa(m[l])] {
      PsaInRange(m[l]);
    }
  }

  lemma DurableInRange(c: Image, s: Flags, m: seq<Word>, stb: seq<Sector>)
    requires Durable(c, s, m, stb)
    ensures Shaped(c) && Shaped(s) && |m| == |stb| == N_LAS && InRange(m)
  {
  }

  // Erasing the head of the erasable queue

  function EraseBlock(x: State, b: int): State
    requires Shapes(x) && PBA_DATA <= b < BLOCKS_TOTAL
  {
    x.(c := x.c[b := Uniform(Erased)], s := x.s[b := Uniform(false)], role := x.role[b := Usable],
       nUsable := x.nUsable + 1, nErasable := x.nErasable - 1)
  }

  /** Neither map uses an erasable block. */
  lemma ErasableUnused(x: State, b: int)
    requires Inv(x) && PBA_DATA <= b < BLOCKS_TOTAL && x.role[b] == Erasable
    ensures InRange(x.m) && InRange(x.l2p)
    ensures forall l :: 0 <= l < N_LAS ==> Pba(x.m[l]) != b && Pba(x.l2p[l]) != b
  {
    hide Durable, Logged, Visible, Blank, Merged, Pba, Ipa, Isa, Psa;
    DurableInRange(x.c, x.s, x.m, x.stb);
    forall l | 0 <= l < N_LAS ensures Pba(x.m[l]) != b && Pba(x.l2p[l]) != b {
      PsaInRange(x.m[l]);
      PsaInRange(x.l2p[l]);
    }
  }

  /** A page of the committed map is in no block that may be erased or opened, nor among the pages still to be programmed. */
  lemma CommittedUntouched(x: State, l: int)
    requires Inv(x) && 0 <= l < N_LAS && x.m[l] < N_PAS
    ensures var b := Pba(x.m[l]);
            && PBA_DATA <= b < BLOCKS_TOTAL && x.role[b] != Erasable && x.role[b] != Usable
            && (b == x.act ==> Ipa(x.m[l]) < x.ipa)
  {
    hide Durable, Logged, Visible, Blank, Merged, Located;
    DurableInRange(x.c, x.s, x.m, x.stb);
    PsaInRange(x.m[l]);
    PsaSplit(x.m[l]);
  }

  lemma EraseBlockDurable(x: State, b: int)
    requires Shapes(x) && Tabled(x) && InRange(x.m) && Durable(x.c, x.s, x.m, x.stb)
    requires PBA_DATA <= b < BLOCKS_TOTAL && forall l :: 0 <= l < N_LAS ==> Pba(x.m[l]) != b
    ensures var y := EraseBlock(x, b); Shapes(y) && Durable(y.c, y.s, y.m, y.stb)
  {
    hide Durable, Consistent, Pba, Ipa, Isa;
    var y := EraseBlock(x, b);
    forall l | 0 <= l < N_LAS
      ensures 0 <= Pba(x.m[l]) < NUM_BLOCKS && 0 <= Ipa(x.m[l]) < PAGES_PER_BLOCK
      ensures y.c[Pba(x.m[l])][Ipa(x.m[l])] == x.c[Pba(x.m[l])][Ipa(x.m[l])]
      ensures y.s[Pba(x.m[l])][Ipa(x.m[l])] == x.s[Pba(x.m[l])][Ipa(x.m[l])]
    {
      PsaInRange(x.m[l]);
    }
    DataDurable(x.c, x.s, y.c, y.s, x.m, x.stb);
  }

  lemma EraseBlockVisible(x: State, b: int)
    requires Shapes(x) && Tabled(x) && Visible(x)
    requires PBA_DATA <= b < BLOCKS_TOTAL && forall l :: 0 <= l < N_LAS ==> Pba(x.l2p[l]) != b
    ensures var y := EraseBlock(x, b); Shapes(y) && Tabled(y) && Visible(y)
  {
    hide Pba, Ipa, Isa, Inverse, Counted;
    var y := EraseBlock(x, b);
    forall l | 0 <= l < N_LAS ensures View(y, l) == View(x, l) {
      PsaInRange(x.l2p[l]);
    }
  }

  lemma EraseBlockPlaces(x: State, b: int)
    requires Shapes(x) && Tabled(x) && Roles(x) && Located(x) && Merged(x) && Blank(x) && Kept(x)
    requires PBA_DATA <= b < BLOCKS_TOTAL && x.role[b] == Erasable
    ensures var y := EraseBlock(x, b);
            Shapes(y) && Tabled(y) && Roles(y) && Located(y) && Merged(y) && Blank(y) && Kept(y)
  {
    hide Consistent, Pba, Ipa, Isa, Psa;
  }

  lemma EraseBlockKeeps(x: State, b: int)
    requires Inv(x) && PBA_DATA <= b < BLOCKS_TOTAL && x.role[b] == Erasable
    ensures Inv(EraseBlock(x, b))
  {
    hide Durable, Logged, Visible, Consistent, Located, Kept, Blank, Merged, Roles;
    ErasableUnused(x, b);
    EraseBlockDurable(x, b);
    EraseBlockVisible(x, b);
    EraseBlockPlaces(x, b);
    MetaLogged(x, EraseBlock(x, b));
  }

  // Writing the merge buffer to the active page

  function Persist(x: State): State
    requires Shapes(x) && x.ipa < PAGES_PER_BLOCK
  {
    x.(c := Put(x.c, x.act, x.ipa, Programmed(x.page)), s := Put(x.s, x.act, x.ipa, false),
       ipa := x.ipa + 1, isa := 0, who := [N_LAS, N_LAS])
  }

  lemma PersistDurable(x: State)
    requires Shapes(x) && Tabled(x) && InRange(x.m) && Kept(x) && Durable(x.c, x.s, x.m, x.stb) && x.ipa < PAGES_PER_BLOCK
    ensures var y := Persist(x); Durable(y.c, y.s, y.m, y.stb)
  {
    hide Durable, Consistent, Pba, Ipa, Isa, Psa;
    var y := Persist(x);
    forall l | 0 <= l < N_LAS
      ensures 0 <= Pba(x.m[l]) < NUM_BLOCKS && 0 <= Ipa(x.m[l]) < PAGES_PER_BLOCK
      ensures y.c[Pba(x.m[l])][Ipa(x.m[l])] == x.c[Pba(x.m[l])][Ipa(x.m[l])]
      ensures y.s[Pba(x.m[l])][Ipa(x.m[l])] == x.s[Pba(x.m[l])][Ipa(x.m[l])]
    {
      PsaInRange(x.m[l]);
      PageAddresses(x.m[l], x.act, x.ipa);
    }
    DataDurable(x.c, x.s, y.c, y.s, x.m, x.stb);
  }

  lemma PersistView(x: State, l: int)
    requires Shapes(x) && Tabled(x) && Located(x) && Merged(x) && x.ipa < PAGES_PER_BLOCK && 0 <= l < N_LAS
    ensures var y := Persist(x); Shapes(y) && Tabled(y) && View(y, l) == View(x, l)
  {
    hide Inverse, Counted, Pba, Ipa, Isa, Psa, Half;
    var y := Persist(x);
    PsaInRange(x.l2p[l]);
    PageAddresses(x.l2p[l], x.act, x.ipa);
    ActiveAddress(x.act, x.ipa, x.isa);
    ActiveAddress(x.act, x.ipa, 1);
  }

  lemma PersistPlaces(x: State)
    requires Shapes(x) && Tabled(x) && Roles(x) && Located(x) && Blank(x) && Kept(x) && x.ipa < PAGES_PER_BLOCK
    ensures var y := Persist(x);
            Shapes(y) && Tabled(y) && Roles(y) && Located(y) && Merged(y) && Blank(y) && Kept(y)
    ensures InOrder(x.c, x.act, x.ipa)
  {
    hide Consistent, Pba, Ipa, Isa, Psa;
    ActiveAddress(x.act, x.ipa, x.isa);
    ActiveAddress(x.act, x.ipa, 0);
    ActiveAddress(x.act, x.ipa + 1, 0);
  }

  lemma PersistKeeps(x: State)
    requires Inv(x) && x.ipa < PAGES_PER_BLOCK
    ensures Inv(Persist(x)) && InOrder(x.c, x.act, x.ipa)
  {
    hide Durable, Logged, Consistent, Located, Kept, Blank, Merged, Roles, View;
    DurableInRange(x.c, x.s, x.m, x.stb);
    PersistDurable(x);
    PersistPlaces(x);
    MetaLogged(x, Persist(x));
    forall l | 0 <= l < N_LAS ensures View(Persist(x), l) == x.vlt[l] {
      PersistView(x, l);
    }
  }

  // Moving on to the next usable block

  function Advance(x: State, b: int): State
    requires Shapes(x) && PBA_DATA <= b < BLOCKS_TOTAL
  {
    x.(role := x.role[x.act := Used][b := Active], act := b, ipa := 0,
       nUsable := x.nUsable - 1, nUsed := x.nUsed + 1)
  }

  lemma AdvancePlaces(x: State, b: int)
    requires Shapes(x) && Tabled(x) && Roles(x) && Located(x) && Merged(x) && Blank(x) && Kept(x)
    requires x.isa == 0 && PBA_DATA <= b < BLOCKS_TOTAL && x.role[b] == Usable
    ensures var y := Advance(x, b);
            Shapes(y) && Tabled(y) && Roles(y) && Located(y) && Merged(y) && Blank(y) && Kept(y)
  {
    hide Consistent, Pba, Ipa, Isa, Psa;
  }

  lemma AdvanceKeeps(x: State, b: int)
    requires Inv(x) && x.isa == 0 && PBA_DATA <= b < BLOCKS_TOTAL && x.role[b] == Usable
    ensures Inv(Advance(x, b))
  {
    hide Durable, Logged, Consistent, Located, Kept, Blank, Merged, Roles, View;
    var y := Advance(x, b);
    AdvancePlaces(x, b);
    MetaLogged(x, y);
    forall l | 0 <= l < N_LAS ensures View(y, l) == x.vlt[l] {
      SameView(x, y, l);
    }
  }

  lemma SameView(x: State, y: State, l: int)
    requires Shapes(x) && Tabled(x) && Shapes(y) && Tabled(y) && 0 <= l < N_LAS
    requires y.c == x.c && y.l2p == x.l2p && y.who == x.who && y.page == x.page
    ensures View(y, l) == View(x, l)
  {
  }

  // Giving a sector its next place

  function WithHalf(page: Page, isa: int, data: Sector): Page
    requires 0 <= isa < SECTORS_PER_PAGE
  {
    if isa == 0 then data + page[ENTRIES_PER_SECTOR..] else page[..ENTRIES_PER_SECTOR] + data
  }

  lemma HalfOf(page: Page, isa: int, data: Sector)
    requires 0 <= isa < SECTORS_PER_PAGE
    ensures Half(WithHalf(page, isa, data), isa) == data
    ensures Half(WithHalf(page, isa, data), 1 - isa) == Half(page, 1 - isa)
  {
  }

  predicate Assignable(x: State, lsa: int) {
    0 <= lsa < N_LAS && x.isa < SECTORS_PER_PAGE && x.ipa < PAGES_PER_BLOCK && x.ptr < N_DELTA_PAIR
  }

  ghost function Assign(x: State, lsa: int, data: Sector): State
    requires Shapes(x) && Tabled(x) && Assignable(x, lsa)
  {
    var psa := NextPsa(x);
    x.(l2p := x.l2p[lsa := psa], p2l := x.p2l[x.l2p[lsa] := N_LAS][psa := lsa], vcnts := Moved(x.vcnts, x.l2p[lsa], psa),
       who := x.who[x.isa := lsa], page := WithHalf(x.page, x.isa, data), isa := x.isa + 1,
       buf := WithPair(x.buf, x.ptr, lsa, psa), ptr := x.ptr + 1, vlt := x.vlt[lsa := data])
  }

  /** The next place is a data sector that nothing uses. */
  lemma NextFree(x: State)
    requires Shapes(x) && Tabled(x) && Located(x) && x.isa < SECTORS_PER_PAGE && x.ipa < PAGES_PER_BLOCK
    ensures PBA_DATA * SECTORS_PER_BLOCK <= NextPsa(x) < N_PAS && Pba(NextPsa(x)) == x.act && Isa(NextPsa(x)) == x.isa
    ensures x.p2l[NextPsa(x)] == N_LAS
  {
    hide Counted, Pba, Ipa, Isa;
    PsaRoundTrip(x.act, x.ipa, x.isa);
    ActiveAddress(x.act, x.ipa, x.isa);
    forall l | 0 <= l < N_LAS && x.l2p[l] < N_PAS ensures x.l2p[l] != NextPsa(x) {
      assert Live(x, l, x.l2p[l]);
    }
  }

  lemma AssignTables(x: State, lsa: int, data: Sector)
    requires Shapes(x) && Tabled(x) && Located(x) && Assignable(x, lsa)
    ensures Shapes(Assign(x, lsa, data)) && Tabled(Assign(x, lsa, data))
  {
    hide Consistent, Located, NextPsa, Moved;
    NextFree(x);
    RemapConsistent(x.l2p, x.p2l, x.vcnts, lsa, NextPsa(x));
  }

  lemma AssignPlaces(x: State, lsa: int, data: Sector)
    requires Shapes(x) && Tabled(x) && Located(x) && Merged(x) && Assignable(x, lsa)
    requires Shapes(Assign(x, lsa, data)) && Tabled(Assign(x, lsa, data))
    ensures Located(Assign(x, lsa, data)) && Merged(Assign(x, lsa, data))
  {
    NextFree(x);
    hide Inverse, Counted, Pba, Ipa, Isa, Psa, Moved;
    var y := Assign(x, lsa, data);
    ActiveAddress(x.act, x.ipa, x.isa);
    ActiveAddress(x.act, x.ipa, x.isa + 1);
    ActiveAddress(x.act, x.ipa, 0);
    forall l | 0 <= l < N_LAS && y.l2p[l] < N_PAS ensures Live(y, l, y.l2p[l]) {
      PageAddresses(y.l2p[l], x.act, x.ipa);
      if l != lsa {
        assert Live(x, l, x.l2p[l]);
      }
    }
  }

  lemma AssignView(x: State, lsa: int, data: Sector, l: int)
    requires Shapes(x) && Tabled(x) && Located(x) && Merged(x) && Assignable(x, lsa) && 0 <= l < N_LAS
    requires Shapes(Assign(x, lsa, data)) && Tabled(Assign(x, lsa, data))
    ensures View(Assign(x, lsa, data), l) == if l == lsa then data else View(x, l)
  {
    hide Inverse, Counted, Located, NextPsa, Moved, Half, WithHalf, SectorAt;
    HalfOf(x.page, x.isa, data);
  }

  lemma AssignLogged(x: State, lsa: int, data: Sector)
    requires Shapes(x) && Tabled(x) && Located(x) && Logged(x) && Assignable(x, lsa)
    requires Shapes(Assign(x, lsa, data)) && Tabled(Assign(x, lsa, data))
    ensures Logged(Assign(x, lsa, data))
  {
    hide Inverse, Counted, Located, Moved, SlotErased, DeltaRegion, AllMetaSynced, Chosen, Replay, FullEntry, Las, Pas;
    NextFree(x);
    var y := Assign(x, lsa, data);
    AppendedPair(x.buf, x.ptr, lsa, NextPsa(x));
    forall l | 0 <= l < N_LAS ensures y.l2p[l] == Over(y.buf, y.ptr, l, Replay(x.c, x.k, l, FullEntry(x.c, Chosen(x.c), l))) {
      OverSame(x.buf, y.buf, x.ptr, l, Replay(x.c, x.k, l, FullEntry(x.c, Chosen(x.c), l)));
    }
  }

  lemma AssignKeeps(x: State, lsa: int, data: Sector)
    requires Inv(x) && Assignable(x, lsa)
    ensures Inv(Assign(x, lsa, data))
  {
    hide Durable, Logged, Consistent, Located, Merged, View, NextPsa, Moved, WithHalf, WithPair;
    var y := Assign(x, lsa, data);
    AssignTables(x, lsa, data);
    AssignPlaces(x, lsa, data);
    AssignLogged(x, lsa, data);
    forall l | 0 <= l < N_LAS ensures View(y, l) == y.vlt[l] {
      AssignView(x, lsa, data, l);
    }
    hide Psa, Pba;
  }

  // Steps on the checkpoint blocks

  /** Such a step changes the checkpoint blocks and the description of them, and nothing else. */
  ghost predicate OnlyMeta(x: State, y: State)
    requires Shapes(x) && Shapes(y)
  {
    && y == x.(c := y.c, s := y.s, slot := y.slot, kc := y.kc, k := y.k, buf := y.buf, ptr := y.ptr)
    && SameData(x.c, y.c)
  }

  lemma OnlyMetaVisible(x: State, y: State)
    requires Shapes(x) && Shapes(y) && OnlyMeta(x, y) && Tabled(x) && Visible(x)
    ensures Tabled(y) && Visible(y)
  {
    hide Inverse, Counted, Pba, Ipa, Isa;
    forall l | 0 <= l < N_LAS ensures View(y, l) == View(x, l) {
      PsaInRange(x.l2p[l]);
    }
  }

  lemma OnlyMetaKeeps(x: State, y: State)
    requires Inv(x) && Shapes(y) && OnlyMeta(x, y)
    requires Durable(y.c, y.s, y.m, y.stb) && Tabled(y) && Logged(y)
    ensures Inv(y)
  {
    hide Durable, Logged, Visible, Consistent, Pba, Ipa, Isa, Psa;
    OnlyMetaVisible(x, y);
    assert SameData(x.c, y.c);
  }

  /** A page with the pairs of the buffer and a flag. */
  ghost predicate PageFrom(page: Page, buf: Page, flag: Word) {
    && page[OFFSET_COMMIT] == flag
    && forall i :: 0 <= i < N_DELTA_PAIR ==> Las(page, i) == Las(buf, i) && Pas(page, i) == Pas(buf, i)
  }

  /** The buffer goes to delta page (b, p) and starts again empty. */
  ghost function Append(x: State, b: int, p: int, page: Page, empty: Page): State
    requires Shapes(x) && 0 <= b < BLOCKS_DELTA && 0 <= p < PAGES_PER_BLOCK
  {
    x.(c := Put(x.c, b, p, Programmed(page)), s := Put(x.s, b, p, true), k := x.k + 1, buf := empty, ptr := 0)
  }

  ghost predicate Appendable(x: State, b: int, p: int, page: Page, empty: Page, flag: Word)
    requires Shapes(x)
  {
    && 0 <= b < BLOCKS_DELTA && 0 <= p < PAGES_PER_BLOCK && x.k == b * PAGES_PER_BLOCK + p
    && PageFrom(page, x.buf, flag) && BufferOk(empty, 0)
  }

  /** The state with the full buffer written out can take one more pair. */
  ghost predicate Appended(x: State, b: int, p: int, page: Page, empty: Page)
    requires Shapes(x) && 0 <= b < BLOCKS_DELTA && 0 <= p < PAGES_PER_BLOCK
  {
    var y := Append(x, b, p, page, empty);
    Shapes(y) && Tabled(y) && (forall lsa :: Assignable(x.(ptr := 0), lsa) ==> Assignable(y, lsa))
  }

  lemma AppendedShapes(x: State, b: int, p: int, page: Page, empty: Page)
    requires Shapes(x) && Tabled(x) && Appendable(x, b, p, page, empty, FLAG_TENTATIVE) && x.k < DELTA_PAGES
    ensures Appended(x, b, p, page, empty) && NextPsa(Append(x, b, p, page, empty)) == NextPsa(x)
  {
    hide Consistent, PageFrom, BufferOk;
  }

  lemma AppendSlots(x: State, b: int, p: int, page: Page)
    requires Shapes(x) && Tabled(x) && Logged(x) && 0 <= b < BLOCKS_DELTA && 0 <= p < PAGES_PER_BLOCK
    ensures var d, t := Put(x.c, b, p, Programmed(page)), Put(x.s, b, p, true);
            && SlotErased(d, x.slot) && Chosen(d) == 1 - x.slot && AllMetaSynced(t)
            && SameData(x.c, d) && SameData(x.s, t) && MetaSynced(d, t)
  {
    hide Tabled, DeltaRegion, Faithful, BufferOk;
  }

  lemma AppendPage(x: State, b: int, p: int, page: Page, empty: Page, flag: Word)
    requires Shapes(x) && Tabled(x) && Logged(x) && Appendable(x, b, p, page, empty, flag)
    ensures Faithful(x.l2p, x.c, x.k, page, N_DELTA_PAIR)
    ensures forall i :: 0 <= i < N_DELTA_PAIR ==> Las(page, i) <= N_LAS
  {
    hide Inverse, Counted, SlotErased, AllMetaSynced, DeltaRegion, Chosen, Las, Pas;
    FaithfulPadding(x.l2p, x.c, x.k, x.buf, x.ptr, page);
  }

  lemma AppendLogged(x: State, b: int, p: int, page: Page, empty: Page, flag: Word)
    requires Shapes(x) && Tabled(x) && Logged(x) && Appendable(x, b, p, page, empty, flag)
    requires flag == FLAG_COMMITTED || flag == FLAG_TENTATIVE
    ensures var y := Append(x, b, p, page, empty).(kc := if flag == FLAG_COMMITTED then x.k + 1 else x.kc);
            Shapes(y) && Tabled(y) && Logged(y)
    ensures InOrder(x.c, b, p)
  {
    hide Inverse, Counted, SlotErased, AllMetaSynced, MetaSynced, SameData, DeltaRegion, Faithful, Chosen, Las, Pas,
         Put, BufferOk;
    AppendPage(x, b, p, page, empty, flag);
    AppendSlots(x, b, p, page);
    AppendKeepsRegion(x.c, x.kc, b, p, page);
    AppendFaithful(x.c, b, p, page, x.l2p, empty);
  }

  /** A full buffer becomes a tentative page. */
  lemma TentativeKeeps(x: State, b: int, p: int, page: Page, empty: Page)
    requires Inv(x) && Appendable(x, b, p, page, empty, FLAG_TENTATIVE)
    ensures Inv(Append(x, b, p, page, empty))
  {
    hide Durable, Visible, Consistent, Located, Kept, Blank, Merged, Roles, Las, Pas, Put;
    var y := Append(x, b, p, page, empty);
    AppendLogged(x, b, p, page, empty, FLAG_TENTATIVE);
    AppendPage(x, b, p, page, empty, FLAG_TENTATIVE);
    AppendSlots(x, b, p, page);
    DurableShape(x.c, x.s, x.m, x.stb);
    AppendTentative(x.c, x.kc, b, p, page, x.m);
    DurableMeta(x.c, x.s, y.c, y.s, x.m, x.stb);
    hide Logged;
    OnlyMetaKeeps(x, y);
  }

  // The commit point

  ghost function Commit(x: State, b: int, p: int, page: Page, empty: Page): State
    requires Shapes(x) && Tabled(x) && 0 <= b < BLOCKS_DELTA && 0 <= p < PAGES_PER_BLOCK
  {
    Append(x, b, p, page, empty).(kc := x.k + 1, m := x.l2p[..N_LAS], stb := x.vlt)
  }

  lemma {:induction false} TouchedPrefix(l2p: seq<Word>, n: nat)
    requires |l2p| >= N_LAS
    ensures TouchedBlocks(l2p[..N_LAS], n) == TouchedBlocks(l2p, n)
  {
    if n > PBA_DATA {
      TouchedPrefix(l2p, n - 1);
      assert Touches(l2p[..N_LAS], n - 1) == Touches(l2p, n - 1) by {
        if l :| 0 <= l < N_LAS && Pba(l2p[l]) == n - 1 {
          assert l2p[..N_LAS][l] == l2p[l];
        }
      }
    }
  }

  lemma TablesSound(x: State)
    requires Tabled(x) && TouchedBlocks(x.l2p, BLOCKS_TOTAL) <= BLOCKS_DATA - RESERVE
    ensures Sound(x.l2p[..N_LAS])
  {
    hide Counted, TouchedBlocks;
    TouchedPrefix(x.l2p, BLOCKS_TOTAL);
    InverseIsInjective(x.l2p, x.p2l);
  }

  /** With an empty merge buffer and a synced device, what the host sees is on the device. */
  lemma CommitContents(x: State, d: Image, t: Flags)
    requires Shapes(x) && Tabled(x) && Merged(x) && Visible(x) && x.isa == 0
    requires Shaped(d) && Shaped(t) && SameData(x.c, d) && SameData(x.s, t) && AllSynced(x.s)
    ensures forall l :: 0 <= l < N_LAS ==> SectorAt(d, x.l2p[l]) == x.vlt[l]
    ensures DataSynced(t, x.l2p)
  {
    hide Inverse, Counted, Pba, Ipa, Isa, Half;
    forall l | 0 <= l < N_LAS
      ensures SectorAt(d, x.l2p[l]) == x.vlt[l]
      ensures 0 <= Pba(x.l2p[l]) < NUM_BLOCKS && 0 <= Ipa(x.l2p[l]) < PAGES_PER_BLOCK && t[Pba(x.l2p[l])][Ipa(x.l2p[l])]
    {
      PsaInRange(x.l2p[l]);
      assert View(x, l) == x.vlt[l];
    }
  }

  lemma CommitDurable(x: State, b: int, p: int, page: Page, empty: Page)
    requires Inv(x) && Appendable(x, b, p, page, empty, FLAG_COMMITTED)
    requires x.isa == 0 && AllSynced(x.s) && TouchedBlocks(x.l2p, BLOCKS_TOTAL) <= BLOCKS_DATA - RESERVE
    ensures var y := Commit(x, b, p, page, empty); Durable(y.c, y.s, y.m, y.stb)
  {
    hide Durable, Located, Kept, Blank, Roles, Merged, Visible, Inverse, Counted, Las, Pas, Put, Decodes, Sound,
         MetaSynced, TouchedBlocks;
    var y := Commit(x, b, p, page, empty);
    AppendPage(x, b, p, page, empty, FLAG_COMMITTED);
    AppendSlots(x, b, p, page);
    AppendCommitted(x.c, x.kc, b, p, page, x.l2p);
    TablesSound(x);
    CommitContents(x, y.c, y.s);
    hide Logged, SectorAt, Pba, Ipa;
    DurableFrom(y);
  }

  lemma DurableFrom(y: State)
    requires Shapes(y) && Decodes(y.c, y.m) && Sound(y.m) && MetaSynced(y.c, y.s) && InRange(y.m)
    requires forall l :: 0 <= l < N_LAS ==> SectorAt(y.c, y.m[l]) == y.stb[l]
    requires DataSynced(y.s, y.m)
    ensures Durable(y.c, y.s, y.m, y.stb)
  {
  }

  lemma CommitKept(x: State, b: int, p: int, page: Page, empty: Page)
    requires Shapes(x) && Tabled(x) && Located(x) && x.isa == 0 && Appendable(x, b, p, page, empty, FLAG_COMMITTED)
    ensures Shapes(Commit(x, b, p, page, empty)) && Kept(Commit(x, b, p, page, empty))
  {
    hide Inverse, Counted, Pba, Ipa, Isa, Psa;
    var y := Commit(x, b, p, page, empty);
    forall l | 0 <= l < N_LAS && y.m[l] < N_PAS ensures Untouchable(y, y.m[l]) {
      assert Live(x, l, x.l2p[l]);
    }
  }

  /** A committed page makes everything that was written so far permanent, in one step. */
  lemma CommitKeeps(x: State, b: int, p: int, page: Page, empty: Page)
    requires Inv(x) && Appendable(x, b, p, page, empty, FLAG_COMMITTED)
    requires x.isa == 0 && AllSynced(x.s) && TouchedBlocks(x.l2p, BLOCKS_TOTAL) <= BLOCKS_DATA - RESERVE
    ensures Inv(Commit(x, b, p, page, empty)) && InOrder(x.c, b, p)
  {
    hide Durable, Consistent, Las, Pas, Visible, Logged, Kept, Merged, Located, Roles;
    var y := Commit(x, b, p, page, empty);
    CommitDurable(x, b, p, page, empty);
    CommitKept(x, b, p, page, empty);
    AppendLogged(x, b, p, page, empty, FLAG_COMMITTED);
    AppendSlots(x, b, p, page);
    var z := y.(m := x.m, stb := x.stb);
    OnlyMetaVisible(x, z);
    CommitPlaces(x, y, z);
  }

  lemma CommitPlaces(x: State, y: State, z: State)
    requires Shapes(x) && Tabled(x) && Roles(x) && Located(x) && Merged(x) && Blank(x)
    requires Shapes(z) && OnlyMeta(x, z) && Tabled(z) && Visible(z) && Logged(z)
    requires Shapes(y) && z == y.(m := x.m, stb := x.stb)
    ensures Tabled(y) && Roles(y) && Located(y) && Merged(y) && Blank(y) && Visible(y) && Logged(y)
  {
    hide Consistent, Pba, Ipa, Isa, Psa, Faithful, DeltaRegion, SlotErased, BufferOk, AllMetaSynced;
    forall l | 0 <= l < N_LAS ensures View(y, l) == View(z, l) {
    }
    assert SameData(x.c, y.c);
  }

  // After the commit point the emptied blocks may be erased

  function Release(x: State): State {
    x.(role := Released(x.role), nErasable := x.nErasable + x.nInvalid, nInvalid := 0)
  }

  lemma ReleasePlaces(x: State)
    requires Shapes(x) && Tabled(x) && Roles(x) && Located(x) && Merged(x) && Blank(x)
    requires x.isa == 0 && x.m == x.l2p[..N_LAS]
    ensures var y := Release(x);
            Shapes(y) && Tabled(y) && Roles(y) && Located(y) && Merged(y) && Blank(y) && Kept(y)
  {
    hide Inverse, Counted, Pba, Ipa, Isa, Psa;
    var y := Release(x);
    forall l | 0 <= l < N_LAS && y.m[l] < N_PAS ensures Untouchable(y, y.m[l]) {
      assert Live(x, l, x.l2p[l]);
    }
  }

  lemma ReleaseKeeps(x: State)
    requires Inv(x) && x.isa == 0 && x.m == x.l2p[..N_LAS]
    ensures Inv(Release(x))
  {
    hide Durable, Logged, Consistent, Located, Kept, Blank, Merged, Roles, View;
    var y := Release(x);
    ReleasePlaces(x);
    MetaLogged(x, y);
    forall l | 0 <= l < N_LAS ensures View(y, l) == x.vlt[l] {
      SameView(x, y, l);
    }
  }

  // Syncing the device

  lemma SyncKeeps(x: State, t: Flags)
    requires Inv(x) && Shaped(t) && AllSynced(t)
    ensures Inv(x.(s := t))
  {
    hide Located, Merged, Roles, Visible, Durable, Kept, Blank, Consistent, Faithful, DeltaRegion, SlotErased, BufferOk;
    var y := x.(s := t);
    DurableSynced(x.c, x.s, t, x.m, x.stb);
    assert AllMetaSynced(t) && Logged(y);
    hide Logged;
    OnlyMetaKeeps(x, y);
  }

  // After the full checkpoint is replaced

  /** With the map in the full checkpoint and no pairs in the log, the log is faithful. */
  lemma RewrittenFaithful(l2p: seq<Word>, c: Image, buf: Page)
    requires |l2p| >= N_LAS && Shaped(c) && DeltaRegion(c, 1, 1) && Decodes(c, l2p[..N_LAS])
    ensures Faithful(l2p, c, 1, buf, 0)
  {
    RegionBound(c, 1, 1);
    hide DeltaRegion, Replay, FullEntry, Bound, LogInRange;
    forall l | 0 <= l < N_LAS ensures l2p[l] == Over(buf, 0, l, Replay(c, 1, l, FullEntry(c, Chosen(c), l))) {
      DecodeIs(c, l);
      assert l2p[..N_LAS][l] == l2p[l];
    }
  }

  lemma RewrittenKeeps(x: State, y: State)
    requires Inv(x) && x.m == x.l2p[..N_LAS] && Shapes(y) && OnlyMeta(x, y)
    requires y.kc == 1 && y.k == 1 && y.ptr == 0 && BufferOk(y.buf, 0) && AllMetaSynced(y.s)
    requires Durable(y.c, y.s, y.m, y.stb) && SlotErased(y.c, y.slot) && Chosen(y.c) == 1 - y.slot && DeltaRegion(y.c, 1, 1)
    ensures Inv(y)
  {
    hide Located, Merged, Roles, Visible, Durable, Kept, Blank, Inverse, Counted, DeltaRegion, SlotErased, BufferOk, Decodes;
    DurableShape(y.c, y.s, y.m, y.stb);
    RewrittenFaithful(y.l2p, y.c, y.buf);
    hide Faithful;
    OnlyMetaKeeps(x, y);
  }

  /** What a flush needs of the state. */
  lemma InvLog(x: State)
    requires Inv(x)
    ensures Shapes(x) && Tabled(x) && Durable(x.c, x.s, x.m, x.stb) && DeltaRegion(x.c, x.kc, x.k) && BufferOk(x.buf, x.ptr)
    ensures SlotErased(x.c, x.slot) && Chosen(x.c) == 1 - x.slot
  {
    hide Located, Merged, Roles, Visible, Durable, Kept, Blank, Consistent, Faithful, DeltaRegion, SlotErased, BufferOk;
  }

  /** No live sector is in a ready block. */
  lemma InvReady(x: State)
    requires Inv(x)
    requires CountRole(x.role, BLOCKS_TOTAL, Usable) + CountRole(x.role, BLOCKS_TOTAL, Erasable)
             + CountRole(x.role, BLOCKS_TOTAL, Invalid) >= RESERVE
    ensures |x.l2p| >= N_LAS && TouchedBlocks(x.l2p, BLOCKS_TOTAL) <= BLOCKS_DATA - RESERVE
  {
    hide Merged, Visible, Durable, Kept, Blank, Inverse, Counted, Logged, CountRole, Pba, Psa, Isa, TouchedBlocks;
    forall b | PBA_DATA <= b < BLOCKS_TOTAL && x.role[b].Ready() ensures !Touches(x.l2p, b) {
      forall l | 0 <= l < N_LAS ensures Pba(x.l2p[l]) != b {
        PsaInRange(x.l2p[l]);
      }
    }
    TouchedAtMost(x.l2p, x.role, BLOCKS_TOTAL);
  }

  lemma DurableSound(c: Image, s: Flags, m: seq<Word>, stb: seq<Sector>)
    requires Durable(c, s, m, stb)
    ensures |m| == N_LAS && |stb| == N_LAS && Sound(m)
  {
  }

  /** A sound map is sound whatever its sink slot holds. */
  lemma SoundWhole(l2p: seq<Word>, m: seq<Word>)
    requires |l2p| == N_LAS + 1 && |m| == N_LAS && l2p[..N_LAS] == m && Sound(m)
    ensures InRange(l2p) && Injective(l2p) && TouchedBlocks(l2p, BLOCKS_TOTAL) <= BLOCKS_DATA - RESERVE
  {
    hide TouchedBlocks;
    TouchedPrefix(l2p, BLOCKS_TOTAL);
    assert forall l :: 0 <= l < N_LAS ==> l2p[l] == m[l];
  }

  // The formatted device

  function OnesSector(): Sector { seq(ENTRIES_PER_SECTOR, _ => ONES) }

  lemma {:induction false} NothingTouched(m: seq<Word>, n: nat)
    requires |m| >= N_LAS && n <= BLOCKS_TOTAL && forall l :: 0 <= l < N_LAS ==> m[l] == N_PAS
    ensures TouchedBlocks(m, n) == 0
  {
    if n > PBA_DATA {
      NothingTouched(m, n - 1);
    }
  }

  lemma FormattedDurable(c: Image, s: Flags, m: seq<Word>, stb: seq<Sector>)
    requires Shaped(c) && Shaped(s) && AllSynced(s) && |m| == N_LAS && |stb| == N_LAS
    requires forall l :: 0 <= l < N_LAS ==> m[l] == N_PAS && stb[l] == OnesSector()
    requires c[PBA_DELTA][0].Erased? && Contents(c[PBA_FIRST_FULL_COMMIT][0])[0] == 0 && HoldsFull(c, 0, m)
    requires Contents(c[BLOCKS_TOTAL][0]) == seq(ENTRIES_PER_PAGE, _ => ONES)
    ensures Durable(c, s, m, stb)
  {
    assert FirstErased(c) && Chosen(c) == 0;
    DropLog(c, m);
    hide HoldsFull, Decodes, TouchedBlocks;
    NothingTouched(m, BLOCKS_TOTAL);
    assert Sound(m) && MetaSynced(c, s);
    PsaRoundTrip(BLOCKS_TOTAL, 0, 0);
    hide Pba, Ipa, Isa, Sound, MetaSynced;
    assert SectorAt(c, N_PAS) == OnesSector();
  }

  lemma FormattedFull(c: Image, l2p: seq<Word>)
    requires Shaped(c) && |l2p| == N_LAS + 1 && forall l :: 0 <= l <= N_LAS ==> l2p[l] == N_PAS
    requires forall p :: 0 <= p < PAGES_PER_BLOCK ==> c[PBA_FIRST_FULL][p] == Programmed(Flash.Slice(l2p, 0, p))
    ensures HoldsFull(c, 0, seq(N_LAS, _ => N_PAS))
  {
    hide FullEntry;
    forall p | 0 <= p < PAGES_PER_BLOCK ensures Contents(c[FullBlock(0)][p]) == PageOf(l2p, p) {
      assert Contents(c[FullBlock(0)][p]) == Flash.Slice(l2p, 0, p);
    }
    FullFromPages(c, 0, l2p);
  }

  lemma SentinelDurable(c: Image, s: Flags, m: seq<Word>, stb: seq<Sector>)
    requires Shaped(c) && Shaped(s) && AllSynced(s) && |m| == N_LAS && |stb| == N_LAS
    requires forall l :: 0 <= l < N_LAS ==> m[l] == N_PAS && stb[l] == OnesSector()
    requires HoldsFull(c, 0, m) && Contents(c[PBA_FIRST_FULL_COMMIT][0])[0] == 0 && c[PBA_DELTA][0].Erased?
    ensures var d := Put(c, BLOCKS_TOTAL, 0, Programmed(seq(ENTRIES_PER_PAGE, _ => ONES)));
            Durable(d, Put(s, BLOCKS_TOTAL, 0, true), m, stb)
  {
    hide Durable, HoldsFull;
    var d := Put(c, BLOCKS_TOTAL, 0, Programmed(seq(ENTRIES_PER_PAGE, _ => ONES)));
    KeepsFull(c, d, 0, m);
    FormattedDurable(d, Put(s, BLOCKS_TOTAL, 0, true), m, stb);
  }
}
