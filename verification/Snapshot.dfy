/**
 What a flash image means: which map and which sector contents recovery will find in it.
 The full checkpoint is chosen by the first commit record alone; the delta pages up to the
 last committed one are then replayed on it, unless the first delta page is erased, in
 which case none is.
 */
module Snapshot {
  import opened Geometry
  import opened FlashDevice
  import opened Mapping

  function FullBlock(slot: int): int { if slot == 0 then PBA_FIRST_FULL else PBA_SECOND_FULL }
  function CommitBlock(slot: int): int { FullBlock(slot) + BLOCKS_FULL }

  /** The k-th page of the delta region. */
  function DeltaCell(c: Image, k: int): Cell
    requires Shaped(c) && 0 <= k < DELTA_PAGES
  {
    c[k / PAGES_PER_BLOCK][k % PAGES_PER_BLOCK]
  }

  function DeltaPage(c: Image, k: int): Page
    requires Shaped(c) && 0 <= k < DELTA_PAGES
  {
    Contents(DeltaCell(c, k))
  }

  /** Entry l of the full checkpoint in a slot. */
  function FullEntry(c: Image, slot: int, l: int): Word
    requires Shaped(c) && 0 <= l <= N_LAS
  {
    EntrySplit(l);
    Contents(c[FullBlock(slot) + EntryBlock(l)][EntryPage(l)])[EntryWord(l)]
  }

  /** The slot that recovery reads: the second one is used only when the first is not committed. */
  function Chosen(c: Image): int
    requires Shaped(c)
  {
    if Contents(c[PBA_FIRST_FULL_COMMIT][0])[0] == 0 then 0 else 1
  }

  predicate FirstErased(c: Image)
    requires Shaped(c)
  {
    Contents(c[PBA_DELTA][0])[OFFSET_COMMIT] != FLAG_COMMITTED && Contents(c[PBA_DELTA][0])[OFFSET_COMMIT] != FLAG_TENTATIVE
  }

  /** One past the last committed page among the first k delta pages. */
  ghost function CommittedUpTo(c: Image, k: nat): nat
    requires Shaped(c) && k <= DELTA_PAGES
    ensures CommittedUpTo(c, k) <= k
  {
    if k == 0 then 0
    else if DeltaPage(c, k - 1)[OFFSET_COMMIT] == FLAG_COMMITTED then k
    else CommittedUpTo(c, k - 1)
  }

  /** How many delta pages recovery replays. */
  ghost function Bound(c: Image): nat
    requires Shaped(c)
    ensures Bound(c) <= DELTA_PAGES
  {
    if FirstErased(c) then 0 else CommittedUpTo(c, DELTA_PAGES)
  }

  /** The i-th pair of a delta page. */
  function Las(page: Page, i: int): Word
    requires 0 <= i < N_DELTA_PAIR
  {
    page[OFFSET_LAS + i]
  }

  function Pas(page: Page, i: int): Word
    requires 0 <= i < N_DELTA_PAIR
  {
    page[OFFSET_PAS + i]
  }

  /** Where the first n pairs of a page send l, starting from base. */
  ghost function Over(page: Page, n: nat, l: int, base: Word): Word
    requires n <= N_DELTA_PAIR
  {
    if n == 0 then base
    else if Las(page, n - 1) == l then Pas(page, n - 1)
    else Over(page, n - 1, l, base)
  }

  /** Where the first k delta pages send l, starting from base. */
  ghost function Replay(c: Image, k: nat, l: int, base: Word): Word
    requires Shaped(c) && k <= DELTA_PAGES
  {
    if k == 0 then base else Over(DeltaPage(c, k - 1), N_DELTA_PAIR, l, Replay(c, k - 1, l, base))
  }

  /** The map that recovery reads from an image. */
  ghost function DecodeAt(c: Image, l: int): Word
    requires Shaped(c) && 0 <= l < N_LAS
  {
    Replay(c, Bound(c), l, FullEntry(c, Chosen(c), l))
  }

  /** Replaying never indexes outside the map. */
  ghost predicate LogInRange(c: Image)
    requires Shaped(c)
  {
    forall k, i :: 0 <= k < Bound(c) && 0 <= i < N_DELTA_PAIR ==> Las(DeltaPage(c, k), i) <= N_LAS
  }

  ghost predicate Decodes(c: Image, m: seq<Word>)
    requires Shaped(c)
  {
    && |m| == N_LAS && LogInRange(c)
    && forall l :: 0 <= l < N_LAS ==> DecodeAt(c, l) == m[l]
  }

  // Replaying

  /** Entries past the n-th that name no sector change nothing. */
  lemma {:induction false} OverPadding(page: Page, n: nat, m: nat, l: int, base: Word)
    requires n <= m <= N_DELTA_PAIR && l < N_LAS
    requires forall i :: n <= i < m ==> Las(page, i) == N_LAS
    ensures Over(page, m, l, base) == Over(page, n, l, base)
  {
    if n < m {
      OverPadding(page, n, m - 1, l, base);
    }
  }

  lemma {:induction false} OverSame(p: Page, q: Page, n: nat, l: int, base: Word)
    requires n <= N_DELTA_PAIR
    requires forall i :: 0 <= i < n ==> Las(p, i) == Las(q, i) && Pas(p, i) == Pas(q, i)
    ensures Over(p, n, l, base) == Over(q, n, l, base)
  {
    if n > 0 {
      OverSame(p, q, n - 1, l, base);
    }
  }

  /** A page either sends l somewhere fixed or leaves it alone. */
  lemma {:induction false} OverBinds(page: Page, n: nat, l: int, x: Word, y: Word)
    requires n <= N_DELTA_PAIR
    ensures (Over(page, n, l, x) == x && Over(page, n, l, y) == y) || Over(page, n, l, x) == Over(page, n, l, y)
  {
    if n > 0 {
      OverBinds(page, n - 1, l, x, y);
    }
  }

  lemma {:induction false} ReplayBinds(c: Image, k: nat, l: int, x: Word, y: Word)
    requires Shaped(c) && k <= DELTA_PAGES
    ensures (Replay(c, k, l, x) == x && Replay(c, k, l, y) == y) || Replay(c, k, l, x) == Replay(c, k, l, y)
  {
    if k > 0 {
      ReplayBinds(c, k - 1, l, x, y);
      OverBinds(DeltaPage(c, k - 1), N_DELTA_PAIR, l, Replay(c, k - 1, l, x), Replay(c, k - 1, l, y));
    }
  }

  /** Replaying a log on a map that already reflects it changes nothing. */
  lemma ReplayIdempotent(c: Image, k: nat, l: int, x: Word)
    requires Shaped(c) && k <= DELTA_PAGES
    ensures Replay(c, k, l, Replay(c, k, l, x)) == Replay(c, k, l, x)
  {
    ReplayBinds(c, k, l, x, Replay(c, k, l, x));
  }

  lemma {:induction false} ReplayAgrees(c: Image, d: Image, k: nat, l: int, base: Word)
    requires Shaped(c) && Shaped(d) && k <= DELTA_PAGES
    requires forall j :: 0 <= j < k ==> DeltaPage(c, j) == DeltaPage(d, j)
    ensures Replay(c, k, l, base) == Replay(d, k, l, base)
  {
    if k > 0 {
      ReplayAgrees(c, d, k - 1, l, base);
    }
  }

  lemma {:induction false} CommittedAgrees(c: Image, d: Image, k: nat)
    requires Shaped(c) && Shaped(d) && k <= DELTA_PAGES
    requires forall j :: 0 <= j < k ==> DeltaPage(c, j) == DeltaPage(d, j)
    ensures CommittedUpTo(c, k) == CommittedUpTo(d, k)
  {
    if k > 0 {
      CommittedAgrees(c, d, k - 1);
    }
  }

  /** Pages past the last committed one do not count. */
  lemma {:induction false} CommittedIs(c: Image, kc: nat, k: nat)
    requires Shaped(c) && 0 < kc <= k <= DELTA_PAGES
    requires DeltaPage(c, kc - 1)[OFFSET_COMMIT] == FLAG_COMMITTED
    requires forall j :: kc <= j < k ==> DeltaPage(c, j)[OFFSET_COMMIT] != FLAG_COMMITTED
    ensures CommittedUpTo(c, k) == kc
  {
    if k > kc {
      CommittedIs(c, kc, k - 1);
    }
  }

  // Which pages an image's meaning depends on

  /** d has the same pages as c wherever recovery from c would look. */
  ghost predicate Agree(c: Image, d: Image)
    requires Shaped(c) && Shaped(d)
  {
    && Chosen(d) == Chosen(c)
    && d[PBA_DELTA][0] == c[PBA_DELTA][0]
    && (forall p :: 0 <= p < PAGES_PER_BLOCK ==> d[FullBlock(Chosen(c))][p] == c[FullBlock(Chosen(c))][p])
    && (!FirstErased(c) ==> forall k :: 0 <= k < DELTA_PAGES ==> DeltaCell(d, k) == DeltaCell(c, k))
  }

  /** Every page that recovery would look at is safely on the device. */
  ghost predicate MetaSynced(c: Image, s: Flags)
    requires Shaped(c) && Shaped(s)
  {
    && s[PBA_FIRST_FULL_COMMIT][0] && s[PBA_DELTA][0]
    && (forall p :: 0 <= p < PAGES_PER_BLOCK ==> s[FullBlock(Chosen(c))][p])
    && (!FirstErased(c) ==> forall b, p :: 0 <= b < BLOCKS_DELTA && 0 <= p < PAGES_PER_BLOCK ==> s[b][p])
  }

  lemma FullAgrees(c: Image, d: Image, slot: int, l: int)
    requires Shaped(c) && Shaped(d) && 0 <= l <= N_LAS
    requires forall p :: 0 <= p < PAGES_PER_BLOCK ==> d[FullBlock(slot)][p] == c[FullBlock(slot)][p]
    ensures FullEntry(d, slot, l) == FullEntry(c, slot, l)
  {
    hide EntryBlock, EntryPage, EntryWord;
    EntrySplit(l);
  }

  lemma BoundAgrees(c: Image, d: Image)
    requires Shaped(c) && Shaped(d) && d[PBA_DELTA][0] == c[PBA_DELTA][0]
    requires !FirstErased(c) ==> forall k :: 0 <= k < DELTA_PAGES ==> DeltaCell(d, k) == DeltaCell(c, k)
    ensures FirstErased(d) == FirstErased(c) && Bound(d) == Bound(c)
    ensures forall j :: 0 <= j < Bound(c) ==> DeltaPage(c, j) == DeltaPage(d, j)
  {
    hide DeltaCell;
    if !FirstErased(c) {
      CommittedAgrees(c, d, DELTA_PAGES);
    }
  }

  lemma DecodeIs(c: Image, l: int)
    requires Shaped(c) && 0 <= l < N_LAS
    ensures DecodeAt(c, l) == Replay(c, Bound(c), l, FullEntry(c, Chosen(c), l))
  {
  }

  lemma DecodesAgrees(c: Image, d: Image, m: seq<Word>)
    requires Shaped(c) && Shaped(d) && Agree(c, d) && Decodes(c, m)
    ensures Decodes(d, m) && Chosen(d) == Chosen(c) && FirstErased(d) == FirstErased(c)
  {
    hide DeltaPage, FullEntry, Bound, Replay, DecodeAt;
    BoundAgrees(c, d);
    assert LogInRange(d);
    forall l | 0 <= l < N_LAS ensures DecodeAt(d, l) == m[l] {
      FullAgrees(c, d, Chosen(c), l);
      ReplayAgrees(c, d, Bound(c), l, FullEntry(c, Chosen(c), l));
      DecodeIs(c, l);
      DecodeIs(d, l);
    }
  }

  /** What is synced survives a crash, so the map does. */
  lemma CrashAgrees(c: Image, s: Flags, d: Image)
    requires Shaped(c) && Shaped(s) && CrashImage(c, s, d) && MetaSynced(c, s)
    ensures Agree(c, d)
  {
    forall k | 0 <= k < DELTA_PAGES && !FirstErased(c) ensures DeltaCell(d, k) == DeltaCell(c, k) {
      assert 0 <= k / PAGES_PER_BLOCK < BLOCKS_DELTA && 0 <= k % PAGES_PER_BLOCK < PAGES_PER_BLOCK;
    }
  }

  // Switching full checkpoints

  /** The full checkpoint in a slot holds exactly m. */
  ghost predicate HoldsFull(c: Image, slot: int, m: seq<Word>)
    requires Shaped(c) && |m| >= N_LAS
  {
    forall l :: 0 <= l < N_LAS ==> FullEntry(c, slot, l) == m[l]
  }

  /**
   Recovery may move from one full checkpoint to a newer one without touching the log:
   the newer one already reflects the log, and replaying it again changes nothing.
   */
  lemma SwitchFull(c: Image, d: Image, slot: int, m: seq<Word>)
    requires Shaped(c) && Shaped(d) && Decodes(c, m)
    requires Chosen(d) == slot && HoldsFull(d, slot, m)
    requires d[PBA_DELTA][0] == c[PBA_DELTA][0]
    requires !FirstErased(c) ==> forall k :: 0 <= k < DELTA_PAGES ==> DeltaCell(d, k) == DeltaCell(c, k)
    ensures Decodes(d, m)
  {
    hide DeltaPage, FullEntry, Bound, Replay, DecodeAt;
    BoundAgrees(c, d);
    assert LogInRange(d);
    forall l | 0 <= l < N_LAS ensures DecodeAt(d, l) == m[l] {
      DecodeIs(c, l);
      DecodeIs(d, l);
      ReplayAgrees(c, d, Bound(c), l, m[l]);
      ReplayIdempotent(c, Bound(c), l, FullEntry(c, Chosen(c), l));
    }
  }

  /** Once the first delta page is erased the chosen full checkpoint stands alone. */
  lemma DropLog(d: Image, m: seq<Word>)
    requires Shaped(d) && |m| == N_LAS && FirstErased(d) && HoldsFull(d, Chosen(d), m)
    ensures Decodes(d, m)
  {
    hide FullEntry;
  }

  /** A region that holds one committed page without pairs leaves the full checkpoint as it is. */
  lemma FreshLog(d: Image, m: seq<Word>)
    requires Shaped(d) && |m| == N_LAS && HoldsFull(d, Chosen(d), m)
    requires Contents(d[PBA_DELTA][0])[OFFSET_COMMIT] == FLAG_COMMITTED
    requires forall i :: 0 <= i < N_DELTA_PAIR ==> Las(Contents(d[PBA_DELTA][0]), i) == N_LAS
    requires forall k :: 1 <= k < DELTA_PAGES ==> DeltaCell(d, k).Erased?
    ensures Decodes(d, m) && Bound(d) == 1
  {
    hide FullEntry, Las;
    assert DeltaPage(d, 0) == Contents(d[PBA_DELTA][0]);
    CommittedIs(d, 1, DELTA_PAGES);
    forall l | 0 <= l < N_LAS ensures DecodeAt(d, l) == m[l] {
      OverPadding(DeltaPage(d, 0), 0, N_DELTA_PAIR, l, m[l]);
      assert Replay(d, 0, l, m[l]) == m[l];
      assert Replay(d, 1, l, m[l]) == Over(DeltaPage(d, 0), N_DELTA_PAIR, l, Replay(d, 0, l, m[l]));
    }
  }

  // The delta region while the layer runs

  /** k pages are written, the last committed one is page kc - 1, and the rest of the region is erased. */
  ghost predicate DeltaRegion(c: Image, kc: int, k: int)
    requires Shaped(c)
  {
    && 1 <= kc <= k <= DELTA_PAGES
    && DeltaPage(c, kc - 1)[OFFSET_COMMIT] == FLAG_COMMITTED
    && (forall j :: 0 <= j < k ==> DeltaPage(c, j)[OFFSET_COMMIT] == FLAG_COMMITTED || DeltaPage(c, j)[OFFSET_COMMIT] == FLAG_TENTATIVE)
    && (forall j :: kc <= j < k ==> DeltaPage(c, j)[OFFSET_COMMIT] == FLAG_TENTATIVE)
    && (forall j :: k <= j < DELTA_PAGES ==> DeltaCell(c, j).Erased?)
    && (forall j, i :: 0 <= j < k && 0 <= i < N_DELTA_PAIR ==> Las(DeltaPage(c, j), i) <= N_LAS)
  }

  /** In such a region recovery replays exactly the pages up to the last committed one. */
  lemma RegionBound(c: Image, kc: int, k: int)
    requires Shaped(c) && DeltaRegion(c, kc, k)
    ensures !FirstErased(c) && Bound(c) == kc && LogInRange(c)
  {
    hide Las;
    assert DeltaPage(c, 0) == Contents(c[PBA_DELTA][0]);
    assert forall j :: k <= j < DELTA_PAGES ==> DeltaPage(c, j)[OFFSET_COMMIT] == ONES;
    CommittedIs(c, kc, DELTA_PAGES);
  }

  /** Block b, page p is the delta page of that number. */
  lemma DeltaIndex(b: int, p: int, j: int)
    requires 0 <= b < BLOCKS_DELTA && 0 <= p < PAGES_PER_BLOCK && 0 <= j < DELTA_PAGES
    ensures 0 <= b * PAGES_PER_BLOCK + p < DELTA_PAGES
    ensures (j / PAGES_PER_BLOCK == b && j % PAGES_PER_BLOCK == p) <==> j == b * PAGES_PER_BLOCK + p
    ensures 0 <= j / PAGES_PER_BLOCK < BLOCKS_DELTA && 0 <= j % PAGES_PER_BLOCK < PAGES_PER_BLOCK
  {
  }

  /** Programming the next page of the region changes that page and no other. */
  lemma AppendedCells(c: Image, b: int, p: int, x: Cell)
    requires Shaped(c) && 0 <= b < BLOCKS_DELTA && 0 <= p < PAGES_PER_BLOCK
    ensures forall j :: 0 <= j < DELTA_PAGES ==>
              DeltaCell(Put(c, b, p, x), j) == if j == b * PAGES_PER_BLOCK + p then x else DeltaCell(c, j)
  {
    forall j | 0 <= j < DELTA_PAGES
      ensures DeltaCell(Put(c, b, p, x), j) == if j == b * PAGES_PER_BLOCK + p then x else DeltaCell(c, j)
    {
      DeltaIndex(b, p, j);
    }
  }

  lemma DeltaPageIs(c: Image, k: int, page: Page)
    requires Shaped(c) && 0 <= k < DELTA_PAGES && DeltaCell(c, k) == Programmed(page)
    ensures DeltaPage(c, k) == page
  {
  }

  lemma AppendedInOrder(c: Image, kc: int, b: int, p: int)
    requires Shaped(c) && 0 <= b < BLOCKS_DELTA && 0 <= p < PAGES_PER_BLOCK
    requires DeltaRegion(c, kc, b * PAGES_PER_BLOCK + p)
    ensures InOrder(c, b, p)
  {
    forall q | p <= q < PAGES_PER_BLOCK ensures c[b][q].Erased? {
      DeltaIndex(b, q, b * PAGES_PER_BLOCK + q);
      assert DeltaCell(c, b * PAGES_PER_BLOCK + q).Erased?;
    }
  }

  lemma AppendKeepsRegion(c: Image, kc: int, b: int, p: int, page: Page)
    requires Shaped(c) && 0 <= b < BLOCKS_DELTA && 0 <= p < PAGES_PER_BLOCK
    requires DeltaRegion(c, kc, b * PAGES_PER_BLOCK + p)
    requires page[OFFSET_COMMIT] == FLAG_COMMITTED || page[OFFSET_COMMIT] == FLAG_TENTATIVE
    requires forall i :: 0 <= i < N_DELTA_PAIR ==> Las(page, i) <= N_LAS
    ensures var k := b * PAGES_PER_BLOCK + p;
            DeltaRegion(Put(c, b, p, Programmed(page)), if page[OFFSET_COMMIT] == FLAG_COMMITTED then k + 1 else kc, k + 1)
    ensures InOrder(c, b, p)
  {
    AppendedInOrder(c, kc, b, p);
    hide Las, DeltaCell;
    var d, k := Put(c, b, p, Programmed(page)), b * PAGES_PER_BLOCK + p;
    DeltaIndex(b, p, 0);
    AppendedCells(c, b, p, Programmed(page));
    assert forall j :: 0 <= j < DELTA_PAGES ==> DeltaPage(d, j) == if j == k then page else DeltaPage(c, j);
    hide DeltaPage;
  }

  // Everything a recovery needs

  /** What a logical sector mapped to address a holds. */
  function SectorAt(c: Image, a: Word): Sector
    requires Shaped(c) && a <= N_PAS
  {
    Half(Contents(c[Pba(a)][Ipa(a)]), Isa(a))
  }

  /** A map that recovery can work with: in range, injective, and with enough blocks left over. */
  ghost predicate Sound(m: seq<Word>)
    requires |m| >= N_LAS
  {
    InRange(m) && Injective(m) && TouchedBlocks(m, BLOCKS_TOTAL) <= BLOCKS_DATA - RESERVE
  }

  /** Recovery from image c finds map m and sector contents stb. */
  ghost predicate Recoverable(c: Image, m: seq<Word>, stb: seq<Sector>) {
    && Shaped(c) && |m| == N_LAS && Decodes(c, m) && Sound(m) && |stb| == N_LAS
    && forall l :: 0 <= l < N_LAS ==> SectorAt(c, m[l]) == stb[l]
  }

  /** Every page that holds a sector of m is synced. */
  ghost predicate DataSynced(s: Flags, m: seq<Word>)
    requires Shaped(s) && |m| >= N_LAS && InRange(m)
  {
    forall l :: 0 <= l < N_LAS ==> s[Pba(m[l])][Ipa(m[l])]
  }

  /** Whatever a crash does to this device, recovery finds m and stb. */
  ghost predicate Durable(c: Image, s: Flags, m: seq<Word>, stb: seq<Sector>) {
    Shaped(s) && Recoverable(c, m, stb) && MetaSynced(c, s) && DataSynced(s, m)
  }

  /** A crash keeps what is durable, however often it happens. */
  lemma DurableSurvives(c: Image, s: Flags, m: seq<Word>, stb: seq<Sector>, d: Image)
    requires Durable(c, s, m, stb) && CrashImage(c, s, d)
    ensures Durable(d, s, m, stb)
  {
    CrashAgrees(c, s, d);
    DecodesAgrees(c, d, m);
    assert MetaSynced(d, s);
    hide Decodes, Sound, MetaSynced;
    SoundInRange(m);
    forall l | 0 <= l < N_LAS ensures SectorAt(d, m[l]) == stb[l] {
      PsaInRange(m[l]);
    }
  }

  lemma SoundInRange(m: seq<Word>)
    requires |m| >= N_LAS && Sound(m)
    ensures InRange(m) && Injective(m)
  {
  }

  lemma PsaInRange(a: int)
    requires PBA_DATA * SECTORS_PER_BLOCK <= a <= N_PAS
    ensures PBA_DATA <= Pba(a) <= BLOCKS_TOTAL && 0 <= Ipa(a) < PAGES_PER_BLOCK && 0 <= Isa(a) < SECTORS_PER_PAGE
    ensures Pba(a) == BLOCKS_TOTAL <==> a == N_PAS
  {
  }

  /** d and c have the same data blocks. */
  ghost predicate SameData<T(!new)>(c: seq<seq<T>>, d: seq<seq<T>>)
    requires Shaped(c) && Shaped(d)
  {
    forall b :: PBA_DATA <= b < NUM_BLOCKS ==> d[b] == c[b]
  }

  /** Work on the checkpoint blocks that keeps their meaning keeps the device durable. */
  lemma DurableMeta(c: Image, s: Flags, d: Image, t: Flags, m: seq<Word>, stb: seq<Sector>)
    requires Durable(c, s, m, stb) && Shaped(d) && Shaped(t)
    requires SameData(c, d) && (SameData(s, t) || AllSynced(t))
    requires Decodes(d, m) && MetaSynced(d, t)
    ensures Durable(d, t, m, stb)
  {
    hide Decodes, Sound, MetaSynced;
    SoundInRange(m);
    forall l | 0 <= l < N_LAS ensures SectorAt(d, m[l]) == stb[l] && t[Pba(m[l])][Ipa(m[l])] {
      PsaInRange(m[l]);
    }
  }

  /** Every page of the checkpoint blocks is synced. */
  ghost predicate AllMetaSynced(s: Flags)
    requires Shaped(s)
  {
    forall b, p :: 0 <= b < PBA_DATA && 0 <= p < PAGES_PER_BLOCK ==> s[b][p]
  }

  /** The map is the full checkpoint with all delta pages and the first ptr pairs of buf on top. */
  ghost predicate Faithful(l2p: seq<Word>, c: Image, k: int, buf: Page, ptr: int)
    requires |l2p| >= N_LAS && Shaped(c) && 0 <= k <= DELTA_PAGES && 0 <= ptr <= N_DELTA_PAIR
  {
    forall l :: 0 <= l < N_LAS ==> l2p[l] == Over(buf, ptr, l, Replay(c, k, l, FullEntry(c, Chosen(c), l)))
  }

  /** Appending a page leaves the full checkpoints and the earlier pages alone. */
  lemma AppendReplays(c: Image, kc: int, b: int, p: int, page: Page, n: int, l: int)
    requires Shaped(c) && 0 <= b < BLOCKS_DELTA && 0 <= p < PAGES_PER_BLOCK && 0 <= l < N_LAS
    requires 0 <= n <= b * PAGES_PER_BLOCK + p <= DELTA_PAGES
    ensures var d := Put(c, b, p, Programmed(page));
            && Chosen(d) == Chosen(c) && FullEntry(d, Chosen(c), l) == FullEntry(c, Chosen(c), l)
            && Replay(d, n, l, FullEntry(c, Chosen(c), l)) == Replay(c, n, l, FullEntry(c, Chosen(c), l))
  {
    var d := Put(c, b, p, Programmed(page));
    FullAgrees(c, d, Chosen(c), l);
    AppendedCells(c, b, p, Programmed(page));
    ReplayAgrees(c, d, n, l, FullEntry(c, Chosen(c), l));
  }

  /** A tentative page does not change what recovery finds. */
  lemma AppendTentative(c: Image, kc: int, b: int, p: int, page: Page, m: seq<Word>)
    requires Shaped(c) && 0 <= b < BLOCKS_DELTA && 0 <= p < PAGES_PER_BLOCK
    requires DeltaRegion(c, kc, b * PAGES_PER_BLOCK + p) && Decodes(c, m)
    requires page[OFFSET_COMMIT] == FLAG_TENTATIVE
    requires forall i :: 0 <= i < N_DELTA_PAIR ==> Las(page, i) <= N_LAS
    ensures Decodes(Put(c, b, p, Programmed(page)), m)
  {
    var d := Put(c, b, p, Programmed(page));
    AppendKeepsRegion(c, kc, b, p, page);
    RegionBound(c, kc, b * PAGES_PER_BLOCK + p);
    RegionBound(d, kc, b * PAGES_PER_BLOCK + p + 1);
    hide DeltaRegion, FullEntry, Replay, DecodeAt, Bound, LogInRange;
    forall l | 0 <= l < N_LAS ensures DecodeAt(d, l) == m[l] {
      DecodeIs(c, l);
      DecodeIs(d, l);
      AppendReplays(c, kc, b, p, page, kc, l);
    }
  }

  /** A committed page makes recovery find the map that the log was keeping up with. */
  lemma AppendCommitted(c: Image, kc: int, b: int, p: int, page: Page, l2p: seq<Word>)
    requires Shaped(c) && 0 <= b < BLOCKS_DELTA && 0 <= p < PAGES_PER_BLOCK && |l2p| >= N_LAS
    requires DeltaRegion(c, kc, b * PAGES_PER_BLOCK + p)
    requires Faithful(l2p, c, b * PAGES_PER_BLOCK + p, page, N_DELTA_PAIR)
    requires page[OFFSET_COMMIT] == FLAG_COMMITTED
    requires forall i :: 0 <= i < N_DELTA_PAIR ==> Las(page, i) <= N_LAS
    ensures Decodes(Put(c, b, p, Programmed(page)), l2p[..N_LAS])
  {
    hide DeltaRegion, FullEntry, DecodeAt, Bound, LogInRange, DeltaPage;
    var d, k := Put(c, b, p, Programmed(page)), b * PAGES_PER_BLOCK + p;
    AppendKeepsRegion(c, kc, b, p, page);
    RegionBound(d, k + 1, k + 1);
    AppendedCells(c, b, p, Programmed(page));
    DeltaPageIs(d, k, page);
    forall l | 0 <= l < N_LAS ensures DecodeAt(d, l) == l2p[l] {
      DecodeIs(d, l);
      AppendReplays(c, kc, b, p, page, k, l);
    }
  }

  /** A full buffer that becomes a page is still part of the map. */
  lemma AppendFaithful(c: Image, b: int, p: int, page: Page, l2p: seq<Word>, empty: Page)
    requires Shaped(c) && 0 <= b < BLOCKS_DELTA && 0 <= p < PAGES_PER_BLOCK && |l2p| >= N_LAS
    requires b * PAGES_PER_BLOCK + p < DELTA_PAGES
    requires Faithful(l2p, c, b * PAGES_PER_BLOCK + p, page, N_DELTA_PAIR)
    ensures Faithful(l2p, Put(c, b, p, Programmed(page)), b * PAGES_PER_BLOCK + p + 1, empty, 0)
  {
    var d, k := Put(c, b, p, Programmed(page)), b * PAGES_PER_BLOCK + p;
    AppendedCells(c, b, p, Programmed(page));
    assert DeltaPage(d, k) == page;
    hide FullEntry, DeltaPage;
    forall l | 0 <= l < N_LAS ensures l2p[l] == Over(empty, 0, l, Replay(d, k + 1, l, FullEntry(d, Chosen(d), l))) {
      AppendReplays(c, 0, b, p, page, k, l);
    }
  }

  /** The padded buffer sends every sector where its used pairs do. */
  lemma FaithfulPadding(l2p: seq<Word>, c: Image, k: int, buf: Page, ptr: int, page: Page)
    requires |l2p| >= N_LAS && Shaped(c) && 0 <= k <= DELTA_PAGES && 0 <= ptr <= N_DELTA_PAIR
    requires Faithful(l2p, c, k, buf, ptr)
    requires forall i :: ptr <= i < N_DELTA_PAIR ==> Las(page, i) == N_LAS
    requires forall i :: 0 <= i < N_DELTA_PAIR ==> Las(page, i) == Las(buf, i) && Pas(page, i) == Pas(buf, i)
    ensures Faithful(l2p, c, k, page, N_DELTA_PAIR)
  {
    hide Las, Pas, FullEntry, Replay;
    forall l | 0 <= l < N_LAS ensures l2p[l] == Over(page, N_DELTA_PAIR, l, Replay(c, k, l, FullEntry(c, Chosen(c), l))) {
      OverSame(buf, page, ptr, l, Replay(c, k, l, FullEntry(c, Chosen(c), l)));
      OverPadding(page, ptr, N_DELTA_PAIR, l, Replay(c, k, l, FullEntry(c, Chosen(c), l)));
    }
  }
}
