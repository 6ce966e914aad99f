/**
 The account of the space that the translation layer sets aside, for any sizes.  Each write and
 each copy takes a sector of a ready block and a pair of the log of the map; a flush settles the
 account.  For every run of it there is a block ready, room in the log, and something for the
 collector to do, exactly if the sizes meet three conditions.
 */
module Sizing {
  import opened Division

  /** The units of size d that n have filled and left behind. */
  function Whole(n: nat, d: int): nat
    requires d >= 1
  {
    if n == 0 then 0 else Split(n - 1, d); (n - 1) / d
  }

  lemma WholeIs(n: nat, d: int, q: int, r: int)
    requires d >= 1 && n == q * d + r && (if n == 0 then q == 0 else 1 <= r <= d)
    ensures Whole(n, d) == q
  {
    if n > 0 {
      QuotientIs(n - 1, d, q, r - 1);
    }
  }

  lemma WholeBelow(n: nat, d: int, q: int)
    requires d >= 1 && q >= 1
    ensures Whole(n, d) < q <==> n <= q * d
  {
    Product(q, d);
    if n > 0 {
      var w := Whole(n, d);
      Split(n - 1, d);
      if w < q {
        Factor(w, q, d);
      } else {
        Monotone(q, w, d);
      }
    }
  }

  /** Whoever takes no more than n - 1 sectors and some rest has not left more behind. */
  lemma WholeAtLeast(n: nat, m: nat, d: int, q: int)
    requires d >= 1 && n <= m && (if n == 0 then q <= 0 else q * d <= n - 1)
    ensures q <= Whole(m, d)
  {
    if m > 0 {
      var w := Whole(m, d);
      Split(m - 1, d);
      if q > w {
        Factor(w, q, d);
        assert n == 0;
      }
    }
  }

  /** Counting on, a unit is left behind once in d steps. */
  lemma WholeStep(n: nat, d: int)
    requires d >= 1 && n >= 2
    ensures if (n - 1) % d != 0 then Whole(n, d) == Whole(n - 1, d) && (n - 2) % d == (n - 1) % d - 1
            else Whole(n, d) == Whole(n - 1, d) + 1 && (n - 2) % d == d - 1
  {
    var q, r := (n - 1) / d, (n - 1) % d;
    Split(n - 1, d);
    if r != 0 {
      QuotientIs(n - 2, d, q, r - 1);
    } else {
      Successor(q - 1, d);
      QuotientIs(n - 2, d, q - 1, d - 1);
    }
  }

  lemma WholeMonotone(n: nat, m: nat, d: int)
    requires d >= 1 && n <= m
    ensures Whole(n, d) <= Whole(m, d)
  {
    if n > 0 {
      Split(n - 1, d);
      WholeAtLeast(n, m, d, Whole(n, d));
    }
  }

  /** What the layer knows of its space between two operations, and of the block that is being collected. */
  datatype Account = Account(ready: int, invalid: int, ipa: int, isa: int, kc: int, k: int, ptr: int,
                             wcnt: int, gcprog: int, on: bool, left: int)

  /** A write, which may hit a sector of the victim; the steps of the collector; a flush. */
  datatype Move = Write(hit: bool) | Copy | Start(live: int) | Finish | Flush

  /**
   Sectors of a page and of a block, pages of a block; writes and copies that may happen between
   two flushes; pairs on a page of the log, blocks of the log, and blocks of it after which it is
   rewritten; blocks that must be ready for a flush; data blocks, blocks in use at which the
   collector starts, and the most sectors that a victim has.
   */
  datatype Sizes = Sizes(perPage: int, perBlock: int, pages: int, writes: int, copies: int,
                         pairs: int, delta: int, threshold: int, reserve: int, data: int, start: int, victim: int) {
    predicate Valid() {
      && perPage >= 1 && pages >= 1 && perBlock == pages * perPage && writes >= 0 && copies >= 0
      && pairs >= 1 && 1 <= threshold < delta && reserve >= 2 && start >= 1 && victim >= 1
    }

    // The account

    /** The page that is being filled is programmed; after the last page of a block a ready one is opened. */
    function Persisted(a: Account): Account {
      if a.ipa + 1 == pages then a.(ready := a.ready - 1, ipa := 0, isa := 0) else a.(ipa := a.ipa + 1, isa := 0)
    }

    /** A sector takes its place, and its pair goes to the log. */
    function Placed(a: Account): Account {
      var p := if a.isa == perPage then Persisted(a) else a;
      var q := if p.ptr == pairs then p.(k := p.k + 1, ptr := 0) else p;
      q.(isa := q.isa + 1, ptr := q.ptr + 1)
    }

    /** The commit page has been written, and the log is rewritten if it has become too long. */
    function Settled(a: Account): Account {
      var p := if a.isa == 0 then a else Persisted(a);
      var k := if a.k + 1 > threshold * pages then 1 else a.k + 1;
      p.(ready := p.ready + p.invalid, invalid := 0, kc := k, k := k, ptr := 0, wcnt := 0, gcprog := 0)
    }

    predicate Can(a: Account, m: Move) {
      match m
      case Write(hit) => a.wcnt < writes && (hit ==> a.on && a.left >= 1)
      case Copy => a.on && a.left >= 1 && a.gcprog < copies
      case Start(live) => !a.on && 0 <= live <= victim && data - 1 - a.ready - a.invalid >= start
      case Finish => a.on && a.left == 0
      case Flush => a.ready + a.invalid >= reserve
    }

    function Moved(a: Account, m: Move): Account {
      match m
      case Write(hit) => Placed(a).(wcnt := a.wcnt + 1, left := if hit then a.left - 1 else a.left)
      case Copy => Placed(a).(gcprog := a.gcprog + 1, left := a.left - 1)
      case Start(live) => a.(on := true, left := live)
      case Finish => a.(on := false, invalid := a.invalid + 1)
      case Flush => Settled(a)
    }

    function After(a: Account, moves: seq<Move>): Account {
      if moves == [] then a else Moved(After(a, moves[..|moves| - 1]), moves[|moves| - 1])
    }

    predicate Possible(a: Account, moves: seq<Move>) {
      moves == [] || (Possible(a, moves[..|moves| - 1]) && Can(After(a, moves[..|moves| - 1]), moves[|moves| - 1]))
    }

    lemma OneMore(a: Account, moves: seq<Move>, m: Move)
      ensures After(a, moves + [m]) == Moved(After(a, moves), m)
      ensures Possible(a, moves + [m]) <==> Possible(a, moves) && Can(After(a, moves), m)
    {
      assert (moves + [m])[..|moves + [m]| - 1] == moves;
    }

    /** What a recovery leaves. */
    predicate Initial(a: Account) {
      reserve - 1 <= a.ready < data && a == Account(a.ready, 0, 0, 0, 1, 1, 0, 0, 0, false, 0)
    }

    // What holds in every run

    predicate Counts(wcnt: int, gcprog: int) { 0 <= wcnt <= writes && 0 <= gcprog <= copies }

    /** Sectors that fit the ready blocks and the rest of the active one. */
    function Capacity(ready: int, ipa: int, isa: int): int { ready * perBlock + perBlock - perPage * ipa - isa }

    /** What a flush leaves at least: a block that has just been opened is the last that it took. */
    function Guarantee(): int { reserve * perBlock }

    predicate Refilled(ready: int, ipa: int) { ready >= reserve || (ready >= reserve - 1 && ipa == 0) }

    lemma RefilledPaid(ready: int, ipa: int)
      requires Valid() && Refilled(ready, ipa) && 0 <= ipa < pages
      ensures Capacity(ready, ipa, 0) >= Guarantee()
    {
      Monotone(if ready >= reserve then reserve else reserve - 1, ready, perBlock);
      Successor(reserve - 1, perBlock);
      Factor(ipa, pages, perPage);
    }

    /** Everything written and copied since the flush has been paid for from what it left. */
    predicate Paid(ready: int, ipa: int, isa: int, wcnt: int, gcprog: int) {
      Counts(wcnt, gcprog) && Capacity(ready, ipa, isa) + wcnt + gcprog >= Guarantee()
    }

    /** The log was short at the flush, and has one pair for every write and copy since. */
    predicate Logged(kc: int, k: int, ptr: int, wcnt: int, gcprog: int) {
      Counts(wcnt, gcprog) && kc <= threshold * pages && wcnt + gcprog == pairs * (k - kc) + ptr
    }

    function Spent(a: Account): int { a.wcnt + a.gcprog }

    predicate Placing(a: Account) {
      0 <= a.ipa < pages && 0 <= a.isa <= perPage && (Spent(a) > 0 ==> a.isa >= 1)
    }

    predicate Noting(a: Account) {
      1 <= a.kc <= a.k && 0 <= a.ptr <= pairs && (a.k > a.kc ==> a.ptr >= 1)
    }

    /** No copy was for nothing: they come from retired blocks and from the victim. */
    predicate Earned(a: Account) {
      && a.invalid >= 0 && 0 <= a.left <= victim
      && a.gcprog + a.left <= a.invalid * victim + (if a.on then victim else 0)
      && (!a.on ==> a.left == 0)
    }

    predicate Sound(a: Account) {
      && Placing(a) && Noting(a) && Earned(a)
      && Paid(a.ready, a.ipa, a.isa, a.wcnt, a.gcprog) && Logged(a.kc, a.k, a.ptr, a.wcnt, a.gcprog)
    }

    /** Programming a full page takes nothing away; a block is opened only when the last one is full. */
    lemma PersistedCapacity(a: Account)
      requires Valid() && 0 <= a.ipa < pages && a.isa == perPage
      ensures var p := Persisted(a); 0 <= p.ipa < pages && p.isa == 0 && Capacity(p.ready, p.ipa, 0) == Capacity(a.ready, a.ipa, a.isa)
    {
      Successor(a.ipa, perPage);
      Successor(a.ready - 1, perBlock);
    }

    /** A sector costs one sector of capacity and one pair. */
    lemma PlacedCosts(a: Account)
      requires Valid() && Placing(a) && Noting(a)
      ensures var b := Placed(a);
              && 0 <= b.ipa < pages && 1 <= b.isa <= perPage && Capacity(b.ready, b.ipa, b.isa) == Capacity(a.ready, a.ipa, a.isa) - 1
              && b.kc <= b.k && 1 <= b.ptr <= pairs && pairs * (b.k - b.kc) + b.ptr == pairs * (a.k - a.kc) + a.ptr + 1
              && b.kc == a.kc && (b.invalid, b.wcnt, b.gcprog, b.on, b.left) == (a.invalid, a.wcnt, a.gcprog, a.on, a.left)
    {
      if a.isa == perPage {
        PersistedCapacity(a);
      }
      Successor(a.k - a.kc, pairs);
    }

    lemma SettledSound(a: Account)
      requires Valid() && Sound(a) && Can(a, Flush)
      ensures Sound(Settled(a))
    {
      var b := Settled(a);
      Product(threshold - 1, pages);
      Successor(threshold - 1, pages);
      assert Refilled(b.ready, b.ipa);
      RefilledPaid(b.ready, b.ipa);
    }

    lemma MovedSound(a: Account, m: Move)
      requires Valid() && Sound(a) && Can(a, m)
      ensures Sound(Moved(a, m))
    {
      hide Capacity, Persisted, Placed, Settled, Guarantee;
      match m {
        case Write(hit) => PlacedCosts(a);
        case Copy => PlacedCosts(a);
        case Start(live) =>
        case Finish => Successor(a.invalid, victim);
        case Flush => SettledSound(a);
      }
    }

    lemma InitialSound(a: Account)
      requires Valid() && Initial(a)
      ensures Sound(a)
    {
      RefilledPaid(a.ready, 0);
      Product(threshold - 1, pages);
      Successor(threshold - 1, pages);
    }

    lemma {:induction false} RunSound(a: Account, moves: seq<Move>)
      requires Valid() && Initial(a) && Possible(a, moves)
      ensures Sound(After(a, moves))
    {
      hide Sound, Can, Moved, Initial;
      if moves == [] {
        InitialSound(a);
      } else {
        RunSound(a, moves[..|moves| - 1]);
        MovedSound(After(a, moves[..|moves| - 1]), moves[|moves| - 1]);
      }
    }

    // How little can be left

    /** The blocks that are ready whatever has been written. */
    lemma ReadyBound(a: Account)
      requires Valid() && Sound(a)
      ensures a.ready >= reserve - 1 - Whole(writes + copies, perBlock)
    {
      hide Capacity, Whole, Guarantee;
      Remaining(a.ready, a.ipa, a.isa, Spent(a), writes + copies);
    }

    lemma Remaining(ready: int, ipa: nat, isa: nat, n: nat, most: nat)
      requires Valid() && Capacity(ready, ipa, isa) + n >= Guarantee() && n <= most && (n > 0 ==> isa >= 1)
      ensures ready >= reserve - 1 - Whole(most, perBlock)
    {
      hide Whole;
      var q := reserve - 1 - ready;
      Product(perPage, ipa);
      Successor(reserve - 1, perBlock);
      Distribute(reserve - 1, ready, perBlock);
      if n == 0 && q >= 1 {
        Monotone(1, q, perBlock);
      }
      WholeAtLeast(n, most, perBlock, q);
    }

    /** The same in the middle of an operation, when a new page may not have been begun yet. */
    lemma ReadyBetween(ready: int, ipa: nat, isa: nat, wcnt: int, gcprog: int)
      requires Valid() && Paid(ready, ipa, isa, wcnt, gcprog)
      ensures ready >= reserve - 1 - Whole(writes + copies + 1, perBlock)
    {
      hide Whole;
      Remaining(ready, ipa, isa + 1, wcnt + gcprog + 1, writes + copies + 1);
    }

    lemma PageBetween(kc: int, k: int, ptr: nat, wcnt: int, gcprog: int)
      requires Valid() && Logged(kc, k, ptr, wcnt, gcprog)
      ensures k <= threshold * pages + Whole(writes + copies + 1, pairs)
    {
      hide Whole;
      WholeAtLeast(wcnt + gcprog + 1, writes + copies + 1, pairs, k - kc);
    }

    lemma PageBound(a: Account)
      requires Valid() && Sound(a)
      ensures a.k <= threshold * pages + Whole(writes + copies, pairs)
    {
      WholeAtLeast(Spent(a), writes + copies, pairs, a.k - a.kc);
    }

    /** The blocks that must have been retired for so many copies. */
    lemma RetiredBound(invalid: nat)
      requires Valid() && copies <= invalid * victim + victim
      ensures invalid >= Whole(copies, victim)
    {
      WholeBelow(copies, victim, invalid + 1);
    }

    lemma SoundRetired(a: Account)
      requires Valid() && Sound(a) && a.gcprog == copies
      ensures a.invalid >= Whole(copies, victim)
    {
      hide Whole, Paid, Logged;
      if !a.on {
        Product(0, victim);
      }
      RetiredBound(a.invalid);
    }

    // How little is left in the worst run

    /** Nothing but writes and steps of the collector since a0, which is right after a flush or recovery. */
    predicate Since(a0: Account, a: Account) {
      && Placing(a) && Noting(a) && a.kc == a0.kc
      && Capacity(a.ready, a.ipa, a.isa) + Spent(a) == Capacity(a0.ready, 0, 0) && Spent(a) >= 0
      && pairs * (a.k - a.kc) + a.ptr == Spent(a)
      && (Spent(a) == 0 ==> a.ready == a0.ready && a.k == a0.kc)
    }

    lemma MovedSince(a0: Account, a: Account, m: Move)
      requires Valid() && Since(a0, a) && Can(a, m) && !m.Flush?
      ensures Since(a0, Moved(a, m))
    {
      hide Capacity, Persisted, Placed;
      if m.Write? || m.Copy? {
        PlacedCosts(a);
      }
    }

    /** So many blocks have been opened and pages of the log written. */
    lemma SinceIs(a0: Account, a: Account)
      requires Valid() && Since(a0, a)
      ensures a.ready == a0.ready - Whole(Spent(a), perBlock) && a.k == a0.kc + Whole(Spent(a), pairs)
    {
      if Spent(a) > 0 {
        Opened(a0.ready, a.ready, a.ipa, a.isa, Spent(a));
        WholeIs(Spent(a), pairs, a.k - a.kc, a.ptr);
      }
    }

    lemma Opened(from: int, ready: int, ipa: int, isa: int, n: nat)
      requires Valid() && 0 <= ipa < pages && 1 <= isa <= perPage && n > 0
      requires Capacity(ready, ipa, isa) + n == Capacity(from, 0, 0)
      ensures from - ready == Whole(n, perBlock)
    {
      Product(ipa, perPage);
      Factor(ipa, pages, perPage);
      Distribute(from, ready, perBlock);
      hide Whole;
      WholeIs(n, perBlock, from - ready, perPage * ipa + isa);
    }

    /** All writes, which hit no victim. */
    function Writes(n: nat): seq<Move> { seq(n, i => Write(false)) }

    /** Copies from victims that have as many sectors as a victim can have; the last one is not finished. */
    function Copies(n: nat): seq<Move>
      requires victim >= 1
    {
      if n == 0 then []
      else if (n - 1) % victim != 0 then Copies(n - 1) + [Copy]
      else if n == 1 then [Start(victim), Copy]
      else Copies(n - 1) + [Finish, Start(victim), Copy]
    }

    lemma {:induction false} Then(a: Account, xs: seq<Move>, ys: seq<Move>)
      ensures After(a, xs + ys) == After(After(a, xs), ys)
      ensures Possible(a, xs + ys) <==> Possible(a, xs) && Possible(After(a, xs), ys)
    {
      hide Moved, Can;
      if ys == [] {
        assert xs + ys == xs;
      } else {
        var k := |ys| - 1;
        Then(a, xs, ys[..k]);
        assert xs + ys == (xs + ys[..k]) + [ys[k]];
        OneMore(a, xs + ys[..k], ys[k]);
      }
    }

    /** Right after a flush or a recovery, with a new block and no victim. */
    predicate Begun(a: Account) {
      a == Account(a.ready, 0, 0, 0, a.kc, a.kc, 0, 0, 0, false, 0) && a.kc >= 1
    }

    lemma {:induction false} WritesRun(a: Account, n: nat)
      requires Valid() && Begun(a) && n <= writes
      ensures Possible(a, Writes(n))
      ensures var b := After(a, Writes(n)); Since(a, b) && (b.wcnt, b.gcprog, b.invalid, b.on, b.left) == (n, 0, 0, false, 0)
    {
      hide Placed, Capacity, After, Possible;
      if n == 0 {
        Nothing(a);
        assert Writes(0) == [];
      } else {
        WritesRun(a, n - 1);
        assert Writes(n) == Writes(n - 1) + [Write(false)];
        OneMore(a, Writes(n - 1), Write(false));
        var b := After(a, Writes(n - 1));
        MovedSince(a, b, Write(false));
        PlacedCosts(b);
      }
    }

    lemma Nothing(a: Account)
      ensures After(a, []) == a && Possible(a, [])
    {
    }

    /** From so many ready blocks the collector does not stop before it has used up its copies. */
    predicate Busy(ready: int)
      requires Valid()
    {
      data - 1 - start >= ready + Whole(copies, victim)
    }

    lemma CopyOne(a: Account, b: Account, moves: seq<Move>)
      requires Valid() && Possible(b, moves) && Since(a, After(b, moves)) && Can(After(b, moves), Copy)
      ensures Possible(b, moves + [Copy])
      ensures var c, d := After(b, moves), After(b, moves + [Copy]);
              Since(a, d) && (d.wcnt, d.gcprog, d.invalid, d.on, d.left) == (c.wcnt, c.gcprog + 1, c.invalid, true, c.left - 1)
    {
      hide Placed, Capacity, After, Possible;
      OneMore(b, moves, Copy);
      MovedSince(a, After(b, moves), Copy);
      PlacedCosts(After(b, moves));
    }

    /** The n-th copy is the first from its victim. */
    lemma FirstCopy(a: Account, b: Account, moves: seq<Move>, n: nat)
      requires Valid() && Possible(b, moves) && Since(a, After(b, moves)) && Busy(a.ready) && n < copies
      requires var c := After(b, moves); !c.on && c.gcprog == n && 0 <= c.invalid <= Whole(copies, victim)
      ensures Possible(b, moves + [Start(victim), Copy])
      ensures var c, d := After(b, moves), After(b, moves + [Start(victim), Copy]);
              Since(a, d) && (d.wcnt, d.gcprog, d.invalid, d.on, d.left) == (c.wcnt, n + 1, c.invalid, true, victim - 1)
    {
      hide Placed, Capacity, After, Possible, Whole, Since;
      var c := After(b, moves);
      SinceIs(a, c);
      OneMore(b, moves, Start(victim));
      MovedSince(a, c, Start(victim));
      CopyOne(a, b, moves + [Start(victim)]);
      assert moves + [Start(victim)] + [Copy] == moves + [Start(victim), Copy];
    }

    lemma {:induction false} CopiesRun(a: Account, b: Account, n: nat)
      requires Valid() && Since(a, b) && b.gcprog == 0 && b.invalid == 0 && !b.on && Busy(a.ready) && n <= copies
      ensures Possible(b, Copies(n))
      ensures var c := After(b, Copies(n));
              && Since(a, c) && c.wcnt == b.wcnt && c.gcprog == n && c.invalid == Whole(n, victim)
              && (if n == 0 then !c.on else c.on && c.left == victim - 1 - (n - 1) % victim)
    {
      hide Placed, Capacity, After, Possible, Whole, Since;
      if n == 0 {
        Nothing(b);
        WholeIs(0, victim, 0, 0);
      } else {
        CopiesRun(a, b, n - 1);
        var c := After(b, Copies(n - 1));
        WholeMonotone(n, copies, victim);
        if n == 1 {
          WholeIs(1, victim, 0, 1);
          WholeIs(0, victim, 0, 0);
          FirstCopy(a, b, Copies(0), 0);
          assert Copies(1) == Copies(0) + [Start(victim), Copy];
          QuotientIs(0, victim, 0, 0);
        } else {
          WholeStep(n, victim);
          if (n - 1) % victim == 0 {
            OneMore(b, Copies(n - 1), Finish);
            MovedSince(a, c, Finish);
            FirstCopy(a, b, Copies(n - 1) + [Finish], n - 1);
            assert Copies(n) == Copies(n - 1) + [Finish] + [Start(victim), Copy];
          } else {
            CopyOne(a, b, Copies(n - 1));
          }
        }
      }
    }

    /** As much as an epoch can have. */
    function Total(): nat
      requires Valid()
    {
      writes + copies
    }

    /** The worst epoch: all writes, then all copies. */
    lemma EpochRun(a: Account)
      requires Valid() && Begun(a) && Busy(a.ready)
      ensures Possible(a, Writes(writes) + Copies(copies))
      ensures var e := After(a, Writes(writes) + Copies(copies));
              && e.gcprog == copies && e.invalid == Whole(copies, victim)
              && e.ready == a.ready - Whole(Total(), perBlock) && e.k == a.kc + Whole(Total(), pairs)
    {
      hide Capacity, After, Possible, Whole, Since;
      WritesRun(a, writes);
      var b := After(a, Writes(writes));
      CopiesRun(a, b, copies);
      Then(a, Writes(writes), Copies(copies));
      SinceIs(a, After(b, Copies(copies)));
    }

    function Flushes(n: nat): seq<Move> { seq(n, i => Flush) }

    /** Flushes without anything to write make the log longer, page by page. */
    lemma {:induction false} FlushesRun(a: Account, n: nat)
      requires Valid() && Initial(a) && a.ready >= reserve && 1 + n <= threshold * pages
      ensures Possible(a, Flushes(n)) && After(a, Flushes(n)) == a.(kc := 1 + n, k := 1 + n)
    {
      hide After, Possible;
      if n == 0 {
        Nothing(a);
        assert Flushes(0) == [];
      } else {
        FlushesRun(a, n - 1);
        assert Flushes(n) == Flushes(n - 1) + [Flush];
        OneMore(a, Flushes(n - 1), Flush);
      }
    }

    // The conditions

    /** No step of any run, and no flush, finds all blocks taken. */
    ghost predicate ReserveLasts() {
      forall a, moves :: Initial(a) && Possible(a, moves) ==> After(a, moves).ready >= 1
    }

    lemma ReserveLastsIff()
      requires Valid()
      ensures Total() <= (reserve - 1) * perBlock ==> ReserveLasts()
      ensures reserve <= data && Busy(reserve - 1) ==> (ReserveLasts() <==> Total() <= (reserve - 1) * perBlock)
    {
      hide Sound, After, Possible, Whole;
      WholeBelow(Total(), perBlock, reserve - 1);
      if Total() <= (reserve - 1) * perBlock {
        forall a, moves | Initial(a) && Possible(a, moves) ensures After(a, moves).ready >= 1 {
          RunSound(a, moves);
          ReadyBound(After(a, moves));
        }
      } else if reserve <= data && Busy(reserve - 1) {
        var a := Account(reserve - 1, 0, 0, 0, 1, 1, 0, 0, 0, false, 0);
        EpochRun(a);
      }
    }

    /** In every run a collector that has used up its copies has made enough blocks ready for a flush. */
    ghost predicate CopiesLast() {
      forall a, moves :: Initial(a) && Possible(a, moves) ==>
                           var e := After(a, moves); e.gcprog == copies ==> e.ready + e.invalid >= reserve
    }

    /** It retires more blocks than the epoch takes. */
    lemma CopiesLastIff()
      requires Valid()
      ensures Whole(copies, victim) > Whole(Total(), perBlock) ==> CopiesLast()
      ensures reserve <= data && Busy(reserve - 1) ==> (CopiesLast() <==> Whole(copies, victim) > Whole(Total(), perBlock))
    {
      hide Sound, After, Possible, Whole;
      if Whole(copies, victim) > Whole(Total(), perBlock) {
        forall a, moves | Initial(a) && Possible(a, moves) && After(a, moves).gcprog == copies
          ensures After(a, moves).ready + After(a, moves).invalid >= reserve
        {
          RunSound(a, moves);
          ReadyBound(After(a, moves));
          SoundRetired(After(a, moves));
        }
      } else if reserve <= data && Busy(reserve - 1) {
        var a := Account(reserve - 1, 0, 0, 0, 1, 1, 0, 0, 0, false, 0);
        EpochRun(a);
      }
    }

    /** The move writes a page of the log. */
    predicate Pages(a: Account, m: Move) {
      m.Flush? || ((m.Write? || m.Copy?) && a.ptr == pairs)
    }

    /** In every run the pages of the log are written where the log may be. */
    ghost predicate LogLasts() {
      forall a, moves, m :: Initial(a) && Possible(a, moves) && Can(After(a, moves), m) && Pages(After(a, moves), m) ==>
                              After(a, moves).k < delta * pages
    }

    lemma LogLastsIff()
      requires Valid()
      ensures Total() <= pairs * ((delta - threshold) * pages) ==> LogLasts()
      ensures Busy(reserve + Whole(Total(), perBlock)) ==> (LogLasts() <==> Total() <= pairs * ((delta - threshold) * pages))
    {
      hide Sound, After, Possible, Whole, Can;
      var room := (delta - threshold) * pages;
      Distribute(delta, threshold, pages);
      Monotone(1, delta - threshold, pages);
      WholeBelow(Total(), pairs, room);
      if Total() <= pairs * room {
        forall a, moves, m | Initial(a) && Possible(a, moves) && Can(After(a, moves), m) ensures After(a, moves).k < delta * pages {
          RunSound(a, moves);
          PageBound(After(a, moves));
        }
      } else if Busy(reserve + Whole(Total(), perBlock)) {
        LogOverrun();
      }
    }

    lemma LogOverrun()
      requires Valid() && Busy(reserve + Whole(Total(), perBlock)) && threshold * pages + Whole(Total(), pairs) >= delta * pages
      ensures !LogLasts()
    {
      hide Sound, After, Possible, Whole;
      var a := Account(reserve + Whole(Total(), perBlock), 0, 0, 0, 1, 1, 0, 0, 0, false, 0);
      Monotone(1, threshold, pages);
      FlushesRun(a, threshold * pages - 1);
      var b, moves := After(a, Flushes(threshold * pages - 1)), Writes(writes) + Copies(copies);
      EpochRun(b);
      Then(a, Flushes(threshold * pages - 1), moves);
      assert Can(After(b, moves), Flush);
    }

    /** With the threshold that the layer computes from the writes alone, two blocks of the log are for the copies. */
    lemma ThresholdIff()
      requires Valid() && threshold == delta - (writes / (pairs * pages) + 2)
      ensures writes % (pairs * pages) + copies <= 2 * (pairs * pages) ==> LogLasts()
      ensures Busy(reserve + Whole(Total(), perBlock)) ==> (LogLasts() <==> writes % (pairs * pages) + copies <= 2 * (pairs * pages))
    {
      var full := pairs * pages;
      var q := writes / full;
      LogLastsIff();
      hide LogLasts, Whole;
      Split(writes, full);
      Successor(q, full);
      Successor(q + 1, full);
      Associate(pairs, q + 2, pages);
    }
  }
}
