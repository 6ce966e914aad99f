/**
 The address tables: l2p takes a logical sector to its physical sector (N_PAS when it has
 none), p2l goes back (N_LAS when nothing is there), and vcnts says how many logical
 sectors live in each block.  l2p[N_LAS], p2l[N_PAS] and vcnts[BLOCKS_TOTAL] are sinks
 that absorb updates for sectors that have no place; nothing is promised about them.
 */
module Mapping {
  import opened Geometry

  type Count16 = c: int | 0 <= c < 0x1_0000

  /** Sixteen-bit counters wrap around. */
  function Up(c: int): Count16 { (c + 1) % 0x1_0000 }
  function Down(c: int): Count16 { (c - 1) % 0x1_0000 }

  /** How many of the first n logical sectors live in block b. */
  ghost function CountIn(l2p: seq<Word>, n: nat, b: int): nat
    requires n <= |l2p|
  {
    if n == 0 then 0 else CountIn(l2p, n - 1, b) + if Pba(l2p[n - 1]) == b then 1 else 0
  }

  /** Some logical sector lives in block b. */
  ghost predicate Touches(l2p: seq<Word>, b: int)
    requires |l2p| >= N_LAS
  {
    exists l :: 0 <= l < N_LAS && Pba(l2p[l]) == b
  }

  /** How many data blocks below block n hold some logical sector. */
  ghost function TouchedBlocks(l2p: seq<Word>, n: nat): nat
    requires |l2p| >= N_LAS
  {
    if n <= PBA_DATA then 0 else TouchedBlocks(l2p, n - 1) + if Touches(l2p, n - 1) then 1 else 0
  }

  /** Every sector is unmapped or mapped into the data region. */
  ghost predicate InRange(l2p: seq<Word>)
    requires |l2p| >= N_LAS
  {
    forall l :: 0 <= l < N_LAS ==> PBA_DATA * SECTORS_PER_BLOCK <= l2p[l] <= N_PAS
  }

  /** No two sectors share a physical sector. */
  ghost predicate Injective(l2p: seq<Word>)
    requires |l2p| >= N_LAS
  {
    forall i, j :: 0 <= i < j < N_LAS && l2p[i] == l2p[j] ==> l2p[i] == N_PAS
  }

  /** p2l is the exact inverse of l2p. */
  ghost predicate Inverse(l2p: seq<Word>, p2l: seq<Word>)
    requires |l2p| >= N_LAS && |p2l| == N_PAS + 1
  {
    && (forall l :: 0 <= l < N_LAS && l2p[l] < N_PAS ==> p2l[l2p[l]] == l)
    && (forall a :: 0 <= a < N_PAS ==> p2l[a] <= N_LAS)
    && (forall a :: 0 <= a < N_PAS && p2l[a] < N_LAS ==> l2p[p2l[a]] == a)
  }

  /** Every real block's count is exact. */
  ghost predicate Counted(l2p: seq<Word>, vcnts: seq<Count16>)
    requires |l2p| >= N_LAS && |vcnts| == BLOCKS_TOTAL + 1
  {
    forall b :: 0 <= b < BLOCKS_TOTAL ==> vcnts[b] == CountIn(l2p, N_LAS, b)
  }

  ghost predicate Consistent(l2p: seq<Word>, p2l: seq<Word>, vcnts: seq<Count16>) {
    && |l2p| == N_LAS + 1 && |p2l| == N_PAS + 1 && |vcnts| == BLOCKS_TOTAL + 1
    && InRange(l2p) && Inverse(l2p, p2l) && Counted(l2p, vcnts)
  }

  lemma InverseIsInjective(l2p: seq<Word>, p2l: seq<Word>)
    requires |l2p| >= N_LAS && |p2l| == N_PAS + 1
    requires InRange(l2p) && Inverse(l2p, p2l)
    ensures Injective(l2p)
  {
  }

  /** Moving one sector changes the count of at most its old and its new block. */
  lemma {:induction false} CountUpdate(l2p: seq<Word>, n: nat, l: nat, a: Word, b: int)
    requires n <= |l2p| && l < |l2p|
    ensures CountIn(l2p[l := a], n, b) == CountIn(l2p, n, b)
              + (if l < n && Pba(a) == b then 1 else 0) - (if l < n && Pba(l2p[l]) == b then 1 else 0)
  {
    if n > 0 {
      CountUpdate(l2p, n - 1, l, a, b);
    }
  }

  lemma {:induction false} CountMonotone(l2p: seq<Word>, m: nat, n: nat, b: int)
    requires m <= n <= |l2p|
    ensures CountIn(l2p, m, b) <= CountIn(l2p, n, b)
  {
    if m < n {
      CountMonotone(l2p, m, n - 1, b);
    }
  }

  /** A mapped sector is counted. */
  lemma CountPositive(l2p: seq<Word>, n: nat, l: nat, b: int)
    requires l < n <= |l2p| && Pba(l2p[l]) == b
    ensures CountIn(l2p, n, b) >= 1
  {
    CountMonotone(l2p, l + 1, n, b);
  }

  /** A block with count zero is untouched. */
  lemma {:induction false} CountZero(l2p: seq<Word>, n: nat, b: int)
    requires n <= |l2p|
    ensures CountIn(l2p, n, b) == 0 <==> forall l :: 0 <= l < n ==> Pba(l2p[l]) != b
  {
    if n > 0 {
      CountZero(l2p, n - 1, b);
    }
  }

  lemma {:induction false} IntervalSize(s: set<int>, lo: int, hi: int)
    requires lo <= hi && forall x :: x in s ==> lo <= x < hi
    ensures |s| <= hi - lo
    decreases hi - lo
  {
    if lo == hi {
      assert s == {};
    } else {
      var t := s - {hi - 1};
      IntervalSize(t, lo, hi - 1);
      assert s == if hi - 1 in s then t + {hi - 1} else t;
    }
  }

  /** The physical sectors of block b that the first n logical sectors use. */
  lemma {:induction false} Residents(l2p: seq<Word>, n: nat, b: int) returns (t: set<int>)
    requires |l2p| >= N_LAS && n <= N_LAS && Injective(l2p) && 0 <= b < BLOCKS_TOTAL
    ensures |t| == CountIn(l2p, n, b)
    ensures forall a :: a in t ==> Pba(a) == b && exists l :: 0 <= l < n && l2p[l] == a
  {
    if n == 0 {
      t := {};
    } else {
      t := Residents(l2p, n - 1, b);
      if Pba(l2p[n - 1]) == b {
        assert l2p[n - 1] !in t;
        t := t + {l2p[n - 1]};
      }
    }
  }

  /** An injective map never puts more sectors into a block than the block has. */
  lemma CountBounded(l2p: seq<Word>, n: nat, b: int)
    requires |l2p| >= N_LAS && n <= N_LAS && Injective(l2p) && 0 <= b < BLOCKS_TOTAL
    ensures CountIn(l2p, n, b) <= SECTORS_PER_BLOCK
  {
    var t := Residents(l2p, n, b);
    IntervalSize(t, b * SECTORS_PER_BLOCK, b * SECTORS_PER_BLOCK + SECTORS_PER_BLOCK);
  }

  /** The counts of the blocks below block n, added up. */
  ghost function SumCounts(l2p: seq<Word>, m: nat, n: nat): nat
    requires m <= |l2p|
  {
    if n == 0 then 0 else SumCounts(l2p, m, n - 1) + CountIn(l2p, m, n - 1)
  }

  lemma {:induction false} SumStep(l2p: seq<Word>, m: nat, n: nat)
    requires 0 < m <= |l2p|
    ensures SumCounts(l2p, m, n) == SumCounts(l2p, m - 1, n)
              + if 0 <= Pba(l2p[m - 1]) < n then 1 else 0
  {
    if n > 0 {
      SumStep(l2p, m, n - 1);
    }
  }

  lemma {:induction false} SumZero(l2p: seq<Word>, n: nat)
    ensures SumCounts(l2p, 0, n) == 0
  {
    if n > 0 {
      SumZero(l2p, n - 1);
    }
  }

  /** Each logical sector is counted in at most one block. */
  lemma {:induction false} SumBounded(l2p: seq<Word>, m: nat, n: nat)
    requires m <= |l2p|
    ensures SumCounts(l2p, m, n) <= m
  {
    if m == 0 {
      SumZero(l2p, n);
    } else {
      SumBounded(l2p, m - 1, n);
      SumStep(l2p, m, n);
    }
  }

  /** Moving a sector to a free physical sector keeps the tables consistent. */
  lemma RemapInverse(l2p: seq<Word>, p2l: seq<Word>, lsa: int, psa: Word)
    requires |l2p| == N_LAS + 1 && |p2l| == N_PAS + 1
    requires InRange(l2p) && Inverse(l2p, p2l)
    requires 0 <= lsa < N_LAS && psa < N_PAS && p2l[psa] == N_LAS
    ensures Inverse(l2p[lsa := psa], p2l[l2p[lsa] := N_LAS][psa := lsa])
  {
  }

  /** The count of block b, corrected for a sector that moves to psa, is exact again. */
  ghost predicate Recounted(l2p: seq<Word>, vcnts: seq<Count16>, lsa: int, psa: Word, b: int)
    requires |l2p| == N_LAS + 1 && |vcnts| == BLOCKS_TOTAL + 1 && 0 <= lsa < N_LAS && 0 <= b < BLOCKS_TOTAL
  {
    vcnts[b] as int + (if Pba(psa) == b then 1 else 0) - (if Pba(l2p[lsa]) == b then 1 else 0)
      == CountIn(l2p[lsa := psa], N_LAS, b) <= SECTORS_PER_BLOCK
  }

  lemma RemapCount(l2p: seq<Word>, vcnts: seq<Count16>, lsa: int, psa: Word, b: int)
    requires |l2p| == N_LAS + 1 && |vcnts| == BLOCKS_TOTAL + 1 && 0 <= lsa < N_LAS && 0 <= b < BLOCKS_TOTAL
    requires vcnts[b] as int == CountIn(l2p, N_LAS, b) && Injective(l2p[lsa := psa])
    ensures Recounted(l2p, vcnts, lsa, psa, b)
  {
    hide CountIn, Injective;
    CountUpdate(l2p, N_LAS, lsa, psa, b);
    CountBounded(l2p[lsa := psa], N_LAS, b);
  }

  lemma RemapCounts(l2p: seq<Word>, p2l: seq<Word>, vcnts: seq<Count16>, lsa: int, psa: Word)
    requires Consistent(l2p, p2l, vcnts)
    requires 0 <= lsa < N_LAS && PBA_DATA * SECTORS_PER_BLOCK <= psa < N_PAS && p2l[psa] == N_LAS
    ensures l2p[lsa] < N_PAS ==> 1 <= vcnts[Pba(l2p[lsa])]
    ensures forall b :: 0 <= b < BLOCKS_TOTAL ==> Recounted(l2p, vcnts, lsa, psa, b)
  {
    RemapInverse(l2p, p2l, lsa, psa);
    InverseIsInjective(l2p[lsa := psa], p2l[l2p[lsa] := N_LAS][psa := lsa]);
    hide CountIn, Inverse, Injective, Recounted;
    if l2p[lsa] < N_PAS {
      CountPositive(l2p, N_LAS, lsa, Pba(l2p[lsa]));
    }
    forall b | 0 <= b < BLOCKS_TOTAL ensures Recounted(l2p, vcnts, lsa, psa, b) {
      RemapCount(l2p, vcnts, lsa, psa, b);
    }
  }

  /** The valid counts after one sector leaves address from and one arrives at address to. */
  function Moved(vcnts: seq<Count16>, from: Word, to: Word): (r: seq<Count16>)
    requires |vcnts| == BLOCKS_TOTAL + 1 && from <= N_PAS && to <= N_PAS
    ensures |r| == |vcnts|
  {
    var v := vcnts[Pba(from) := Down(vcnts[Pba(from)])];
    v[Pba(to) := Up(v[Pba(to)])]
  }

  /** No sixteen-bit count wraps around. */
  lemma MovedAt(l2p: seq<Word>, vcnts: seq<Count16>, lsa: int, psa: Word, b: int)
    requires |l2p| == N_LAS + 1 && |vcnts| == BLOCKS_TOTAL + 1 && 0 <= lsa < N_LAS && 0 <= b < BLOCKS_TOTAL
    requires l2p[lsa] <= N_PAS && psa < N_PAS && Recounted(l2p, vcnts, lsa, psa, b)
    requires l2p[lsa] < N_PAS ==> 1 <= vcnts[Pba(l2p[lsa])]
    ensures Moved(vcnts, l2p[lsa], psa)[b] == vcnts[b] as int + (if Pba(psa) == b then 1 else 0) - (if Pba(l2p[lsa]) == b then 1 else 0)
    ensures Moved(vcnts, l2p[lsa], psa)[b] == CountIn(l2p[lsa := psa], N_LAS, b)
  {
    hide CountIn;
  }

  lemma RemapConsistent(l2p: seq<Word>, p2l: seq<Word>, vcnts: seq<Count16>, lsa: int, psa: Word)
    requires Consistent(l2p, p2l, vcnts)
    requires 0 <= lsa < N_LAS && PBA_DATA * SECTORS_PER_BLOCK <= psa < N_PAS && p2l[psa] == N_LAS
    ensures Consistent(l2p[lsa := psa], p2l[l2p[lsa] := N_LAS][psa := lsa], Moved(vcnts, l2p[lsa], psa))
    ensures forall b :: 0 <= b < BLOCKS_TOTAL ==>
              Moved(vcnts, l2p[lsa], psa)[b] == vcnts[b] as int + (if Pba(psa) == b then 1 else 0) - (if Pba(l2p[lsa]) == b then 1 else 0)
  {
    RemapInverse(l2p, p2l, lsa, psa);
    RemapCounts(l2p, p2l, vcnts, lsa, psa);
    hide CountIn, Inverse, Recounted, Moved;
    forall b | 0 <= b < BLOCKS_TOTAL
      ensures Moved(vcnts, l2p[lsa], psa)[b] == vcnts[b] as int + (if Pba(psa) == b then 1 else 0) - (if Pba(l2p[lsa]) == b then 1 else 0)
      ensures Moved(vcnts, l2p[lsa], psa)[b] == CountIn(l2p[lsa := psa], N_LAS, b)
    {
      MovedAt(l2p, vcnts, lsa, psa, b);
    }
  }

  class Tables {
    const l2p: array<Word>
    const p2l: array<Word>
    const vcnts: array<Count16>
    /** What the three arrays hold. */
    ghost var L: seq<Word>
    ghost var P: seq<Word>
    ghost var V: seq<Count16>

    ghost predicate Sized() {
      && l2p.Length == N_LAS + 1 && p2l.Length == N_PAS + 1 && vcnts.Length == BLOCKS_TOTAL + 1
      && l2p != p2l
    }

    ghost predicate Valid()
      reads this, l2p, p2l, vcnts
    {
      && Sized() && L == l2p[..] && P == p2l[..] && V == vcnts[..]
      && Consistent(L, P, V)
    }

    constructor ()
      ensures Sized() && fresh(l2p) && fresh(p2l) && fresh(vcnts)
    {
      l2p := new Word[N_LAS + 1](_ => N_PAS);
      p2l := new Word[N_PAS + 1](_ => N_LAS);
      vcnts := new Count16[BLOCKS_TOTAL + 1](_ => 0);
    }

    lemma Facts()
      requires Valid()
      ensures |L| == N_LAS + 1 && |P| == N_PAS + 1 && |V| == BLOCKS_TOTAL + 1 && L == l2p[..] && P == p2l[..] && V == vcnts[..]
      ensures forall l :: 0 <= l < N_LAS ==> PBA_DATA * SECTORS_PER_BLOCK <= L[l] <= N_PAS
      ensures Consistent(L, P, V)
    {
    }

    /** Retires the old place of lsa and gives it the free physical sector psa. */
    method Remap(lsa: int, psa: Word)
      requires Valid()
      requires 0 <= lsa < N_LAS && PBA_DATA * SECTORS_PER_BLOCK <= psa < N_PAS && P[psa] == N_LAS
      modifies this, l2p, p2l, vcnts
      ensures Valid()
      ensures L == old(L)[lsa := psa]
      ensures P == old(P)[old(L)[lsa] := N_LAS][psa := lsa]
      ensures old(L)[lsa] <= N_PAS && V == Moved(old(V), old(L)[lsa], psa)
    {
      RemapConsistent(L, P, V, lsa, psa);
      ghost var l, p, v := L[lsa := psa], P[L[lsa] := N_LAS][psa := lsa], Moved(V, L[lsa], psa);
      var prev := l2p[lsa];
      p2l[prev] := N_LAS;
      vcnts[Pba(prev)] := Down(vcnts[Pba(prev)]);
      l2p[lsa] := psa;
      p2l[psa] := lsa;
      vcnts[Pba(psa)] := Up(vcnts[Pba(psa)]);
      assert l2p[..] == l && p2l[..] == p && vcnts[..] == v;
      L, P, V := l, p, v;
    }

    /** Rebuilds p2l from l2p alone. */
    method ReconstructP2l()
      requires Sized() && InRange(l2p[..]) && Injective(l2p[..])
      modifies p2l
      ensures Inverse(l2p[..], p2l[..])
    {
      var idx := 0;
      while idx != N_PAS + 1
        invariant 0 <= idx <= N_PAS + 1
        invariant forall a :: 0 <= a < idx ==> p2l[a] == N_LAS
      {
        p2l[idx] := N_LAS;
        idx := idx + 1;
      }
      idx := 0;
      while idx != N_LAS
        invariant 0 <= idx <= N_LAS
        invariant forall l :: 0 <= l < idx && l2p[l] < N_PAS ==> p2l[l2p[l]] == l
        invariant forall a :: 0 <= a < N_PAS ==> p2l[a] == N_LAS || (p2l[a] < idx && l2p[p2l[a]] == a)
      {
        var pa := l2p[idx];
        if pa < N_PAS {
          p2l[pa] := idx;
        }
        idx := idx + 1;
      }
    }

    /** Rebuilds the valid counts from l2p alone. */
    method ReconstructVcnts()
      requires Sized() && InRange(l2p[..]) && Injective(l2p[..])
      modifies vcnts
      ensures Counted(l2p[..], vcnts[..])
    {
      ghost var l := l2p[..];
      var idx := 0;
      while idx != BLOCKS_TOTAL
        invariant 0 <= idx <= BLOCKS_TOTAL
        invariant forall b :: 0 <= b < idx ==> vcnts[b] == 0
      {
        vcnts[idx] := 0;
        idx := idx + 1;
      }
      var sectid := 0;
      while sectid != N_LAS
        invariant 0 <= sectid <= N_LAS
        invariant forall b :: 0 <= b < BLOCKS_TOTAL ==> vcnts[b] == CountIn(l, sectid, b)
      {
        var pba := Pba(l2p[sectid]);
        if pba < BLOCKS_TOTAL {
          CountBounded(l, sectid + 1, pba);
        }
        vcnts[pba] := Up(vcnts[pba]);
        sectid := sectid + 1;
      }
    }

    /** Rebuilds both tables from l2p alone. */
    method Reconstruct()
      requires Sized() && InRange(l2p[..]) && Injective(l2p[..])
      modifies this, p2l, vcnts
      ensures Valid() && L == l2p[..]
    {
      hide Inverse, Counted, InRange, Injective;
      ReconstructP2l();
      ReconstructVcnts();
      L, P, V := l2p[..], p2l[..], vcnts[..];
    }

    /** The check that recovery makes of its map: it fails exactly when the map is not injective. */
    method CheckInjective() returns (failed: bool)
      requires Sized() && InRange(l2p[..])
      ensures failed <==> !Injective(l2p[..])
    {
      var paUsed := new bool[N_PAS + 1](_ => false);
      failed := false;
      var sectid := 0;
      while sectid != N_LAS
        invariant 0 <= sectid <= N_LAS
        invariant forall a :: 0 <= a <= N_PAS ==> (paUsed[a] <==> exists l :: 0 <= l < sectid && l2p[l] == a)
        invariant failed <==> exists i, j :: 0 <= i < j < sectid && l2p[i] == l2p[j] && l2p[i] != N_PAS
      {
        var pa := l2p[sectid];
        if pa != N_PAS && paUsed[pa] {
          failed := true;
        }
        paUsed[pa] := true;
        sectid := sectid + 1;
      }
    }
  }
}
