/**
 How the logs keep transactions within bounds.  An operation is admitted on a reservation of
 MAX_OP_BLOCKS blocks; what follows from that depends on how many distinct blocks the operations
 really write.  Logging a block again is free, for an operation that has logged it already.
 */
module Admission {
  import opened Geometry
  import opened FlashDevice
  import opened TranslationLayer
  import opened Transactions
  import opened RedoLogging
  import opened SnapshotLogging
  import opened LogRuns

  // Who wrote what

  /** The blocks that each open operation has logged; who says which operation an event belongs to. */
  ghost function Owners(events: seq<Event>, who: seq<int>, design: Design): seq<set<int>>
    requires |events| == |who|
  {
    if events == [] then []
    else
      var k := |events| - 1;
      Owned(Owners(events[..k], who[..k], design), LedgerOf(events[..k], design), events[k], who[k])
  }

  ghost function Owned(owners: seq<set<int>>, l: Ledger, e: Event, w: int): seq<set<int>> {
    match e
    case Begin(admitted) => if admitted then owners + [{}] else owners
    case Read(_, _) => owners
    case Write(s, _, panicked) => if panicked then [] else if 0 <= w < |owners| then owners[w := owners[w] + {s}] else owners
    case End(Done) => if 0 <= w < |owners| then owners[..w] + owners[w + 1..] else owners
    case End(Crashed) => []
    case PowerLoss => []
    case Recover(_) => []
  }

  /** The event is one of an open operation that logs no more than b blocks. */
  ghost predicate Keeps(owners: seq<set<int>>, e: Event, w: int, b: nat) {
    match e
    case Write(s, _, _) => 0 <= w < |owners| && |owners[w] + {s}| <= b
    case End(_) => 0 <= w < |owners|
    case _ => true
  }

  /** All operations of the run keep to b blocks. */
  ghost predicate Kept(events: seq<Event>, who: seq<int>, b: nat, design: Design) {
    && |events| == |who|
    && (events == [] ||
        var k := |events| - 1;
        Kept(events[..k], who[..k], b, design) && Keeps(Owners(events[..k], who[..k], design), events[k], who[k], b))
  }

  lemma OneMoreKept(events: seq<Event>, who: seq<int>, e: Event, w: int, b: nat, design: Design)
    requires Kept(events, who, b, design)
    ensures Kept(events + [e], who + [w], b, design) <==> Keeps(Owners(events, who, design), e, w, b)
    ensures Owners(events + [e], who + [w], design) == Owned(Owners(events, who, design), LedgerOf(events, design), e, w)
  {
    hide Owned, Keeps, LedgerOf;
    assert (events + [e])[..|events|] == events && (who + [w])[..|who|] == who;
  }

  // How far the log can fill up

  /** How many blocks the open operations may still log between them. */
  ghost function Spare(owners: seq<set<int>>, b: nat): int {
    if owners == [] then 0 else Spare(owners[..|owners| - 1], b) + b - |owners[|owners| - 1]|
  }

  lemma {:induction false} SpareSplit(x: seq<set<int>>, y: seq<set<int>>, b: nat)
    ensures Spare(x + y, b) == Spare(x, b) + Spare(y, b)
  {
    if y == [] {
      assert x + y == x;
    } else {
      SpareSplit(x, y[..|y| - 1], b);
      assert (x + y)[..|x + y| - 1] == x + y[..|y| - 1];
    }
  }

  lemma {:induction false} SpareAround(owners: seq<set<int>>, w: int, b: nat)
    requires 0 <= w < |owners|
    ensures Spare(owners, b) == Spare(owners[..w], b) + (b - |owners[w]|) + Spare(owners[w + 1..], b)
  {
    assert owners[..w + 1][..w] == owners[..w];
    assert Spare(owners[..w + 1], b) == Spare(owners[..w], b) + b - |owners[w]|;
    hide Spare;
    SpareSplit(owners[..w + 1], owners[w + 1..], b);
    assert owners == owners[..w + 1] + owners[w + 1..];
  }

  lemma {:induction false} SpareWithin(owners: seq<set<int>>, b: nat)
    requires forall i :: 0 <= i < |owners| ==> |owners[i]| <= b
    ensures 0 <= Spare(owners, b) <= |owners| * b
  {
    if owners != [] {
      SpareWithin(owners[..|owners| - 1], b);
    }
  }

  /** What is logged, and what the open operations may still log. */
  ghost predicate Bounded(l: Ledger, owners: seq<set<int>>, b: nat) {
    && l.open == |owners|
    && (owners == [] ==> l.log == [])
    && (forall i :: 0 <= i < |owners| ==> |owners[i]| <= b && forall s :: s in owners[i] ==> s in l.log)
    && (owners != [] ==> |l.log| + Spare(owners, b) <= MAX_OP_BLOCKS + 2 * b)
  }

  lemma BeginBounded(l: Ledger, owners: seq<set<int>>, b: nat)
    requires Bounded(l, owners, b) && b <= MAX_OP_BLOCKS && l.Admits()
    ensures Bounded(l.(open := l.open + 1), owners + [{}], b)
  {
    SpareWithin(owners, b);
    var one: seq<set<int>> := [{}];
    SpareSplit(owners, one, b);
    assert Spare(one, b) == b by { assert one[..0] == []; }
    assert |owners| <= 2 && (|owners| == 2 ==> l.log == []);
  }

  lemma WriteBounded(l: Ledger, owners: seq<set<int>>, b: nat, s: int, w: int)
    requires Bounded(l, owners, b) && 0 <= w < |owners| && |owners[w] + {s}| <= b
    ensures Bounded(l.(log := Logged(l.log, s)), owners[w := owners[w] + {s}], b)
  {
    var after := owners[w := owners[w] + {s}];
    SpareAround(owners, w, b);
    SpareAround(after, w, b);
    assert after[..w] == owners[..w] && after[w + 1..] == owners[w + 1..];
    hide Spare;
    if s in owners[w] {
      assert owners[w] + {s} == owners[w];
    }
  }

  lemma EndBounded(l: Ledger, owners: seq<set<int>>, b: nat, w: int, design: Design)
    requires Bounded(l, owners, b) && 0 <= w < |owners|
    ensures Bounded(l.Recorded(End(Done), design), owners[..w] + owners[w + 1..], b)
  {
    SpareAround(owners, w, b);
    SpareSplit(owners[..w], owners[w + 1..], b);
  }

  lemma StepBounded(l: Ledger, owners: seq<set<int>>, e: Event, w: int, b: nat, design: Design)
    requires Bounded(l, owners, b) && b <= MAX_OP_BLOCKS && Guards(l, e, design) && Keeps(owners, e, w, b)
    ensures Bounded(l.Recorded(e, design), Owned(owners, l, e, w), b)
  {
    match e
    case Begin(admitted) =>
      if admitted {
        BeginBounded(l, owners, b);
      }
    case Write(s, _, panicked) =>
      if !panicked {
        WriteBounded(l, owners, b, s, w);
      }
    case End(Done) =>
      EndBounded(l, owners, b, w, design);
    case _ =>
  }

  lemma {:induction false} RunBounded(events: seq<Event>, who: seq<int>, b: nat, design: Design)
    requires Guarded(events, design) && Kept(events, who, b, design) && b <= MAX_OP_BLOCKS
    ensures Bounded(LedgerOf(events, design), Owners(events, who, design), b)
  {
    if events != [] {
      var k := |events| - 1;
      RunBounded(events[..k], who[..k], b, design);
      StepBounded(LedgerOf(events[..k], design), Owners(events[..k], who[..k], design), events[k], who[k], b, design);
    }
  }

  /** A call of an operation that keeps to b blocks fails only if the log can fill up so far. */
  lemma CallFits(l: Ledger, owners: seq<set<int>>, s: int, w: int, b: nat)
    requires Bounded(l, owners, b) && 0 <= w < |owners| && |owners[w] + {s}| <= b
    ensures |l.log| <= MAX_OP_BLOCKS + 2 * b && (s !in l.log ==> |l.log| < MAX_OP_BLOCKS + 2 * b)
  {
    SpareAround(owners, w, b);
    SpareWithin(owners[..w], b);
    SpareWithin(owners[w + 1..], b);
  }

  ghost predicate Panicked(e: Event) { e.Write? && e.panicked }

  /** The most that a log takes: the first number of logged sectors at which every call panics. */
  function Full(design: Design): int {
    if design.Redo? && design.size - 1 < LOG_SIZE then design.size - 1 else LOG_SIZE
  }

  lemma {:induction false} NoPanic(events: seq<Event>, who: seq<int>, b: nat, design: Design)
    requires Guarded(events, design) && Kept(events, who, b, design)
    requires if design.Redo? then MAX_OP_BLOCKS + 2 * b < Full(design) else b <= MAX_OP_BLOCKS
    ensures forall i :: 0 <= i < |events| ==> !Panicked(events[i])
  {
    if events != [] {
      var k := |events| - 1;
      NoPanic(events[..k], who[..k], b, design);
      RunBounded(events[..k], who[..k], b, design);
      if events[k].Write? {
        CallFits(LedgerOf(events[..k], design), Owners(events[..k], who[..k], design), events[k].s, who[k], b);
      }
    }
  }

  // How it does fill up

  datatype Script = Script(events: seq<Event>, who: seq<int>) {
    function Then(e: Event, w: int): Script { Script(events + [e], who + [w]) }
  }

  /** Events that happen as they are told: nothing is committed on the way, so nothing can crash. */
  ghost predicate Calm(events: seq<Event>, design: Design) {
    events == [] ||
    var k := |events| - 1;
    && Calm(events[..k], design) && (k > 0 ==> !Panicked(events[k - 1]))
    && match events[k]
       case Begin(_) => true
       case Write(_, _, _) => true
       case End(o) => o.Done? && LedgerOf(events[..k], design).open != 1
       case _ => false
  }

  /** A script that a log follows, with operations that keep to b blocks. */
  ghost predicate Fine(s: Script, b: nat, design: Design) {
    Guarded(s.events, design) && Kept(s.events, s.who, b, design) && Calm(s.events, design)
  }

  /** Where a script has led. */
  ghost predicate Leads(s: Script, b: nat, design: Design, l: Ledger, owners: seq<set<int>>) {
    Fine(s, b, design) && LedgerOf(s.events, design) == l && Owners(s.events, s.who, design) == owners
    && (s.events != [] ==> !Panicked(s.events[|s.events| - 1]))
  }

  lemma ThenLeads(s: Script, e: Event, w: int, b: nat, design: Design, l: Ledger, owners: seq<set<int>>)
    requires Leads(s, b, design, l, owners) && Guards(l, e, design) && Keeps(owners, e, w, b)
    requires e.Begin? || e.Write? || (e == End(Done) && l.open != 1)
    ensures Fine(s.Then(e, w), b, design)
    ensures !Panicked(e) ==> Leads(s.Then(e, w), b, design, l.Recorded(e, design), Owned(owners, l, e, w))
  {
    var t := s.Then(e, w);
    OneMoreEvent(s.events, e, design);
    OneMoreKept(s.events, s.who, e, w, b, design);
    assert t.events[..|t.events| - 1] == s.events;
  }

  /** The numbers from lo up to hi. */
  ghost function Range(lo: int, hi: int): (r: set<int>)
    ensures |r| == if lo < hi then hi - lo else 0
    ensures forall x :: x in r <==> lo <= x < hi
    decreases hi - lo
  {
    if lo >= hi then {} else Range(lo, hi - 1) + {hi - 1}
  }

  ghost function Upto(k: nat): seq<int> { seq(k, i => i) }

  /**
   A crowd of operations that log k sectors: one stays open, others come and go until ten sectors
   are logged, then two of them log b sectors each.
   */
  function Crowd(k: nat, b: nat, data: Sector): Script {
    if k == 0 then Script([], []).Then(Begin(true), 0)
    else if k == 1 then Crowd(0, b, data).Then(Begin(true), 1).Then(Write(0, data, false), 1)
    else if k <= MAX_OP_BLOCKS + 1 then
      Crowd(k - 1, b, data).Then(End(Done), 1).Then(Begin(true), 1).Then(Write(k - 1, data, false), 1)
    else Crowd(k - 1, b, data).Then(Write(k - 1, data, false), Writer(k, b))
  }

  /** Who logs the k-th sector. */
  function Writer(k: nat, b: nat): int { if k <= MAX_OP_BLOCKS + b then 1 else 0 }

  ghost function Newest(k: nat, b: nat): set<int> {
    if k <= MAX_OP_BLOCKS + 1 then {k - 1} else Range(MAX_OP_BLOCKS, if k <= MAX_OP_BLOCKS + b then k else MAX_OP_BLOCKS + b)
  }

  ghost function CrowdOwners(k: nat, b: nat): seq<set<int>> {
    if k == 0 then [{}] else [Range(MAX_OP_BLOCKS + b, k), Newest(k, b)]
  }

  ghost function CrowdLedger(k: nat): Ledger { Ledger(Upto(k), if k == 0 then 1 else 2, 0, 0) }

  lemma NothingLeads(b: nat, design: Design)
    ensures Leads(Script([], []), b, design, Empty(), [])
  {
  }

  lemma CrowdStart(b: nat, data: Sector, design: Design)
    ensures Leads(Crowd(0, b, data), b, design, CrowdLedger(0), CrowdOwners(0, b))
  {
    hide Leads, Fine;
    NothingLeads(b, design);
    ThenLeads(Script([], []), Begin(true), 0, b, design, Empty(), []);
    assert Empty().Recorded(Begin(true), design) == CrowdLedger(0);
    assert Owned([], Empty(), Begin(true), 0) == CrowdOwners(0, b);
  }

  /** A new operation comes and logs a sector. */
  lemma CrowdJoins(s: Script, k: nat, b: nat, data: Sector, design: Design, first: set<int>)
    requires 1 <= b && 1 <= k <= MAX_OP_BLOCKS + 1 && k <= Full(design)
    requires Leads(s, b, design, Ledger(Upto(k - 1), 1, 0, 0), [first])
    ensures Leads(s.Then(Begin(true), 1).Then(Write(k - 1, data, false), 1), b, design, CrowdLedger(k), [first, {k - 1}])
  {
    hide Leads, Fine, Upto, Full;
    var l := Ledger(Upto(k - 1), 1, 0, 0);
    UptoNext(k);
    ThenLeads(s, Begin(true), 1, b, design, l, [first]);
    var l1, o1 := l.(open := 2), [first] + [{}];
    assert l.Recorded(Begin(true), design) == l1;
    NotFull(l1, k - 1, design);
    ThenLeads(s.Then(Begin(true), 1), Write(k - 1, data, false), 1, b, design, l1, o1);
    assert o1[1 := o1[1] + {k - 1}] == [first, {k - 1}];
  }

  lemma UptoNext(k: nat)
    requires k >= 1
    ensures Logged(Upto(k - 1), k - 1) == Upto(k) && k - 1 !in Upto(k - 1) && |Upto(k - 1)| == k - 1
  {
  }

  lemma {:induction false} CrowdLeads(k: nat, b: nat, data: Sector, design: Design)
    requires b >= 1 && k <= MAX_OP_BLOCKS + 2 * b && k <= Full(design)
    ensures Leads(Crowd(k, b, data), b, design, CrowdLedger(k), CrowdOwners(k, b))
  {
    hide Leads, Fine, Range, Upto;
    if k == 0 {
      CrowdStart(b, data, design);
    } else {
      CrowdLeads(k - 1, b, data, design);
      var s, l, o := Crowd(k - 1, b, data), CrowdLedger(k - 1), CrowdOwners(k - 1, b);
      var first := Range(MAX_OP_BLOCKS + b, k);
      if k <= MAX_OP_BLOCKS + 1 {
        assert first == {};
        if k > 1 {
          ThenLeads(s, End(Done), 1, b, design, l, o);
          assert o[..1] + o[2..] == [{}];
          CrowdJoins(s.Then(End(Done), 1), k, b, data, design, {});
        } else {
          CrowdJoins(s, k, b, data, design, {});
        }
      } else {
        CrowdGrows(s, k, b, data, design);
      }
    }
  }

  lemma GrownOwners(k: nat, b: nat)
    requires b >= 1 && MAX_OP_BLOCKS + 1 < k <= MAX_OP_BLOCKS + 2 * b
    ensures var o, w := CrowdOwners(k - 1, b), Writer(k, b); o[w := o[w] + {k - 1}] == CrowdOwners(k, b)
    ensures |CrowdOwners(k, b)[Writer(k, b)]| <= b
  {
    assert Newest(k - 1, b) == Range(MAX_OP_BLOCKS, if k - 1 <= MAX_OP_BLOCKS + b then k - 1 else MAX_OP_BLOCKS + b);
    if k <= MAX_OP_BLOCKS + b {
      assert Range(MAX_OP_BLOCKS + b, k - 1) == Range(MAX_OP_BLOCKS + b, k);
      assert Newest(k - 1, b) + {k - 1} == Newest(k, b);
    } else {
      assert Newest(k - 1, b) == Newest(k, b);
      assert Range(MAX_OP_BLOCKS + b, k - 1) + {k - 1} == Range(MAX_OP_BLOCKS + b, k);
    }
  }

  lemma CrowdGrows(s: Script, k: nat, b: nat, data: Sector, design: Design)
    requires b >= 1 && MAX_OP_BLOCKS + 1 < k <= MAX_OP_BLOCKS + 2 * b && k <= Full(design)
    requires Leads(s, b, design, CrowdLedger(k - 1), CrowdOwners(k - 1, b))
    ensures Leads(s.Then(Write(k - 1, data, false), Writer(k, b)), b, design, CrowdLedger(k), CrowdOwners(k, b))
  {
    hide Leads, Fine, Range, Newest, Upto, Full;
    var l, o, w := CrowdLedger(k - 1), CrowdOwners(k - 1, b), Writer(k, b);
    UptoNext(k);
    GrownOwners(k, b);
    NotFull(l, k - 1, design);
    assert o[w] + {k - 1} == CrowdOwners(k, b)[w];
    ThenLeads(s, Write(k - 1, data, false), w, b, design, l, o);
  }

  lemma NotFull(l: Ledger, s: int, design: Design)
    requires l.open >= 1 && |l.log| < Full(design)
    ensures !l.Fails(s, design)
  {
  }

  // When the redo log panics

  function AtLeast0(k: int): nat { if k < 0 then 0 else k }

  /** Once the log is full, the operation that logged the last sector logs it again. */
  function PanicScript(size: int, b: nat, data: Sector): Script {
    var k := AtLeast0(Full(Redo(size)));
    if k == 0 then Crowd(0, b, data).Then(Write(0, data, true), 0)
    else Crowd(k, b, data).Then(Write(k - 1, data, true), Writer(k, b))
  }

  lemma PanicHappens(size: int, b: nat, data: Sector)
    requires b >= 1 && MAX_OP_BLOCKS + 2 * b >= Full(Redo(size))
    ensures var s := PanicScript(size, b, data); Fine(s, b, Redo(size)) && Panicked(s.events[|s.events| - 1])
  {
    hide Fine, Leads, Crowd, CrowdOwners;
    var design, k := Redo(size), AtLeast0(Full(Redo(size)));
    if k == 0 {
      CrowdStart(b, data, design);
      CrowdOwns(0, b);
      ThenLeads(Crowd(0, b, data), Write(0, data, true), 0, b, design, CrowdLedger(0), CrowdOwners(0, b));
    } else {
      CrowdLeads(k, b, data, design);
      var o, w := CrowdOwners(k, b), Writer(k, b);
      CrowdOwns(k, b);
      ThenLeads(Crowd(k, b, data), Write(k - 1, data, true), w, b, design, CrowdLedger(k), o);
    }
  }

  /** The operation that logged the last sector has it, and no more than b sectors. */
  lemma CrowdOwns(k: nat, b: nat)
    requires b >= 1 && k <= MAX_OP_BLOCKS + 2 * b
    ensures k == 0 ==> CrowdOwners(k, b) == [{}]
    ensures k > 0 ==> |CrowdOwners(k, b)| == 2 && var own := CrowdOwners(k, b)[Writer(k, b)]; own + {k - 1} == own && |own| <= b
  {
  }

  /** No run of operations that keep to b blocks makes the log panic. */
  ghost predicate PanicFree(b: nat, design: Design) {
    forall events, who :: Guarded(events, design) && Kept(events, who, b, design) ==> forall i :: 0 <= i < |events| ==> !Panicked(events[i])
  }

  /**
   Admitted operations that keep to b blocks never make the log panic exactly if ten blocks and
   twice b are less than the log takes.
   */
  lemma NeverPanics(b: nat, size: int)
    requires b >= 1
    ensures PanicFree(b, Redo(size)) <==> MAX_OP_BLOCKS + 2 * b < Full(Redo(size))
  {
    if MAX_OP_BLOCKS + 2 * b < Full(Redo(size)) {
      forall events, who | Guarded(events, Redo(size)) && Kept(events, who, b, Redo(size))
        ensures forall i :: 0 <= i < |events| ==> !Panicked(events[i])
      {
        NoPanic(events, who, b, Redo(size));
      }
    } else {
      var data: Sector := BlankSector();
      PanicHappens(size, b, data);
      var s := PanicScript(size, b, data);
      assert Guarded(s.events, Redo(size)) && Kept(s.events, s.who, b, Redo(size));
    }
  }

  function BlankSector(): Sector { seq(ENTRIES_PER_SECTOR, _ => 0) }

  /** The reservation is for MAX_OP_BLOCKS blocks, and if operations use it no size of the log area is enough. */
  lemma NoSizeSuffices(size: int)
    ensures !PanicFree(MAX_OP_BLOCKS, Redo(size))
  {
    NeverPanics(MAX_OP_BLOCKS, size);
  }

  /** With the area that the file system is made with, of LOG_SIZE sectors, nine blocks are the most. */
  lemma ShippedSize(b: nat)
    requires b >= 1
    ensures PanicFree(b, Redo(LOG_SIZE)) <==> b < MAX_OP_BLOCKS
  {
    NeverPanics(b, LOG_SIZE);
  }

  /** Over the snapshot disk the list of sectors never overruns exactly if operations keep to their reservation. */
  lemma NeverOverruns(b: nat, design: Design)
    requires b >= 1 && !design.Redo?
    ensures PanicFree(b, design) <==> b <= MAX_OP_BLOCKS
  {
    if b <= MAX_OP_BLOCKS {
      forall events, who | Guarded(events, design) && Kept(events, who, b, design)
        ensures forall i :: 0 <= i < |events| ==> !Panicked(events[i])
      {
        NoPanic(events, who, b, design);
      }
    } else {
      var data, k := BlankSector(), LOG_SIZE + 1;
      CrowdLeads(k - 1, b, data, design);
      GrownOwners(k, b);
      UptoNext(k);
      var s, o, w := Crowd(k - 1, b, data), CrowdOwners(k - 1, b), Writer(k, b);
      assert o[w] + {k - 1} == CrowdOwners(k, b)[w];
      ThenLeads(s, Write(k - 1, data, true), w, b, design, CrowdLedger(k - 1), o);
      assert Panicked(s.Then(Write(k - 1, data, true), w).events[|s.events|]);
    }
  }

  // The logs follow the scripts

  function RequestOf(e: Event): Request
    requires e.Begin? || e.Write? || e.End?
  {
    match e
    case Begin(_) => BeginRequest
    case Write(s, data, _) => WriteRequest(s, data)
    case End(_) => EndRequest
  }

  /** The sectors of the events are in the home area. */
  predicate Inside(events: seq<Event>, limit: int) {
    forall i :: 0 <= i < |events| ==> (events[i].Begin? || events[i].Write? || events[i].End?) && InArea(RequestOf(events[i]), limit)
  }

  lemma {:induction false} CalmAt(events: seq<Event>, design: Design, k: nat)
    requires Calm(events, design) && Guarded(events, design) && k < |events|
    ensures Guards(LedgerOf(events[..k], design), events[k], design) && (k > 0 ==> !Panicked(events[k - 1]))
    ensures events[k].Begin? || events[k].Write? || (events[k] == End(Done) && LedgerOf(events[..k], design).open != 1)
  {
    var n := |events| - 1;
    if k < n {
      CalmAt(events[..n], design, k);
      assert events[..n][..k] == events[..k];
    }
  }

  lemma Forced(p: Phase, l: Ledger, x: Event, e: Event, q: Phase, design: Design)
    requires p.Serving? && p.open == l.open && Allows(p, e, q, 1) && Guards(l, e, design) && Guards(l, x, design)
    requires x.Begin? || x.Write? || (x == End(Done) && l.open != 1)
    requires Asked(RequestOf(x), e)
    ensures e == x && (q.Serving? <==> !Panicked(x))
  {
  }

  /** One event of a script. */
  method RedoStep(log: RedoLog, x: Event, ghost p: Phase, ghost l: Ledger) returns (e: Event, ghost q: Phase)
    requires RedoMatches(log, p, l) && p.Serving? && Guards(l, x, Redo(log.area.size))
    requires x.Begin? || x.Write? || (x == End(Done) && l.open != 1)
    requires InArea(RequestOf(x), log.area.start)
    modifies log, log.disk, log.sector
    ensures e == x && Allows(p, x, q, 1) && (q.Serving? <==> !Panicked(x))
    ensures RedoMatches(log, q, l.Recorded(x, Redo(log.area.size)))
  {
    hide RedoLog.Up, RedoLog.Down, Guards, Allows, Asked, RedoLog.View;
    e, q := RedoTurn(log, RequestOf(x), true, p, l);
    Forced(p, l, x, e, q, Redo(log.area.size));
  }

  lemma RedoReady(log: RedoLog)
    requires log.Up() && log.n == 0 && log.outstanding == 0
    ensures RedoMatches(log, Serving(log.home, log.home, 0, false, 0), Empty())
  {
    log.Quiescent();
    assert log.sector[..0] == [];
  }

  /** The redo log does what a calm script says: nothing is left to chance. */
  method RedoScript(log: RedoLog, script: seq<Event>) returns (events: seq<Event>, ghost phases: seq<Phase>)
    requires log.Up() && log.n == 0 && log.outstanding == 0 && Inside(script, log.area.start)
    requires Guarded(script, Redo(log.area.size)) && Calm(script, Redo(log.area.size))
    modifies log, log.disk, log.sector
    ensures events == script && IsRun(phases, events, 1) && phases[0] == Serving(old(log.home), old(log.home), 0, false, 0)
  {
    hide LedgerOf, Guarded, Guards, Calm, Allows, RedoLog.Up, RedoMatches;
    ghost var design := Redo(log.area.size);
    NoEvents(design);
    RedoReady(log);
    events, phases := [], [Serving(log.home, log.home, 0, false, 0)];
    for i := 0 to |script|
      invariant events == script[..i] && |phases| == i + 1 && IsRun(phases, events, 1)
      invariant phases[0] == Serving(old(log.home), old(log.home), 0, false, 0)
      invariant RedoMatches(log, phases[i], LedgerOf(events, design))
      invariant phases[i].Serving? <==> i == 0 || !Panicked(script[i - 1])
    {
      CalmAt(script, design, i);
      ghost var l := LedgerOf(events, design);
      var e; ghost var q;
      e, q := RedoStep(log, script[i], phases[i], l);
      OneMoreEvent(events, e, design);
      assert script[..i + 1] == script[..i] + [script[i]];
      events, phases := events + [e], phases + [q];
    }
  }

  lemma {:induction false} CrowdInside(k: nat, b: nat, data: Sector)
    requires k <= LOG_SIZE
    ensures Inside(Crowd(k, b, data).events, LOG_SIZE)
  {
    if k > 0 {
      CrowdInside(k - 1, b, data);
    }
  }

  lemma PanicInside(size: int, b: nat, data: Sector)
    ensures Inside(PanicScript(size, b, data).events, LOG_SIZE)
  {
    CrowdInside(AtLeast0(Full(Redo(size))), b, data);
  }

  /** The redo log panics on operations that keep to b blocks, unless there is the room that they need. */
  method PanicRun(log: RedoLog, b: nat, data: Sector) returns (events: seq<Event>, ghost who: seq<int>, ghost phases: seq<Phase>)
    requires log.Up() && log.n == 0 && log.outstanding == 0 && log.area.start >= LOG_SIZE
    requires b >= 1 && MAX_OP_BLOCKS + 2 * b >= Full(Redo(log.area.size))
    modifies log, log.disk, log.sector
    ensures IsRun(phases, events, 1) && Kept(events, who, b, Redo(log.area.size))
    ensures |events| > 0 && Panicked(events[|events| - 1])
  {
    var script := PanicScript(log.area.size, b, data);
    PanicHappens(log.area.size, b, data);
    PanicInside(log.area.size, b, data);
    who := script.who;
    events, phases := RedoScript(log, script.events);
  }
}
