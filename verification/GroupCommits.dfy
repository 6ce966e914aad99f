/**
 The group form: commits are made durable in groups, while the disk takes only so many writes
 between two flushes and drops the others.
 */
module GroupCommits {
  import opened Geometry
  import opened FlashDevice
  import opened TranslationLayer
  import opened Transactions
  import opened SnapshotLogging
  import opened LogRuns
  import opened Admission

  // Commits that always fit

  /** The transactions of the run never have more than b blocks. */
  ghost predicate Within(events: seq<Event>, b: nat) {
    |LedgerOf(events, Group).log| <= b && (events == [] || Within(events[..|events| - 1], b))
  }

  lemma {:induction false} SmallCommitsFit(events: seq<Event>, b: nat)
    requires Within(events, b) && b <= MAX_OP_BLOCKS
    ensures var l := LedgerOf(events, Group); l.acc < GROUP && l.written <= MAX_OP_BLOCKS * l.acc && !l.Overflows()
  {
    if events != [] {
      SmallCommitsFit(events[..|events| - 1], b);
    }
  }

  // Operations of one block each that log eleven blocks together

  const CREW := 11

  /** One operation stays open, while j others come one by one, log a block each and go. */
  function Crew(s: Script, j: nat, data: Sector): Script {
    if j == 0 then s.Then(Begin(true), 0)
    else Crew(s, j - 1, data).Then(Begin(true), 1).Then(Write(j - 1, data, false), 1).Then(End(Done), 1)
  }

  /** They do so again and again, and commit each time. */
  function Rounds(r: nat, data: Sector): Script {
    if r == 0 then Script([], []) else Crew(Rounds(r - 1, data), CREW, data).Then(End(Done), 0)
  }

  /** A script without crashes and failures, with operations of one block. */
  ghost predicate Proper(s: Script) {
    && Guarded(s.events, Group) && Kept(s.events, s.who, 1, Group) && Roomy(s.events, Group) && Within(s.events, CREW)
    && Inside(s.events, LOG_SIZE) && forall i :: 0 <= i < |s.events| ==> StillUp(s.events[i])
  }

  ghost predicate Reaches(s: Script, l: Ledger, owners: seq<set<int>>) {
    Proper(s) && LedgerOf(s.events, Group) == l && Owners(s.events, s.who, Group) == owners
  }

  lemma ThenReaches(s: Script, e: Event, w: int, l: Ledger, owners: seq<set<int>>)
    requires Reaches(s, l, owners) && Guards(l, e, Group) && Keeps(owners, e, w, 1)
    requires e.Begin? || (e.Write? && 0 <= e.s < LOG_SIZE) || (e.End? && !l.Overflows())
    requires StillUp(e) && |l.Recorded(e, Group).log| <= CREW
    ensures Reaches(s.Then(e, w), l.Recorded(e, Group), Owned(owners, l, e, w))
  {
    hide Owned, Keeps, Guards;
    var t := s.Then(e, w);
    OneMoreEvent(s.events, e, Group);
    OneMoreRoomy(s.events, e, Group);
    OneMoreKept(s.events, s.who, e, w, 1, Group);
    assert t.events[..|t.events| - 1] == s.events;
  }

  lemma {:induction false} CrewReaches(s: Script, j: nat, data: Sector, acc: nat, written: nat)
    requires Reaches(s, Ledger([], 0, acc, written), []) && j <= CREW
    ensures Reaches(Crew(s, j, data), Ledger(Upto(j), 1, acc, written), [{}])
  {
    hide Reaches;
    if j == 0 {
      var l, none: seq<set<int>> := Ledger([], 0, acc, written), [];
      ThenReaches(s, Begin(true), 0, l, none);
      assert Owned(none, l, Begin(true), 0) == [{}];
      assert Upto(0) == [];
    } else {
      CrewReaches(s, j - 1, data, acc, written);
      CrewLogs(Crew(s, j - 1, data), j, data, acc, written);
    }
  }

  /** One operation comes, logs a block and goes. */
  lemma CrewLogs(s: Script, j: nat, data: Sector, acc: nat, written: nat)
    requires 1 <= j <= CREW && Reaches(s, Ledger(Upto(j - 1), 1, acc, written), [{}])
    ensures Reaches(s.Then(Begin(true), 1).Then(Write(j - 1, data, false), 1).Then(End(Done), 1), Ledger(Upto(j), 1, acc, written), [{}])
  {
    hide Reaches, Upto, Logged;
    UptoNext(j);
    UptoNext(j + 1);
    var l, o: seq<set<int>> := Ledger(Upto(j - 1), 1, acc, written), [{}];
    ThenReaches(s, Begin(true), 1, l, o);
    var l1, o1 := l.(open := 2), o + [{}];
    assert Owned(o, l, Begin(true), 1) == o1;
    var s1 := s.Then(Begin(true), 1);
    ThenReaches(s1, Write(j - 1, data, false), 1, l1, o1);
    var l2, o2 := l1.(log := Upto(j)), o1[1 := {j - 1}];
    assert o1[1] + {j - 1} == {j - 1};
    assert Owned(o1, l1, Write(j - 1, data, false), 1) == o2;
    ThenReaches(s1.Then(Write(j - 1, data, false), 1), End(Done), 1, l2, o2);
    assert o2[..1] + o2[2..] == [{}];
  }

  /** The last operation ends, and the commit fits. */
  lemma CrewEnds(s: Script, acc: nat, written: nat)
    requires Reaches(s, Ledger(Upto(CREW), 1, acc, written), [{}])
    requires acc + 1 < GROUP && written + CREW <= MAX_WCNT
    ensures Reaches(s.Then(End(Done), 0), Ledger([], 0, acc + 1, written + CREW), [])
  {
    hide Reaches;
    var l, o: seq<set<int>> := Ledger(Upto(CREW), 1, acc, written), [{}];
    assert |l.log| == CREW;
    hide Upto;
    ThenReaches(s, End(Done), 0, l, o);
    assert o[..0] + o[1..] == [];
  }

  lemma {:induction false} RoundsReach(r: nat, data: Sector)
    requires r < GROUP && CREW * r <= MAX_WCNT
    ensures Reaches(Rounds(r, data), Ledger([], 0, r, CREW * r), [])
  {
    hide Reaches, Crew, Upto;
    if r == 0 {
      Nothing();
    } else {
      RoundsReach(r - 1, data);
      CrewReaches(Rounds(r - 1, data), CREW, data, r - 1, CREW * (r - 1));
      CrewEnds(Crew(Rounds(r - 1, data), CREW, data), r - 1, CREW * (r - 1));
    }
  }

  lemma Nothing()
    ensures Reaches(Script([], []), Ledger([], 0, 0, 0), [])
  {
  }

  lemma Reached(s: Script, l: Ledger, owners: seq<set<int>>)
    requires Reaches(s, l, owners)
    ensures Proper(s) && LedgerOf(s.events, Group) == l
  {
  }

  /** How often the eleven blocks fit. */
  const FITTING := 186

  /** The blocks have been logged once more, and one operation is still open. */
  function OverflowScript(data: Sector, other: Sector): Script {
    Crew(Rounds(FITTING, data), CREW, other)
  }

  lemma OverflowReached(data: Sector, other: Sector)
    ensures Proper(OverflowScript(data, other)) && LedgerOf(OverflowScript(data, other).events, Group).Overflows()
  {
    hide Reaches, Crew, Rounds, Proper, LedgerOf;
    RoundsReach(FITTING, data);
    CrewReaches(Rounds(FITTING, data), CREW, other, FITTING, CREW * FITTING);
    Reached(OverflowScript(data, other), Ledger(Upto(CREW), 1, FITTING, CREW * FITTING), [{}]);
  }

  /** No run of the group form, with operations of at most b blocks, comes to a commit that the disk has no room for. */
  ghost predicate OperationsFit(b: nat) {
    forall events, who :: Guarded(events, Group) && Roomy(events, Group) && Kept(events, who, b, Group) ==>
                            !LedgerOf(events, Group).Overflows()
  }

  /** However few blocks the operations have, if they overlap they can fill the disk. */
  lemma NoBoundFits(b: nat)
    ensures OperationsFit(b) <==> b == 0
  {
    hide Proper, OverflowScript, LedgerOf, Roomy;
    if b == 0 {
      forall events, who | Guarded(events, Group) && Roomy(events, Group) && Kept(events, who, b, Group)
        ensures !LedgerOf(events, Group).Overflows()
      {
        NothingLogged(events, who);
      }
    } else {
      var data := BlankSector();
      OverflowReached(data, data);
      ProperFacts(OverflowScript(data, data), b);
    }
  }

  lemma {:induction false} NothingLogged(events: seq<Event>, who: seq<int>)
    requires Kept(events, who, 0, Group)
    ensures LedgerOf(events, Group).log == [] && LedgerOf(events, Group).written == 0
  {
    if events != [] {
      var k := |events| - 1;
      NothingLogged(events[..k], who[..k]);
    }
  }

  lemma ProperFacts(s: Script, b: nat)
    requires Proper(s) && b >= 1
    ensures Guarded(s.events, Group) && Roomy(s.events, Group) && Kept(s.events, s.who, b, Group)
  {
    KeptMore(s.events, s.who, 1, b);
  }

  lemma {:induction false} KeptMore(events: seq<Event>, who: seq<int>, a: nat, b: nat)
    requires Kept(events, who, a, Group) && a <= b
    ensures Kept(events, who, b, Group)
  {
    if events != [] {
      KeptMore(events[..|events| - 1], who[..|events| - 1], a, b);
    }
  }

  /** No run of the group form with transactions of at most b blocks comes to a commit that the disk has no room for. */
  ghost predicate AlwaysFits(b: nat) {
    forall events :: Guarded(events, Group) && Roomy(events, Group) && Within(events, b) ==> !LedgerOf(events, Group).Overflows()
  }

  /** Exactly transactions of no more blocks than one operation may write always fit. */
  lemma GroupFits(b: nat)
    ensures AlwaysFits(b) <==> b <= MAX_OP_BLOCKS
  {
    if b <= MAX_OP_BLOCKS {
      forall events | Guarded(events, Group) && Roomy(events, Group) && Within(events, b)
        ensures !LedgerOf(events, Group).Overflows()
      {
        SmallCommitsFit(events, b);
      }
    } else {
      var data := BlankSector();
      OverflowReached(data, data);
      WithinMore(OverflowScript(data, data).events, CREW, b);
    }
  }

  lemma {:induction false} WithinMore(events: seq<Event>, a: nat, b: nat)
    requires Within(events, a) && a <= b
    ensures Within(events, b)
  {
    if events != [] {
      WithinMore(events[..|events| - 1], a, b);
    }
  }

  // One operation at a time

  /** No two operations are open at once. */
  ghost predicate Alone(events: seq<Event>) {
    LedgerOf(events, Group).open <= 1 && (events == [] || Alone(events[..|events| - 1]))
  }

  lemma {:induction false} AloneWithin(events: seq<Event>, who: seq<int>)
    requires Guarded(events, Group) && Kept(events, who, MAX_OP_BLOCKS, Group) && Alone(events)
    ensures Within(events, MAX_OP_BLOCKS)
    ensures var o := Owners(events, who, Group); |o| <= 1 && (|o| == 1 ==> |LedgerOf(events, Group).log| <= |o[0]|)
  {
    RunBounded(events, who, MAX_OP_BLOCKS, Group);
    if events != [] {
      var k := |events| - 1;
      AloneWithin(events[..k], who[..k]);
      RunBounded(events[..k], who[..k], MAX_OP_BLOCKS, Group);
      AloneStep(LedgerOf(events[..k], Group), Owners(events[..k], who[..k], Group), events[k], who[k]);
    }
  }

  lemma AloneStep(l: Ledger, o: seq<set<int>>, e: Event, w: int)
    requires Bounded(l, o, MAX_OP_BLOCKS) && |o| <= 1 && (|o| == 1 ==> |l.log| <= |o[0]|)
    requires Keeps(o, e, w, MAX_OP_BLOCKS) && l.Recorded(e, Group).open <= 1
    ensures var p := Owned(o, l, e, w); |p| == 1 ==> |l.Recorded(e, Group).log| <= |p[0]|
  {
    hide Spare;
    if e.Write? && !e.panicked && e.s in o[0] {
      assert o[0] + {e.s} == o[0];
    }
  }

  /** Operations that do not overlap, and keep to their reservation, never overfill the disk. */
  lemma AloneFits(events: seq<Event>, who: seq<int>)
    requires Guarded(events, Group) && Kept(events, who, MAX_OP_BLOCKS, Group) && Alone(events)
    ensures !LedgerOf(events, Group).Overflows()
  {
    AloneWithin(events, who);
    SmallCommitsFit(events, MAX_OP_BLOCKS);
  }

  // What an overflow does

  /** The pinned blocks are those of the sectors. */
  ghost predicate Pinned(dirty: map<int, Sector>, sectors: seq<int>) {
    forall s :: s in dirty <==> s in sectors
  }

  /** The first k blocks are all it takes to store the transaction whole. */
  ghost predicate StoredWhole(v: seq<Sector>, sectors: seq<int>, dirty: map<int, Sector>, k: nat)
    requires Distinct(sectors, |v|) && k <= |sectors| && Pinned(dirty, sectors)
  {
    Applied(v, sectors, dirty, k) == Over(v, dirty)
  }

  /** A block that is left out may have been the one that mattered. */
  lemma LeftOut(v: seq<Sector>, sectors: seq<int>, k: nat) returns (dirty: map<int, Sector>)
    requires Distinct(sectors, |v|) && k < |sectors|
    ensures Pinned(dirty, sectors) && !StoredWhole(v, sectors, dirty, k)
  {
    hide Applied;
    dirty := Altered(v, sectors);
    AppliedAt(v, sectors, dirty, k, sectors[k]);
    assert Over(v, dirty)[sectors[k]] != v[sectors[k]];
  }

  /**
   With w writes since the last flush, a commit stores every transaction of these sectors whole,
   whatever their contents, exactly if the disk has room for all of them.
   */
  lemma StoredWholeIff(v: seq<Sector>, sectors: seq<int>, w: int)
    requires Distinct(sectors, |v|) && 0 <= w <= MAX_WCNT
    ensures (forall dirty: map<int, Sector> ::
               Pinned(dirty, sectors) ==> StoredWhole(v, sectors, dirty, Min(|sectors|, MAX_WCNT - w)))
            <==> w + |sectors| <= MAX_WCNT
  {
    if w + |sectors| <= MAX_WCNT {
      forall dirty: map<int, Sector> | Pinned(dirty, sectors) ensures StoredWhole(v, sectors, dirty, |sectors|) {
        AllApplied(v, sectors, dirty);
      }
    } else {
      hide Pinned, StoredWhole;
      var dirty := LeftOut(v, sectors, MAX_WCNT - w);
    }
  }

  /** Contents that differ from v in each of the sectors. */
  ghost function Altered(v: seq<Sector>, sectors: seq<int>): (dirty: map<int, Sector>)
    requires Distinct(sectors, |v|)
    ensures forall s :: s in dirty <==> s in sectors
    ensures forall s :: s in dirty ==> dirty[s] != v[s]
  {
    map s | s in sectors :: var data: Sector := v[s][0 := if v[s][0] == 0 then 1 else 0];
                            assert data[0] != v[s][0]; data
  }

  // The log gets there

  lemma {:induction false} ProperAt(events: seq<Event>, k: nat)
    requires Guarded(events, Group) && Roomy(events, Group) && k < |events|
    ensures var l := LedgerOf(events[..k], Group); Guards(l, events[k], Group) && (events[k].End? ==> !l.Overflows())
  {
    var n := |events| - 1;
    if k < n {
      ProperAt(events[..n], k);
      assert events[..n][..k] == events[..k];
    }
  }

  /** The contents after the writes of the events. */
  ghost function Seen(view: seq<Sector>, events: seq<Event>): seq<Sector> {
    if events == [] then view
    else
      var v, e := Seen(view, events[..|events| - 1]), events[|events| - 1];
      if e.Write? && 0 <= e.s < |v| then v[e.s := e.data] else v
  }

  /** The group form does what a proper script says, unless the disk crashes. */
  method GroupScript(log: SnapshotLog, script: Script) returns (crashed: bool)
    requires log.Up() && log.group && log.n == 0 && log.outstanding == 0 && log.accCommit == 0 && log.disk.ftl.wcnt == 0
    requires Proper(script)
    modifies log, log.sector, log.disk.ftl.Repr()
    ensures crashed ==> log.Down() && log.disk.ftl.flash.crashSim
    ensures !crashed ==> log.Up() && log.View() == Seen(old(log.View()), script.events)
    ensures !crashed ==> LedgerOf(script.events, Group) == Ledger(log.sector[..log.n], log.outstanding, log.accCommit, log.disk.ftl.wcnt)
  {
    hide Ftl.Valid, Ftl.Down, Ftl.Repr, LedgerOf, Guards, Guarded, Roomy, Kept, Seen, Over;
    NoEvents(Group);
    SeenNone(log.View());
    ghost var p := Serving(log.View(), log.disk.ftl.stb, 0, false, 0);
    assert log.sector[..0] == [];
    crashed := false;
    for i := 0 to |script.events|
      invariant !crashed && p.Serving? && SnapshotMatches(log, p, LedgerOf(script.events[..i], Group))
      invariant p.view == Seen(old(log.View()), script.events[..i])
    {
      ProperAt(script.events, i);
      ghost var l := LedgerOf(script.events[..i], Group);
      var x := script.events[i];
      var e; ghost var q;
      e, q := SnapshotTurn(log, RequestOf(x), true, p, l);
      if !StillUp(e) {
        ghost var asExpected := SteersTo(p, l, x, e, q);
        return true;
      }
      ghost var asExpected := SteersTo(p, l, x, e, q);
      OneMoreEvent(script.events[..i], e, Group);
      SeenNext(old(log.View()), script.events[..i], e);
      assert script.events[..i + 1] == script.events[..i] + [x];
      p := q;
    }
    assert script.events[..|script.events|] == script.events;
  }

  lemma SeenNone(view: seq<Sector>)
    ensures Seen(view, []) == view
  {
  }

  lemma SeenNext(view: seq<Sector>, events: seq<Event>, e: Event)
    ensures var v := Seen(view, events);
            Seen(view, events + [e]) == if e.Write? && 0 <= e.s < |v| then v[e.s := e.data] else v
  {
    assert (events + [e])[..|events + [e]| - 1] == events;
  }

  /** The event is the one asked for, unless it is a crash. */
  lemma SteersTo(p: Phase, l: Ledger, x: Event, e: Event, q: Phase) returns (same: bool)
    requires p.Serving? && Allows(p, e, q, GROUP) && Guards(l, e, Group) && Guards(l, x, Group)
    requires (x.Begin? || x.Write? || x.End?) && StillUp(x) && Asked(RequestOf(x), e)
    ensures same == StillUp(e) && (if same then e == x else Interrupted(e))
    ensures same && x.Write? ==> 0 <= x.s < |p.view| && q.Serving? && q.view == p.view[x.s := x.data]
    ensures same && !x.Write? ==> q.Serving? && q.view == p.view
  {
    same := StillUp(e);
  }

  lemma {:induction false} CrewSeen(view: seq<Sector>, s: Script, j: nat, data: Sector)
    requires |view| >= CREW && |Seen(view, s.events)| == |view| && j <= CREW
    ensures var v := Seen(view, Crew(s, j, data).events); |v| == |view| && forall h :: 0 <= h < j ==> v[h] == data
  {
    hide Seen;
    if j == 0 {
      SeenNext(view, s.events, Begin(true));
    } else {
      CrewSeen(view, s, j - 1, data);
      var t := Crew(s, j - 1, data).Then(Begin(true), 1);
      SeenNext(view, Crew(s, j - 1, data).events, Begin(true));
      SeenNext(view, t.events, Write(j - 1, data, false));
      SeenNext(view, t.Then(Write(j - 1, data, false), 1).events, End(Done));
    }
  }

  lemma {:induction false} RoundsSeen(view: seq<Sector>, r: nat, data: Sector)
    requires |view| >= CREW
    ensures var v := Seen(view, Rounds(r, data).events); |v| == |view| && (r > 0 ==> forall h :: 0 <= h < CREW ==> v[h] == data)
  {
    hide Seen, Crew;
    if r == 0 {
      SeenNone(view);
    } else {
      RoundsSeen(view, r - 1, data);
      CrewSeen(view, Rounds(r - 1, data), CREW, data);
      SeenNext(view, Crew(Rounds(r - 1, data), CREW, data).events, End(Done));
    }
  }

  /**
   The operations log other contents once more after the blocks have fitted FITTING times: the
   commit succeeds, and yet the disk has stored only the first two of the blocks.
   */
  method LostBlocks(log: SnapshotLog, data: Sector, other: Sector) returns (crashed: bool)
    requires log.Up() && log.group && log.n == 0 && log.outstanding == 0 && log.accCommit == 0 && log.disk.ftl.wcnt == 0
    modifies log, log.sector, log.disk.ftl.Repr()
    ensures crashed ==> log.Down() && log.disk.ftl.flash.crashSim
    ensures !crashed ==> log.Up() && log.n == 0 && log.outstanding == 0 && |log.disk.ftl.vlt| == N_LAS
    ensures !crashed ==> forall h :: 0 <= h < CREW ==> log.disk.ftl.vlt[h] == if h < 2 then other else data
  {
    hide Ftl.Valid, Ftl.Down, Ftl.Repr, LedgerOf, Guarded, Roomy, Seen, Rounds, Reaches, Over, Applied;
    RoundsReach(FITTING, data);
    Reached(Rounds(FITTING, data), Ledger([], 0, FITTING, CREW * FITTING), []);
    RoundsSeen(log.View(), FITTING, data);
    crashed := GroupScript(log, Rounds(FITTING, data));
    if crashed {
      return;
    }
    log.Quiescent();
    assert |log.sector[..log.n]| == log.n == 0;
    crashed := LastCrew(log, other);
  }

  /** The operations log eleven blocks and end, with room for two blocks on the disk. */
  method LastCrew(log: SnapshotLog, other: Sector) returns (crashed: bool)
    requires log.Up() && log.group && log.n == 0 && log.outstanding == 0 && log.accCommit == FITTING && log.disk.ftl.wcnt == MAX_WCNT - 2
    modifies log, log.sector, log.disk.ftl.Repr()
    ensures |old(log.disk.ftl.vlt)| == N_LAS
    ensures crashed ==> log.Down() && log.disk.ftl.flash.crashSim
    ensures !crashed ==> log.Up() && log.n == 0 && log.outstanding == 0 && |log.disk.ftl.vlt| == N_LAS
    ensures !crashed ==> forall h :: 0 <= h < N_LAS ==> log.disk.ftl.vlt[h] == if h < 2 then other else old(log.disk.ftl.vlt)[h]
  {
    hide Ftl.Valid, Ftl.Down, Ftl.Repr, Over, Applied;
    ghost var v := log.disk.ftl.vlt;
    var first := log.BeginOp();
    LogEleven(log, other);
    ghost var sectors, dirty := log.sector[..log.n], log.dirty;
    assert sectors[..2] == [0, 1];
    forall h | 0 <= h < N_LAS
      ensures Applied(v, sectors, dirty, 2)[h] == if h < 2 then other else v[h]
    {
      AppliedAt(v, sectors, dirty, 2, h);
    }
    var o := log.EndOp();
    crashed := o.Crashed?;
    if !crashed {
      log.Quiescent();
    }
  }

  method LogEleven(log: SnapshotLog, other: Sector)
    requires log.Up() && log.n == 0 && log.outstanding == 1
    modifies log, log.sector, log.disk.ftl.Repr()
    ensures log.Up() && log.sector[..log.n] == Upto(CREW) && forall h :: 0 <= h < CREW ==> h in log.dirty && log.dirty[h] == other
    ensures (log.outstanding, log.accCommit, log.disk.ftl.wcnt, log.disk.ftl.vlt) == old((log.outstanding, log.accCommit, log.disk.ftl.wcnt, log.disk.ftl.vlt))
  {
    hide Ftl.Valid, Ftl.Repr, Over, Logged, Distinct;
    assert log.sector[..0] == Upto(0);
    for j := 0 to CREW
      invariant log.Up() && log.sector[..log.n] == Upto(j) && log.n == j
      invariant forall h :: 0 <= h < j ==> h in log.dirty && log.dirty[h] == other
      invariant log.outstanding == 1 && log.accCommit == old(log.accCommit)
      invariant log.disk.ftl.wcnt == old(log.disk.ftl.wcnt) && log.disk.ftl.vlt == old(log.disk.ftl.vlt)
    {
      LogOne(log, j, other);
    }
  }

  /** An operation comes, logs a block and goes, while another one stays open. */
  method LogOne(log: SnapshotLog, j: nat, other: Sector)
    requires log.Up() && log.n == j < CREW && log.outstanding == 1 && log.sector[..log.n] == Upto(j)
    modifies log, log.sector, log.disk.ftl.Repr()
    ensures log.Up() && log.n == j + 1 && log.outstanding == 1 && log.sector[..log.n] == Upto(j + 1)
    ensures log.dirty == old(log.dirty)[j := other]
    ensures log.accCommit == old(log.accCommit) && log.disk.ftl.wcnt == old(log.disk.ftl.wcnt) && log.disk.ftl.vlt == old(log.disk.ftl.vlt)
  {
    hide Ftl.Valid, Over, Logged, Distinct;
    UptoNext(j + 1);
    UptoNext(j + 2);
    hide Upto;
    var admitted := log.BeginOp();
    var failed := log.LogWrite(j, other);
    assert |log.sector[..log.n]| == j + 1;
    var o := log.EndOp();
    assert |log.sector[..log.n]| == j + 1;
  }
}
