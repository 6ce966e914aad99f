/**
 What a file system expects of its log: the writes of a transaction become visible to a
 recovery all together or not at all.
 */
module Transactions {
  import opened Geometry
  import opened FlashDevice

  /** Blocks an operation may write, and blocks a transaction may hold. */
  const MAX_OP_BLOCKS := 10
  const LOG_SIZE := 30
  /** Commits between two flushes of the group form. */
  const GROUP := 200

  // The specification

  /**
   Serving: reads see view, a recovery brings back home, and open operations have not ended yet.
   The operations may have written something, and that many nonempty commits have completed
   since home was taken.
   */
  datatype Phase =
    | Serving(view: seq<Sector>, home: seq<Sector>, open: int, touched: bool, since: nat)
    | Halted(home: seq<Sector>)

  datatype Event =
    | Begin(admitted: bool)
    | Read(s: int, data: Sector)
    | Write(s: int, data: Sector, panicked: bool)
    | End(o: Outcome)
    | PowerLoss
    | Recover(o: Outcome)

  /** The nonempty commits since home was taken, once the open transaction has been committed as well. */
  ghost function Due(p: Phase): nat
    requires p.Serving?
  {
    if p.touched then p.since + 1 else p.since
  }

  /** The last operation has ended: its commit is durable if it is the every-th nonempty one. */
  ghost function Closed(p: Phase, every: nat): Phase
    requires p.Serving?
  {
    if Due(p) >= every then Serving(p.view, p.view, 0, false, 0) else Serving(p.view, p.home, 0, false, Due(p))
  }

  /** What may happen with a log that makes its commits durable in groups. */
  ghost predicate Allows(p: Phase, e: Event, q: Phase, every: nat) {
    match e
    case Begin(admitted) => p.Serving? && q == p.(open := if admitted then p.open + 1 else p.open)
    case Read(s, data) => p.Serving? && q == p && 0 <= s < |p.view| && data == p.view[s]
    case Write(s, data, panicked) =>
      && p.Serving? && 0 <= s < |p.view|
      && if panicked then q == Halted(p.home) else p.open >= 1 && q == p.(view := p.view[s := data], touched := true)
    case End(Done) => p.Serving? && q == if p.open == 1 then Closed(p, every) else p.(open := p.open - 1)
    case End(Crashed) => p.Serving? && p.open == 1 && (q == Halted(p.home) || (Due(p) >= every && q == Halted(p.view)))
    case PowerLoss => p.Serving? && q == Halted(p.home)
    case Recover(Done) => p.Halted? && q == Serving(p.home, p.home, 0, false, 0)
    case Recover(Crashed) => p.Halted? && q == p
  }

  ghost predicate IsRun(phases: seq<Phase>, events: seq<Event>, every: nat) {
    && |phases| == |events| + 1
    && forall i :: 0 <= i < |events| ==> Allows(phases[i], events[i], phases[i + 1], every)
  }

  /** The event ends the last open operation. */
  ghost predicate Closes(p: Phase, e: Event) {
    p.Serving? && e.End? && p.open == 1
  }

  /** The event completes a commit of something. */
  ghost predicate Commits(p: Phase, e: Event) {
    Closes(p, e) && e.o.Done? && p.touched
  }

  /** How many nonempty commits have completed between points k and n, after the last restart. */
  ghost function Unsaved(phases: seq<Phase>, events: seq<Event>, k: int, n: nat): nat
    requires |phases| == |events| + 1 && n < |phases|
    decreases n
  {
    if n <= k + 1 || n == 0 || events[n - 1] == Recover(Done) then 0
    else Unsaved(phases, events, k, n - 1) + if Commits(phases[n - 1], events[n - 1]) then 1 else 0
  }

  /**
   What a recovery at point n would bring back is what the operations saw when the last of them
   ended at point k, and it would lose fewer than `every` nonempty commits.
   */
  ghost predicate CommittedAt(phases: seq<Phase>, events: seq<Event>, every: nat, n: nat, k: int)
    requires IsRun(phases, events, every) && n < |phases|
  {
    && -1 <= k < n
    && (if k == -1 then phases[n].home == phases[0].home else Closes(phases[k], events[k]) && phases[n].home == phases[k].view)
    && Unsaved(phases, events, k, n) < every
  }

  /** No recovery ever sees part of a transaction. */
  lemma {:induction false} HomeIsOneCommit(phases: seq<Phase>, events: seq<Event>, every: nat, n: nat) returns (k: int)
    requires IsRun(phases, events, every) && n < |phases| && every >= 1
    requires phases[0].Serving? ==> phases[0].since == 0
    ensures CommittedAt(phases, events, every, n, k)
    ensures phases[n].Serving? ==> phases[n].since == Unsaved(phases, events, k, n)
  {
    if n == 0 {
      k := -1;
    } else {
      k := HomeIsOneCommit(phases, events, every, n - 1);
      var p, e, q := phases[n - 1], events[n - 1], phases[n];
      assert Allows(p, e, q, every);
      if Closes(p, e) && Due(p) >= every && q.home == p.view {
        k := n - 1;
      }
    }
  }

  // What the events say of the log

  /** The three forms of the log: with a log area of its own, or over the snapshot disk, one commit at a time or in groups. */
  datatype Design = Redo(size: int) | Plain | Group {
    /** How many nonempty commits become durable together. */
    function Every(): nat { if Group? then GROUP else 1 }
  }

  /** The sectors in the log, the open operations, and the commits and blocks that are not durable yet. */
  datatype Ledger = Ledger(log: seq<int>, open: int, acc: nat, written: nat) {
    /** An operation fits in the log, whatever the open ones still write. */
    predicate Admits() { |log| + (open + 1) * MAX_OP_BLOCKS <= LOG_SIZE }

    /** Logging a sector fails: outside of a transaction, and where the log is full. */
    predicate Fails(s: int, design: Design) {
      open < 1 || if design.Redo? then |log| >= LOG_SIZE || |log| >= design.size - 1 else |log| >= LOG_SIZE && s !in log
    }

    /** The last open operation is about to end, and the disk has no room for the blocks. */
    predicate Overflows() { open == 1 && written + |log| > MAX_WCNT }

    ghost function Recorded(e: Event, design: Design): Ledger {
      match e
      case Begin(admitted) => if admitted then this.(open := open + 1) else this
      case Read(_, _) => this
      case Write(s, _, panicked) => if panicked then Empty() else this.(log := Logged(log, s))
      case End(Done) =>
        if open != 1 then this.(open := open - 1)
        else if Nonempty() >= design.Every() then Empty()
        else Ledger([], 0, Nonempty(), written + |log|)
      case End(Crashed) => Empty()
      case PowerLoss => Empty()
      case Recover(_) => Empty()
    }

    function Nonempty(): nat { if log == [] then acc else acc + 1 }
  }

  function Empty(): Ledger { Ledger([], 0, 0, 0) }

  ghost function LedgerOf(events: seq<Event>, design: Design): Ledger {
    if events == [] then Empty() else LedgerOf(events[..|events| - 1], design).Recorded(events[|events| - 1], design)
  }

  /** The log admits and refuses what it has to. */
  ghost predicate Guards(l: Ledger, e: Event, design: Design) {
    match e
    case Begin(admitted) => admitted == l.Admits()
    case Write(s, _, panicked) => panicked == l.Fails(s, design)
    case _ => true
  }

  ghost predicate Guarded(events: seq<Event>, design: Design) {
    events == [] || (Guarded(events[..|events| - 1], design) && Guards(LedgerOf(events[..|events| - 1], design), events[|events| - 1], design))
  }

  lemma NoEvents(design: Design)
    ensures LedgerOf([], design) == Empty() && Guarded([], design)
  {
  }

  lemma OneMoreEvent(events: seq<Event>, e: Event, design: Design)
    ensures LedgerOf(events + [e], design) == LedgerOf(events, design).Recorded(e, design)
    ensures Guarded(events + [e], design) <==> Guarded(events, design) && Guards(LedgerOf(events, design), e, design)
  {
    assert (events + [e])[..|events + [e]| - 1] == events;
  }

  // The sectors of a transaction

  /** The logged sectors are distinct and lie below limit. */
  ghost predicate Distinct(sectors: seq<int>, limit: int) {
    && (forall i :: 0 <= i < |sectors| ==> 0 <= sectors[i] < limit)
    && (forall i, j :: 0 <= i < j < |sectors| ==> sectors[i] != sectors[j])
  }

  /** Adding a sector to the list unless it is there already. */
  ghost function Logged(sectors: seq<int>, s: int): seq<int> {
    if s in sectors then sectors else sectors + [s]
  }

  /** Putting a sector where it is in the list, or at the end if it is not there. */
  lemma LoggedAt(list: seq<int>, n: nat, s: int, i: nat)
    requires i <= n <= |list| && i < |list| && if i < n then list[i] == s else s !in list[..n]
    ensures list[i := s][..if i == n then n + 1 else n] == Logged(list[..n], s)
  {
  }

  lemma LoggedDistinct(sectors: seq<int>, s: int, limit: int)
    requires Distinct(sectors, limit) && 0 <= s < limit
    ensures Distinct(Logged(sectors, s), limit) && forall t :: t in Logged(sectors, s) <==> t in sectors || t == s
  {
  }

  /** Pinning one more buffer shows in its sector only. */
  lemma OverPinned(home: seq<Sector>, dirty: map<int, Sector>, s: int, data: Sector)
    requires 0 <= s < |home|
    ensures Over(home, dirty[s := data]) == Over(home, dirty)[s := data]
  {
  }

  /** No buffers are pinned but those of the sectors from index i on. */
  ghost predicate PinnedWithin(dirty: map<int, Sector>, sectors: seq<int>, i: nat)
    requires i <= |sectors|
  {
    forall s :: s in dirty ==> s in sectors[i..]
  }

  lemma UnpinnedNext(dirty: map<int, Sector>, sectors: seq<int>, i: nat)
    requires i < |sectors| && PinnedWithin(dirty, sectors, i)
    ensures PinnedWithin(dirty - {sectors[i]}, sectors, i + 1) && forall s :: s in dirty ==> s in sectors
  {
    assert sectors[i..] == [sectors[i]] + sectors[i + 1..];
  }

  lemma UnpinnedAll(dirty: map<int, Sector>, sectors: seq<int>)
    ensures (forall s :: s in dirty ==> s in sectors) ==> PinnedWithin(dirty, sectors, 0)
    ensures PinnedWithin(dirty, sectors, |sectors|) ==> dirty == map[]
  {
    assert sectors[0..] == sectors;
    if PinnedWithin(dirty, sectors, |sectors|) {
      assert forall s :: s !in dirty;
    }
  }

  /** The buffers of the sectors from index i on are pinned, with contents from d. */
  ghost predicate PinnedFrom(dirty: map<int, Sector>, d: map<int, Sector>, sectors: seq<int>, i: nat)
    requires i <= |sectors|
  {
    && (forall s :: s in dirty <==> s in sectors[i..])
    && forall s :: s in dirty ==> s in d && dirty[s] == d[s]
  }

  lemma PinnedAll(dirty: map<int, Sector>, sectors: seq<int>)
    requires forall s :: s in dirty <==> s in sectors
    ensures PinnedFrom(dirty, dirty, sectors, 0)
  {
    assert sectors[0..] == sectors;
  }

  lemma PinnedNext(dirty: map<int, Sector>, d: map<int, Sector>, sectors: seq<int>, i: nat, limit: int)
    requires i < |sectors| && Distinct(sectors, limit) && PinnedFrom(dirty, d, sectors, i)
    ensures sectors[i] in dirty && dirty[sectors[i]] == d[sectors[i]] && 0 <= sectors[i] < limit
    ensures PinnedFrom(dirty - {sectors[i]}, d, sectors, i + 1)
  {
    assert sectors[i..] == [sectors[i]] + sectors[i + 1..];
    assert sectors[i] !in sectors[i + 1..];
  }

  lemma PinnedNone(dirty: map<int, Sector>, d: map<int, Sector>, sectors: seq<int>)
    requires PinnedFrom(dirty, d, sectors, |sectors|)
    ensures dirty == map[]
  {
    assert forall s :: s !in dirty;
  }

  /** Contents with pinned buffers over them. */
  ghost function Over(home: seq<Sector>, dirty: map<int, Sector>): (v: seq<Sector>)
    ensures |v| == |home|
  {
    seq(|home|, s requires 0 <= s < |home| => if s in dirty then dirty[s] else home[s])
  }

  /** Contents after the first n logged sectors have received theirs. */
  ghost function Applied(home: seq<Sector>, sectors: seq<int>, dirty: map<int, Sector>, n: nat): (v: seq<Sector>)
    requires n <= |sectors| && Distinct(sectors, |home|) && forall i :: 0 <= i < |sectors| ==> sectors[i] in dirty
    ensures |v| == |home|
  {
    if n == 0 then home else Applied(home, sectors, dirty, n - 1)[sectors[n - 1] := dirty[sectors[n - 1]]]
  }

  lemma AppliedNone(home: seq<Sector>, sectors: seq<int>, dirty: map<int, Sector>)
    requires Distinct(sectors, |home|) && forall i :: 0 <= i < |sectors| ==> sectors[i] in dirty
    ensures Applied(home, sectors, dirty, 0) == home
  {
  }

  lemma AppliedNext(home: seq<Sector>, sectors: seq<int>, dirty: map<int, Sector>, n: nat)
    requires n < |sectors| && Distinct(sectors, |home|) && forall i :: 0 <= i < |sectors| ==> sectors[i] in dirty
    ensures Applied(home, sectors, dirty, n + 1) == Applied(home, sectors, dirty, n)[sectors[n] := dirty[sectors[n]]]
  {
  }

  lemma {:induction false} AppliedAt(home: seq<Sector>, sectors: seq<int>, dirty: map<int, Sector>, n: nat, h: int)
    requires n <= |sectors| && Distinct(sectors, |home|) && forall i :: 0 <= i < |sectors| ==> sectors[i] in dirty
    requires 0 <= h < |home|
    ensures Applied(home, sectors, dirty, n)[h] == if h in sectors[..n] then dirty[h] else home[h]
  {
    if n > 0 {
      AppliedAt(home, sectors, dirty, n - 1, h);
      assert sectors[..n] == sectors[..n - 1] + [sectors[n - 1]];
    }
  }

  /** Writing all of the transaction gives what the operations saw. */
  lemma AllApplied(home: seq<Sector>, sectors: seq<int>, dirty: map<int, Sector>)
    requires Distinct(sectors, |home|) && forall s :: s in dirty <==> s in sectors
    ensures Applied(home, sectors, dirty, |sectors|) == Over(home, dirty)
  {
    assert sectors[..|sectors|] == sectors;
    forall h | 0 <= h < |home| ensures Applied(home, sectors, dirty, |sectors|)[h] == Over(home, dirty)[h] {
      AppliedAt(home, sectors, dirty, |sectors|, h);
    }
  }

  /** A request by the file system; once the machine has stopped it is restarted instead. */
  datatype Request = BeginRequest | ReadRequest(s: int) | WriteRequest(s: int, data: Sector) | EndRequest | PowerOff

  /** The event answers the request. */
  predicate Asked(r: Request, e: Event) {
    match r
    case BeginRequest => e.Begin?
    case ReadRequest(s) => e.Read? && e.s == s
    case WriteRequest(s, data) => e.Write? && e.s == s && e.data == data
    case EndRequest => e.End?
    case PowerOff => e.PowerLoss?
  }

  /** Power was lost inside the call. */
  predicate Interrupted(e: Event) {
    (e.End? || e.Recover?) && e.o.Crashed?
  }

  predicate InArea(r: Request, limit: int) {
    (r.ReadRequest? || r.WriteRequest?) ==> 0 <= r.s < limit
  }
}
