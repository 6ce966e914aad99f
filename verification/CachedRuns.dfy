/** Whole runs of the log over the snapshot disk, with every sector read and written through the buffer cache. */
module CachedRuns {
  import opened Geometry
  import opened FlashDevice
  import opened Transactions
  import opened TranslationLayer
  import opened BufferCache
  import opened SnapshotLogging
  import opened LogRuns
  import CachedLog

  /** The phase that log and cache are in together. */
  ghost predicate Matches(log: SnapshotLog, c: Bcache, p: Phase, l: Ledger)
    reads log, log.sector, log.disk.ftl.Repr(), c, c.buf, c.prev, c.next
  {
    SnapshotMatches(log, p, l) && CachedLog.Apart(log, c) && (p.Serving? ==> CachedLog.Joined(log, c))
  }

  /** The contents of the disk, for a cache that is set up on it. */
  method Load(log: SnapshotLog) returns (contents: seq<Sector>)
    requires log.Up() && log.n == 0
    ensures contents == log.disk.ftl.vlt
  {
    hide Ftl.Valid, Ftl.Repr, Over;
    log.Quiescent();
    contents := [];
    for s := 0 to N_LAS
      invariant log.Up() && |contents| == s && forall h :: 0 <= h < s ==> contents[h] == log.View()[h]
    {
      var data := log.Read(s);
      contents := contents + [data];
    }
  }

  method NewCache(log: SnapshotLog, blank: Sector) returns (d: Bcache)
    requires log.Up() && log.n == 0
    ensures CachedLog.Joined(log, d) && fresh(d) && fresh(d.buf) && fresh(d.prev) && fresh(d.next)
  {
    hide Ftl.Valid, CachedLog.Joined, Ring, Coherent, Over, Distinct;
    var contents := Load(log);
    d := new Bcache(contents, blank);
    CachedLog.Joins(log, d);
  }

  /** A restart: the disk recovers and the cache is new. */
  method Restart(log: SnapshotLog, c: Bcache, ghost p: Phase, ghost l: Ledger, blank: Sector)
    returns (e: Event, ghost q: Phase, d: Bcache)
    requires Matches(log, c, p, l) && p.Halted?
    modifies log, log.sector, log.disk.ftl.Repr()
    ensures e.Recover? && Allows(p, e, q, Form(log).Every()) && StillUp(e) == q.Serving? && Guards(l, e, Form(log))
    ensures Matches(log, d, q, l.Recorded(e, Form(log))) && (d == c || (fresh(d) && fresh(d.buf) && fresh(d.prev) && fresh(d.next)))
    ensures Interrupted(e) ==> log.disk.ftl.flash.crashSim
  {
    hide Ftl.Valid, Ftl.Down, Guards, Ledger.Recorded, Bcache.Up, Over, Distinct;
    e, q := SnapshotTurn(log, PowerOff, false, p, l);
    d := c;
    if StillUp(e) {
      d := NewCache(log, blank);
    }
  }

  /** A read is answered by the cache. */
  method ReadTurn(log: SnapshotLog, c: Bcache, s: int, ghost p: Phase, ghost l: Ledger) returns (e: Event)
    requires Matches(log, c, p, l) && p.Serving? && 0 <= s < N_LAS
    modifies c, c.buf, c.prev, c.next
    ensures e.Read? && e.s == s && Allows(p, e, p, Form(log).Every()) && Matches(log, c, p, l)
  {
    hide Ftl.Valid, Ring, Coherent, Over, ViewOf, PinsOf;
    var data := CachedLog.Read(log, c, s);
    e := Read(s, data);
  }

  /** A write goes to the cache and to the log. */
  method WriteTurn(log: SnapshotLog, c: Bcache, request: Request, ghost p: Phase, ghost l: Ledger) returns (e: Event, ghost q: Phase)
    requires Matches(log, c, p, l) && p.Serving? && request.WriteRequest? && InArea(request, N_LAS)
    modifies log, log.sector, log.disk.ftl.Repr(), c, c.buf, c.prev, c.next
    ensures Allows(p, e, q, Form(log).Every()) && Asked(request, e) && StillUp(e) == q.Serving?
    ensures Guards(l, e, Form(log)) && Matches(log, c, q, l.Recorded(e, Form(log)))
    ensures Interrupted(e) ==> log.disk.ftl.flash.crashSim
  {
    hide Ftl.Valid, Ftl.Down, Ring, Coherent, Over, ViewOf, PinsOf, Guards, Allows, Ledger.Recorded, Distinct;
    CachedLog.Available(c.buf[..], c.disk, log.sector[..log.n]);
    CachedLog.Log(c, request.s, request.data);
    e, q := SnapshotTurn(log, request, true, p, l);
  }

  /** The last operation writes the pinned buffers, and the log commits. */
  method CloseTurn(log: SnapshotLog, c: Bcache, ghost p: Phase, ghost l: Ledger) returns (e: Event, ghost q: Phase)
    requires Matches(log, c, p, l) && p.Serving? && p.open == 1 && !l.Overflows()
    modifies log, log.sector, log.disk.ftl.Repr(), c, c.buf, c.prev, c.next
    ensures Allows(p, e, q, Form(log).Every()) && e.End? && StillUp(e) == q.Serving?
    ensures Guards(l, e, Form(log)) && Matches(log, c, q, l.Recorded(e, Form(log)))
    ensures Interrupted(e) ==> log.disk.ftl.flash.crashSim
  {
    hide Ftl.Valid, Ftl.Down, Ring, Coherent, Over, ViewOf, PinsOf, Guards, Ledger.Recorded, Distinct;
    CachedLog.JoinedView(log, c);
    CachedLog.WriteAll(c, log.sector[..log.n]);
    e, q := SnapshotTurn(log, EndRequest, true, p, l);
    if q.Serving? {
      log.Quiescent();
    }
  }

  /** The cache has no part in the other calls. */
  method OtherTurn(log: SnapshotLog, c: Bcache, request: Request, ghost p: Phase, ghost l: Ledger) returns (e: Event, ghost q: Phase)
    requires Matches(log, c, p, l) && p.Serving? && (request.BeginRequest? || request.PowerOff? || (request.EndRequest? && p.open != 1))
    modifies log, log.sector, log.disk.ftl.Repr()
    ensures Allows(p, e, q, Form(log).Every()) && Asked(request, e) && StillUp(e) == q.Serving?
    ensures Guards(l, e, Form(log)) && Matches(log, c, q, l.Recorded(e, Form(log)))
    ensures Interrupted(e) ==> log.disk.ftl.flash.crashSim
  {
    hide Ftl.Valid, Ftl.Down, Ring, Coherent, Over, ViewOf, PinsOf, Guards, Allows, Ledger.Recorded, Distinct;
    e, q := SnapshotTurn(log, request, true, p, l);
  }

  /** One call, or a restart. */
  method Turn(log: SnapshotLog, c: Bcache, request: Request, up: bool, ghost p: Phase, ghost l: Ledger, blank: Sector)
    returns (e: Event, ghost q: Phase, d: Bcache)
    requires Matches(log, c, p, l) && up == p.Serving? && InArea(request, N_LAS)
    requires p.Serving? && request.EndRequest? ==> !l.Overflows()
    modifies log, log.sector, log.disk.ftl.Repr(), c, c.buf, c.prev, c.next
    ensures Allows(p, e, q, Form(log).Every()) && (if p.Serving? then Asked(request, e) else e.Recover?) && StillUp(e) == q.Serving?
    ensures Guards(l, e, Form(log)) && Matches(log, d, q, l.Recorded(e, Form(log))) && (d == c || (fresh(d) && fresh(d.buf) && fresh(d.prev) && fresh(d.next)))
    ensures Interrupted(e) ==> log.disk.ftl.flash.crashSim
  {
    hide Ftl.Valid, Ftl.Down, Ring, Coherent, Over, ViewOf, PinsOf, Guards, Allows, Distinct, CachedLog.Joined, SnapshotLog.Up;
    d, q := c, p;
    if !up {
      e, q, d := Restart(log, c, p, l, blank);
    } else {
      match request {
        case BeginRequest => e, q := OtherTurn(log, c, request, p, l);
        case ReadRequest(s) =>
          e := ReadTurn(log, c, s, p, l);
          ReadGuards(l, e, Form(log));
        case WriteRequest(_, _) => e, q := WriteTurn(log, c, request, p, l);
        case EndRequest =>
          if log.outstanding == 1 {
            e, q := CloseTurn(log, c, p, l);
          } else {
            e, q := OtherTurn(log, c, request, p, l);
          }
        case PowerOff => e, q := OtherTurn(log, c, request, p, l);
      }
    }
  }

  lemma ReadGuards(l: Ledger, e: Event, design: Design)
    requires e.Read?
    ensures Guards(l, e, design)
  {
  }

  method NoRoom(log: SnapshotLog, c: Bcache, ghost p: Phase, ghost l: Ledger) returns (over: bool)
    requires Matches(log, c, p, l) && p.Serving?
    ensures over == l.Overflows()
  {
    hide CachedLog.Joined, Ftl.Valid;
    over := LogRuns.NoRoom(log, p, l);
  }

  /** The run so far. */
  ghost predicate Told(phases: seq<Phase>, events: seq<Event>, requests: seq<Request>, design: Design) {
    IsRun(phases, events, design.Every()) && Answered(phases, events, requests) && Guarded(events, design) && Roomy(events, design)
  }

  lemma TellMore(phases: seq<Phase>, events: seq<Event>, requests: seq<Request>, design: Design, e: Event, q: Phase)
    requires Told(phases, events, requests, design) && |events| < |requests| && |phases| == |events| + 1
    requires var p, l := phases[|events|], LedgerOf(events, design);
             && Allows(p, e, q, design.Every()) && (if p.Serving? then Asked(requests[|events|], e) else e.Recover?)
             && Guards(l, e, design) && (p.Serving? && requests[|events|].EndRequest? ==> !l.Overflows())
    ensures Told(phases + [q], events + [e], requests, design)
    ensures LedgerOf(events + [e], design) == LedgerOf(events, design).Recorded(e, design)
  {
    hide Allows, LedgerOf, Guarded, Guards, Roomy;
    OneMoreEvent(events, e, design);
    OneMoreRoomy(events, e, design);
    forall i | 0 <= i < |events + [e]| ensures Allows((phases + [q])[i], (events + [e])[i], (phases + [q])[i + 1], design.Every()) {
      assert i < |events| ==> Allows(phases[i], events[i], phases[i + 1], design.Every());
    }
  }

  lemma NoneYet(p: Phase, requests: seq<Request>, design: Design)
    ensures Told([p], [], requests, design) && LedgerOf([], design) == Empty()
  {
  }

  /** While the machine is off, the cache does not matter. */
  method NoCache(log: SnapshotLog, blank: Sector) returns (c: Bcache)
    requires log.Down()
    ensures Matches(log, c, Halted(log.disk.ftl.stb), Empty()) && fresh(c) && fresh(c.buf) && fresh(c.prev) && fresh(c.next)
  {
    hide Ftl.Valid, Ftl.Down, Bcache.Up, CachedLog.Joined, SnapshotLog.Up;
    c := new Bcache([], blank);
  }

  /**
   Through the cache too, whatever is asked and wherever the machine stops, the run is one of atomic
   transactions, up to the first commit that the disk has no room for.
   */
  method CachedRun(log: SnapshotLog, requests: seq<Request>, blank: Sector)
    returns (events: seq<Event>, ghost phases: seq<Phase>, overflow: bool)
    requires log.Down() && forall i :: 0 <= i < |requests| ==> InArea(requests[i], N_LAS)
    modifies log, log.sector, log.disk.ftl.Repr()
    ensures |phases| == |events| + 1 && Told(phases, events, requests, Form(log)) && phases[0] == Halted(old(log.disk.ftl.stb))
    ensures |events| <= |requests| && overflow == (|events| < |requests|)
    ensures forall i :: 0 <= i < |events| && Interrupted(events[i]) ==> log.disk.ftl.flash.crashSim
    ensures overflow ==> requests[|events|].EndRequest? && phases[|events|].Serving? && LedgerOf(events, Form(log)).Overflows()
  {
    hide Ftl.Valid, Ftl.Down, LedgerOf, Guards, Allows, Matches, Bcache.Up, Ledger.Recorded, Told, Asked, StillUp, Ledger.Overflows;
    ghost var design := Form(log);
    var c := NoCache(log, blank);
    events, phases, overflow := [], [Halted(log.disk.ftl.stb)], false;
    NoneYet(phases[0], requests, design);
    var up := false;
    for i := 0 to |requests|
      invariant fresh(c) && fresh(c.buf) && fresh(c.prev) && fresh(c.next) && |events| == i && |phases| == i + 1 && !overflow
      invariant Told(phases, events, requests, design) && up == phases[i].Serving?
      invariant forall j :: 0 <= j < i && Interrupted(events[j]) ==> log.disk.ftl.flash.crashSim
      invariant Matches(log, c, phases[i], LedgerOf(events, design)) && phases[0] == Halted(old(log.disk.ftl.stb))
    {
      ghost var l := LedgerOf(events, design);
      if up && requests[i].EndRequest? {
        overflow := NoRoom(log, c, phases[i], l);
        if overflow {
          return;
        }
      }
      var e; ghost var q;
      e, q, c := Turn(log, c, requests[i], up, phases[i], l, blank);
      TellMore(phases, events, requests, design, e, q);
      up := StillUp(e);
      events, phases := events + [e], phases + [q];
    }
  }
}
