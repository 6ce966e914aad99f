/** Whole runs of the logs: they do what the specification of transactions allows. */
module LogRuns {
  import opened Geometry
  import opened FlashDevice
  import opened LayerState
  import opened TranslationLayer
  import opened SnapshotDisk
  import opened Transactions
  import opened RedoLogging
  import opened SnapshotLogging

  /** Whether the machine still runs after the event. */
  predicate StillUp(e: Event) {
    match e
    case Begin(_) => true
    case Read(_, _) => true
    case Write(_, _, panicked) => !panicked
    case End(o) => o.Done?
    case PowerLoss => false
    case Recover(o) => o.Done?
  }

  /** The events answer the requests, as long as the machine runs. */
  ghost predicate Answered(phases: seq<Phase>, events: seq<Event>, requests: seq<Request>) {
    |events| <= |requests| && |events| <= |phases| && forall i :: 0 <= i < |events| && phases[i].Serving? ==> Asked(requests[i], events[i])
  }

  // The redo log

  /** The phase that the log is in, and what the events say of it. */
  ghost predicate RedoMatches(log: RedoLog, p: Phase, l: Ledger)
    reads log, log.disk, log.sector
  {
    match p
    case Serving(view, home, open, touched, since) =>
      && log.Up() && view == log.View() && home == log.home && open == log.outstanding && touched == (log.n > 0) && since == 0
      && l == Ledger(log.sector[..log.n], log.outstanding, 0, 0)
    case Halted(home) => log.Down() && home == log.home && l == Empty()
  }

  method RedoTurn(log: RedoLog, request: Request, up: bool, ghost p: Phase, ghost l: Ledger) returns (e: Event, ghost q: Phase)
    requires RedoMatches(log, p, l) && up == p.Serving? && InArea(request, log.area.start)
    modifies log, log.disk, log.sector
    ensures Allows(p, e, q, 1) && (p.Serving? ==> Asked(request, e)) && StillUp(e) == q.Serving?
    ensures Guards(l, e, Redo(log.area.size)) && RedoMatches(log, q, l.Recorded(e, Redo(log.area.size)))
    ensures Interrupted(e) ==> log.disk.crashSim
  {
    q := p;
    if !up {
      var o := log.InitLog();
      e := Recover(o);
      if o.Done? {
        q := Serving(log.View(), log.home, 0, false, 0);
      }
    } else {
      match request {
        case BeginRequest =>
          var admitted := log.BeginOp();
          e, q := Begin(admitted), p.(open := log.outstanding);
        case ReadRequest(s) =>
          var data := log.Read(s);
          e := Read(s, data);
        case WriteRequest(s, data) =>
          var panicked := log.LogWrite(s, data);
          if panicked {
            log.PowerLoss();
          }
          e, q := Write(s, data, panicked), if panicked then Halted(log.home) else p.(view := log.View(), touched := true);
        case EndRequest =>
          e, q := RedoEnd(log, p, l);
        case PowerOff =>
          log.PowerLoss();
          e, q := PowerLoss, Halted(log.home);
      }
    }
  }

  method RedoEnd(log: RedoLog, ghost p: Phase, ghost l: Ledger) returns (e: Event, ghost q: Phase)
    requires RedoMatches(log, p, l) && p.Serving?
    modifies log, log.disk
    ensures e.End? && Allows(p, e, q, 1) && StillUp(e) == q.Serving?
    ensures RedoMatches(log, q, l.Recorded(e, Redo(log.area.size)))
    ensures Interrupted(e) ==> log.disk.crashSim
  {
    log.Quiescent();
    var o := log.EndOp();
    e := End(o);
    q := if o.Crashed? then Halted(log.home) else Serving(log.View(), log.home, log.outstanding, log.n > 0, 0);
  }

  /**
   Whatever is asked of the redo log and wherever the machine stops, in recoveries too, the run is
   one of atomic transactions; operations are admitted and the log panics exactly where it has to.
   */
  method RedoRun(log: RedoLog, requests: seq<Request>) returns (events: seq<Event>, ghost phases: seq<Phase>)
    requires log.Down() && forall i :: 0 <= i < |requests| ==> InArea(requests[i], log.area.start)
    modifies log, log.disk, log.sector
    ensures |events| == |requests| && IsRun(phases, events, 1) && phases[0] == Halted(old(log.home))
    ensures Answered(phases, events, requests) && Guarded(events, Redo(log.area.size))
    ensures forall i :: 0 <= i < |events| && Interrupted(events[i]) ==> log.disk.crashSim
  {
    hide RedoLog.Up, RedoLog.Down, LedgerOf, Guarded, Guards;
    ghost var design := Redo(log.area.size);
    events, phases := [], [Halted(log.home)];
    NoEvents(design);
    var up := false;
    for i := 0 to |requests|
      invariant |events| == i && IsRun(phases, events, 1) && up == phases[i].Serving?
      invariant RedoMatches(log, phases[i], LedgerOf(events, design))
      invariant phases[0] == Halted(old(log.home)) && Answered(phases, events, requests) && Guarded(events, design)
      invariant forall j :: 0 <= j < i && Interrupted(events[j]) ==> log.disk.crashSim
    {
      var e; ghost var q;
      e, q := RedoTurn(log, requests[i], up, phases[i], LedgerOf(events, design));
      OneMoreEvent(events, e, design);
      up := StillUp(e);
      events, phases := events + [e], phases + [q];
    }
  }

  /** The life of a file system's disk that starts with an empty log. */
  method RedoLife(contents: seq<Sector>, area: Area, requests: seq<Request>, crashSim: bool)
    returns (events: seq<Event>, ghost phases: seq<Phase>)
    requires area.Fits(|contents|) && contents[area.start][0] == 0
    requires forall i :: 0 <= i < |requests| ==> InArea(requests[i], area.start)
    ensures |events| == |requests| && IsRun(phases, events, 1) && phases[0] == Halted(contents[..area.start])
    ensures Answered(phases, events, requests) && Guarded(events, Redo(area.size))
    ensures !crashSim ==> forall i :: 0 <= i < |events| ==> !Interrupted(events[i])
  {
    EmptyLog(contents, area);
    var disk := new AsyncDisk(contents, crashSim);
    var log := new RedoLog(disk, area, contents[..area.start]);
    events, phases := RedoRun(log, requests);
  }

  // The log over the snapshot disk

  ghost function Form(log: SnapshotLog): Design { if log.group then Group else Plain }

  ghost predicate SnapshotMatches(log: SnapshotLog, p: Phase, l: Ledger)
    reads log, log.sector, log.disk.ftl.Repr()
  {
    match p
    case Serving(view, home, open, touched, since) =>
      && log.Up() && view == log.View() && home == log.disk.ftl.stb && open == log.outstanding
      && touched == (log.n > 0) && since == log.accCommit
      && l == Ledger(log.sector[..log.n], log.outstanding, log.accCommit, log.disk.ftl.wcnt)
    case Halted(home) => log.Down() && home == log.disk.ftl.stb && l == Empty()
  }

  method SnapshotTurn(log: SnapshotLog, request: Request, up: bool, ghost p: Phase, ghost l: Ledger) returns (e: Event, ghost q: Phase)
    requires SnapshotMatches(log, p, l) && up == p.Serving? && InArea(request, N_LAS)
    requires p.Serving? && request.EndRequest? ==> !l.Overflows()
    modifies log, log.sector, log.disk.ftl.Repr()
    ensures Allows(p, e, q, Form(log).Every()) && (p.Serving? ==> Asked(request, e)) && StillUp(e) == q.Serving?
    ensures Guards(l, e, Form(log)) && SnapshotMatches(log, q, l.Recorded(e, Form(log)))
    ensures p.Serving? && q.Serving? && !Closes(p, e) ==>
              && log.disk.ftl.vlt == old(log.disk.ftl.vlt)
              && log.dirty == if e.Write? then old(log.dirty)[e.s := e.data] else old(log.dirty)
    ensures q.Serving? && (!p.Serving? || Closes(p, e)) ==> log.n == 0
    ensures Interrupted(e) ==> log.disk.ftl.flash.crashSim
  {
    hide Ftl.Valid, Ftl.Down, Ftl.Repr;
    q := p;
    if !up {
      var o := log.InitLog();
      e := Recover(o);
      if o.Done? {
        q := Serving(log.View(), log.disk.ftl.stb, 0, false, 0);
      }
    } else {
      match request {
        case BeginRequest =>
          var admitted := log.BeginOp();
          e, q := Begin(admitted), p.(open := log.outstanding);
        case ReadRequest(s) =>
          var data := log.Read(s);
          e := Read(s, data);
        case WriteRequest(s, data) =>
          var failed := log.LogWrite(s, data);
          if failed {
            log.PowerLoss();
          }
          e, q := Write(s, data, failed), if failed then Halted(log.disk.ftl.stb) else p.(view := log.View(), touched := true);
        case EndRequest =>
          e, q := SnapshotEnd(log, p, l);
        case PowerOff =>
          log.PowerLoss();
          e, q := PowerLoss, Halted(log.disk.ftl.stb);
      }
    }
  }

  method SnapshotEnd(log: SnapshotLog, ghost p: Phase, ghost l: Ledger) returns (e: Event, ghost q: Phase)
    requires SnapshotMatches(log, p, l) && p.Serving? && !l.Overflows()
    modifies log, log.disk.ftl.Repr()
    ensures e.End? && Allows(p, e, q, Form(log).Every()) && StillUp(e) == q.Serving?
    ensures SnapshotMatches(log, q, l.Recorded(e, Form(log)))
    ensures q.Serving? && p.open != 1 ==> log.disk.ftl.vlt == old(log.disk.ftl.vlt) && log.dirty == old(log.dirty)
    ensures q.Serving? && p.open == 1 ==> log.n == 0
    ensures Interrupted(e) ==> log.disk.ftl.flash.crashSim
  {
    hide Ftl.Valid, Ftl.Down, Ftl.Repr;
    if p.open == 1 {
      log.AfterIsView();
      log.Quiescent();
    }
    var o := log.EndOp();
    e := End(o);
    q := if o.Crashed? then Halted(log.disk.ftl.stb)
         else Serving(log.View(), log.disk.ftl.stb, log.outstanding, log.n > 0, log.accCommit);
  }

  /** Whether the disk has no room for a commit that is to be made now. */
  method NoRoom(log: SnapshotLog, ghost p: Phase, ghost l: Ledger) returns (over: bool)
    requires SnapshotMatches(log, p, l) && p.Serving?
    ensures SnapshotMatches(log, p, l) && over == l.Overflows()
  {
    hide Ftl.Valid, Ftl.Repr;
    over := log.outstanding == 1 && log.disk.ftl.wcnt + log.n > MAX_WCNT;
  }

  /** No commit of the run was one that the disk had no room for. */
  ghost predicate Roomy(events: seq<Event>, design: Design) {
    events == [] || (Roomy(events[..|events| - 1], design) && (events[|events| - 1].End? ==> !LedgerOf(events[..|events| - 1], design).Overflows()))
  }

  lemma OneMoreRoomy(events: seq<Event>, e: Event, design: Design)
    ensures Roomy(events + [e], design) <==> Roomy(events, design) && (e.End? ==> !LedgerOf(events, design).Overflows())
  {
    assert (events + [e])[..|events + [e]| - 1] == events;
  }

  /**
   The log over the snapshot disk does the same, up to the first commit that the disk has no room
   for: one that would bring the blocks written since the last flush over what the disk takes.
   */
  method SnapshotRun(log: SnapshotLog, requests: seq<Request>)
    returns (events: seq<Event>, ghost phases: seq<Phase>, overflow: bool)
    requires log.Down() && forall i :: 0 <= i < |requests| ==> InArea(requests[i], N_LAS)
    modifies log, log.sector, log.disk.ftl.Repr()
    ensures IsRun(phases, events, Form(log).Every()) && phases[0] == Halted(old(log.disk.ftl.stb))
    ensures Answered(phases, events, requests) && Guarded(events, Form(log)) && Roomy(events, Form(log))
    ensures overflow == (|events| < |requests|)
    ensures overflow ==> requests[|events|].EndRequest? && phases[|events|].Serving? && LedgerOf(events, Form(log)).Overflows()
    ensures !log.group ==> !overflow
    ensures forall i :: 0 <= i < |events| && Interrupted(events[i]) ==> log.disk.ftl.flash.crashSim
  {
    hide Ftl.Valid, Ftl.Down, Ftl.Repr, LedgerOf, Guarded, Guards, Roomy;
    ghost var design := Form(log);
    events, phases, overflow := [], [Halted(log.disk.ftl.stb)], false;
    NoEvents(design);
    assert Roomy([], design) by { NoRoomNeeded(design); }
    var up := false;
    for i := 0 to |requests|
      invariant |events| == i && IsRun(phases, events, design.Every()) && up == phases[i].Serving? && !overflow
      invariant SnapshotMatches(log, phases[i], LedgerOf(events, design))
      invariant phases[0] == Halted(old(log.disk.ftl.stb)) && Answered(phases, events, requests)
      invariant Guarded(events, design) && Roomy(events, design)
      invariant forall j :: 0 <= j < i && Interrupted(events[j]) ==> log.disk.ftl.flash.crashSim
    {
      ghost var l := LedgerOf(events, design);
      if up && requests[i].EndRequest? {
        overflow := NoRoom(log, phases[i], l);
        if overflow {
          return;
        }
      }
      var e; ghost var q;
      e, q := SnapshotTurn(log, requests[i], up, phases[i], l);
      OneMoreEvent(events, e, design);
      OneMoreRoomy(events, e, design);
      up := StillUp(e);
      events, phases := events + [e], phases + [q];
    }
  }

  lemma NoRoomNeeded(design: Design)
    ensures Roomy([], design)
  {
  }

  /** The life of a file system's disk with a log of the plain form, from its formatting on unless that crashes. */
  method SnapshotLife(requests: seq<Request>, crashSim: bool) returns (formatted: bool, events: seq<Event>, ghost phases: seq<Phase>)
    requires forall i :: 0 <= i < |requests| ==> InArea(requests[i], N_LAS)
    ensures |events| == (if formatted then |requests| else 0) && IsRun(phases, events, 1)
    ensures phases[0] == Halted(seq(N_LAS, _ => OnesSector()))
    ensures Answered(phases, events, requests) && Guarded(events, Plain)
    ensures !crashSim ==> formatted && forall i :: 0 <= i < |events| ==> !Interrupted(events[i])
  {
    hide Ftl.Valid, Ftl.Down;
    var ftl := new Ftl(crashSim);
    var disk := new Disk(ftl);
    var log := new SnapshotLog(disk, false);
    var o := ftl.Format();
    formatted, events, phases := o.Done?, [], [Halted(seq(N_LAS, _ => OnesSector()))];
    NoEvents(Plain);
    if formatted {
      var overflow;
      events, phases, overflow := SnapshotRun(log, requests);
    }
  }
}
