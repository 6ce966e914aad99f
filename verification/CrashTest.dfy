/**
 What the disk promises, over whole runs.  The specification keeps two arrays: vlt is what
 the host reads, stb is what a recovery brings back.
 */
module CrashRuns {
  import opened Geometry
  import opened FlashDevice
  import opened LayerState
  import opened TranslationLayer
  import opened SnapshotDisk

  datatype Spec = Spec(vlt: seq<Sector>, stb: seq<Sector>, wcnt: int) {
    function Written(lsa: Word, data: Sector): Spec {
      if lsa < |vlt| && wcnt < MAX_WCNT then this.(vlt := vlt[lsa := data], wcnt := wcnt + 1) else this
    }

    function Flushed(): Spec { this.(stb := vlt, wcnt := 0) }
  }

  /** Between two events the disk is running, or it has stopped with a snapshot in it. */
  datatype Phase = Running(spec: Spec) | Stopped(snapshot: seq<Sector>)

  datatype Event =
    | Read(lsa: Word, data: Sector)
    | Write(lsa: Word, data: Sector, o: Outcome)
    | Flush(o: Outcome)
    | Collect(o: Outcome)
    | EraseAhead
    | PowerLoss
    | Recovery(o: Outcome)

  /** What the specification allows to happen. */
  ghost predicate Allows(p: Phase, e: Event, q: Phase) {
    match e
    case Read(lsa, data) => p.Running? && q == p && (lsa < |p.spec.vlt| ==> data == p.spec.vlt[lsa])
    case Write(lsa, data, Done) => p.Running? && q == Running(p.spec.Written(lsa, data))
    case Write(_, _, Crashed) => p.Running? && q == Stopped(p.spec.stb)
    case Flush(Done) => p.Running? && q == Running(p.spec.Flushed())
    case Flush(Crashed) => p.Running? && (q == Stopped(p.spec.stb) || q == Stopped(p.spec.vlt))
    case Collect(Done) => p.Running? && q == p
    case Collect(Crashed) => p.Running? && q == Stopped(p.spec.stb)
    case EraseAhead => p.Running? && q == p
    case PowerLoss => p.Running? && q == Stopped(p.spec.stb)
    case Recovery(Done) => p.Stopped? && q == Running(Spec(p.snapshot, p.snapshot, 0))
    case Recovery(Crashed) => p.Stopped? && q == p
  }

  ghost predicate IsRun(phases: seq<Phase>, events: seq<Event>) {
    && |phases| == |events| + 1
    && forall i :: 0 <= i < |events| ==> Allows(phases[i], events[i], phases[i + 1])
  }

  /** A request by the host, or a step of the collector; once the disk is down the host recovers it instead. */
  datatype Request =
    | ReadRequest(lsa: Word)
    | WriteRequest(lsa: Word, data: Sector)
    | FlushRequest
    | CollectRequest
    | EraseRequest
    | PowerOff

  /** The phase that the disk is in. */
  ghost predicate Matches(disk: Disk, p: Phase)
    reads disk, disk.ftl.Repr()
  {
    match p
    case Running(spec) => disk.Up() && |disk.ftl.vlt| == N_LAS && spec == Spec(disk.ftl.vlt, disk.ftl.stb, disk.ftl.wcnt)
    case Stopped(snapshot) => disk.Down() && snapshot == disk.ftl.stb
  }

  lemma Disciplined(disk: Disk, p: Phase)
    requires Matches(disk, p)
    ensures disk.ftl.flash.disciplined
  {
  }

  /** Power was lost inside the call. */
  predicate Interrupted(e: Event) {
    match e
    case Write(_, _, o) => o.Crashed?
    case Flush(o) => o.Crashed?
    case Collect(o) => o.Crashed?
    case Recovery(o) => o.Crashed?
    case _ => false
  }

  /** The only call that a stopped disk answers. */
  method Restart(disk: Disk, ghost p: Phase) returns (e: Event, ghost q: Phase)
    requires Matches(disk, p) && p.Stopped?
    modifies disk.ftl.Repr()
    ensures Matches(disk, q) && Allows(p, e, q) && (Interrupted(e) ==> disk.ftl.flash.crashSim)
  {
    hide Ftl.Valid, Ftl.Down;
    var o := disk.Recovery();
    e, q := Recovery(o), p;
    if o.Done? {
      disk.ftl.Sizes();
      q := Running(Spec(disk.ftl.vlt, disk.ftl.stb, disk.ftl.wcnt));
    }
  }

  /** The calls of a running disk. */
  method Answer(disk: Disk, request: Request, ghost p: Phase) returns (e: Event, ghost q: Phase)
    requires Matches(disk, p) && p.Running?
    modifies disk.ftl.Repr()
    ensures Matches(disk, q) && Allows(p, e, q) && Asked(request, e) && (Interrupted(e) ==> disk.ftl.flash.crashSim)
    ensures e.EraseAhead? && old(disk.ftl.S().nErasable) > 0 ==> disk.ftl.S().nErasable == old(disk.ftl.S().nErasable) - 1
  {
    hide Ftl.Valid, Ftl.Down, Ftl.S;
    q := p;
    disk.ftl.Sizes();
    match request {
      case ReadRequest(lsa) =>
        var data: Sector := *;
        data := disk.Read(lsa, data);
        e := Read(lsa, data);
      case WriteRequest(lsa, data) =>
        var o := disk.Write(lsa, data);
        e := Write(lsa, data, o);
        q := if o.Crashed? then Stopped(disk.ftl.stb) else Running(Spec(disk.ftl.vlt, disk.ftl.stb, disk.ftl.wcnt));
      case FlushRequest =>
        var o := disk.Flush();
        e := Flush(o);
        q := if o.Crashed? then Stopped(disk.ftl.stb) else Running(Spec(disk.ftl.vlt, disk.ftl.stb, disk.ftl.wcnt));
      case CollectRequest =>
        var o := disk.ftl.GcCopy();
        e := Collect(o);
        q := if o.Crashed? then Stopped(disk.ftl.stb) else p;
      case EraseRequest =>
        disk.ftl.GcErase();
        e := EraseAhead;
      case PowerOff =>
        disk.PowerLoss();
        e, q := PowerLoss, Stopped(disk.ftl.stb);
    }
  }

  /** One turn of the host: the event that comes of it is one that the specification allows. */
  method Turn(disk: Disk, request: Request, up: bool, ghost p: Phase) returns (e: Event, ghost q: Phase)
    requires Matches(disk, p) && up == p.Running?
    modifies disk.ftl.Repr()
    ensures Matches(disk, q) && Allows(p, e, q) && (p.Running? ==> Asked(request, e)) && (Interrupted(e) ==> disk.ftl.flash.crashSim)
  {
    if up {
      e, q := Answer(disk, request, p);
    } else {
      e, q := Restart(disk, p);
    }
  }

  /**
   Any sequence of requests, with crashes anywhere and recoveries that may crash themselves,
   is a run that the specification allows.  Throughout it every page is programmed only once
   between erases, and the pages of a block in ascending order.
   */
  method Run(disk: Disk, requests: seq<Request>) returns (events: seq<Event>, ghost phases: seq<Phase>)
    requires disk.Down()
    modifies disk.ftl.Repr()
    ensures |events| == |requests| && IsRun(phases, events)
    ensures phases[0] == Stopped(old(disk.ftl.stb))
    ensures disk.ftl.flash.disciplined
    ensures forall i :: 0 <= i < |events| && phases[i].Running? ==> Asked(requests[i], events[i])
    ensures forall i :: 0 <= i < |events| && Interrupted(events[i]) ==> disk.ftl.flash.crashSim
  {
    hide Ftl.Valid, Ftl.Down, Ftl.Repr;
    events, phases := [], [Stopped(disk.ftl.stb)];
    var up := false;
    for i := 0 to |requests|
      invariant |events| == i && IsRun(phases, events) && Matches(disk, phases[i]) && up == phases[i].Running?
      invariant phases[0] == Stopped(old(disk.ftl.stb))
      invariant forall j :: 0 <= j < i && phases[j].Running? ==> Asked(requests[j], events[j])
      invariant forall j :: 0 <= j < i && Interrupted(events[j]) ==> disk.ftl.flash.crashSim
    {
      var e; ghost var q;
      e, q := Turn(disk, requests[i], up, phases[i]);
      up := StillUp(e);
      events, phases := events + [e], phases + [q];
    }
    Disciplined(disk, phases[|requests|]);
  }

  /** The life of a disk that starts with sectors of ones, from its formatting on unless that crashes. */
  method Lifetime(requests: seq<Request>, crashSim: bool) returns (formatted: bool, events: seq<Event>, ghost phases: seq<Phase>)
    ensures |events| == (if formatted then |requests| else 0) && IsRun(phases, events)
    ensures phases[0] == Stopped(seq(N_LAS, _ => OnesSector()))
    ensures forall i :: 0 <= i < |events| && phases[i].Running? ==> Asked(requests[i], events[i])
    ensures !crashSim ==> formatted && forall i :: 0 <= i < |events| ==> !Interrupted(events[i])
  {
    hide Ftl.Valid, Ftl.Down;
    var ftl := new Ftl(crashSim);
    var disk := new Disk(ftl);
    var o := ftl.Format();
    formatted, events, phases := o.Done?, [], [Stopped(seq(N_LAS, _ => OnesSector()))];
    if formatted {
      events, phases := Run(disk, requests);
    }
  }

  /** Whether the disk still runs after the event. */
  predicate StillUp(e: Event) {
    match e
    case Read(_, _) => true
    case Write(_, _, o) => o.Done?
    case Flush(o) => o.Done?
    case Collect(o) => o.Done?
    case EraseAhead => true
    case PowerLoss => false
    case Recovery(o) => o.Done?
  }

  /** The event answers the request. */
  predicate Asked(r: Request, e: Event) {
    match r
    case ReadRequest(lsa) => e.Read? && e.lsa == lsa
    case WriteRequest(lsa, data) => e.Write? && e.lsa == lsa && e.data == data
    case FlushRequest => e.Flush?
    case CollectRequest => e.Collect?
    case EraseRequest => e.EraseAhead?
    case PowerOff => e.PowerLoss?
  }

  // What a run means for the data

  /** The contents that event e of phase p offers to become the snapshot. */
  ghost predicate Offers(p: Phase, e: Event, contents: seq<Sector>) {
    p.Running? && e.Flush? && p.spec.vlt == contents
  }

  /** The snapshot of a phase: what a recovery from here would bring back. */
  ghost function SnapshotOf(p: Phase): seq<Sector> {
    if p.Running? then p.spec.stb else p.snapshot
  }

  /** The snapshot at point n is what the host saw at the flush at point k, and no later flush has completed. */
  ghost predicate FlushedAt(phases: seq<Phase>, events: seq<Event>, n: nat, k: int)
    requires IsRun(phases, events) && n < |phases|
  {
    && -1 <= k < n
    && (if k == -1 then SnapshotOf(phases[n]) == SnapshotOf(phases[0]) else Offers(phases[k], events[k], SnapshotOf(phases[n])))
    && forall j :: k < j < n ==> events[j] != Flush(Done)
  }

  /**
   At any time a crash brings back, whole, what the host saw at one flush; every flush that
   completed after it would have replaced it.
   */
  lemma {:induction false} SnapshotIsOneFlush(phases: seq<Phase>, events: seq<Event>, n: nat) returns (k: int)
    requires IsRun(phases, events) && n < |phases|
    ensures FlushedAt(phases, events, n, k)
  {
    if n == 0 {
      k := -1;
    } else {
      k := SnapshotIsOneFlush(phases, events, n - 1);
      assert Allows(phases[n - 1], events[n - 1], phases[n]);
      if Offers(phases[n - 1], events[n - 1], SnapshotOf(phases[n])) {
        k := n - 1;
      }
    }
  }

  // The crash test

  /** Compares every sector of the disk with the specification. */
  method MatchVlt(disk: Disk, vlt: seq<Sector>) returns (same: bool)
    requires disk.Up() && |vlt| == N_LAS
    ensures same <==> vlt == disk.ftl.vlt
  {
    hide Ftl.Valid;
    disk.ftl.Sizes();
    var lsa := 0;
    while lsa < N_LAS
      invariant 0 <= lsa <= N_LAS && disk.Up() && |disk.ftl.vlt| == N_LAS
      invariant forall l :: 0 <= l < lsa ==> vlt[l] == disk.ftl.vlt[l]
    {
      var buf := disk.Read(lsa, vlt[lsa]);
      if buf != vlt[lsa] {
        return false;
      }
      lsa := lsa + 1;
    }
    return true;
  }

  datatype CrashedIn = NotCrashed | InWrite | InFlush

  /** The test's own arrays, and the call that its last crash was in. */
  datatype Test = Test(spec: Spec, crashed: CrashedIn) {
    ghost predicate Fits(p: Phase) {
      && |spec.vlt| == |spec.stb| == N_LAS
      && match crashed
         case NotCrashed => p == Running(spec)
         case InWrite => p == Stopped(spec.stb)
         case InFlush => p == Stopped(spec.stb) || p == Stopped(spec.vlt)
    }

    /** The test carries out what it has asked for on its own arrays. */
    function Noted(e: Event): Test {
      match e
      case Write(lsa, data, o) => if o.Done? then this.(spec := spec.Written(lsa, data)) else this.(crashed := InWrite)
      case Flush(o) => if o.Done? then this.(spec := spec.Flushed()) else this.(crashed := InFlush)
      case Collect(o) => if o.Done? then this else this.(crashed := InWrite)
      case PowerLoss => this.(crashed := InWrite)
      case _ => this
    }
  }

  /** After a crash in a flush the disk decides which snapshot the test goes on with. */
  method Recover(disk: Disk, t0: Test, ghost p: Phase) returns (e: Event, t: Test, ghost q: Phase)
    requires Matches(disk, p) && t0.Fits(p) && t0.crashed != NotCrashed
    modifies disk.ftl.Repr()
    ensures Matches(disk, q) && Allows(p, e, q) && t.Fits(q) && (t.crashed == NotCrashed <==> StillUp(e))
  {
    hide Ftl.Valid, Ftl.Down;
    e, q := Restart(disk, p);
    t := t0;
    if StillUp(e) {
      if t.crashed == InFlush {
        var same := MatchVlt(disk, t.spec.vlt);
        if same {
          t := t.(spec := t.spec.Flushed());
        }
      }
      t := Test(t.spec.(vlt := t.spec.stb, wcnt := 0), NotCrashed);
    }
  }

  method Serve(disk: Disk, request: Request, t0: Test, ghost p: Phase) returns (e: Event, t: Test, ghost q: Phase)
    requires Matches(disk, p) && t0.Fits(p) && t0.crashed == NotCrashed
    modifies disk.ftl.Repr()
    ensures Matches(disk, q) && Allows(p, e, q) && Asked(request, e) && t.Fits(q) && (t.crashed == NotCrashed <==> StillUp(e))
  {
    hide Ftl.Valid, Ftl.Down;
    e, q := Answer(disk, request, p);
    t := t0.Noted(e);
  }

  /** A call, and a comparison if the disk is running afterwards. */
  method Step(disk: Disk, request: Request, t0: Test, ghost p: Phase) returns (e: Event, t: Test, same: bool, ghost q: Phase)
    requires Matches(disk, p) && t0.Fits(p)
    modifies disk.ftl.Repr()
    ensures Matches(disk, q) && Allows(p, e, q) && (p.Running? ==> Asked(request, e)) && t.Fits(q)
    ensures same && (t.crashed == NotCrashed <==> StillUp(e))
  {
    hide Ftl.Valid, Ftl.Down, Allows, Asked, StillUp;
    if t0.crashed != NotCrashed {
      e, t, q := Recover(disk, t0, p);
    } else {
      e, t, q := Serve(disk, request, t0, p);
    }
    same := true;
    if t.crashed == NotCrashed {
      same := MatchVlt(disk, t.spec.vlt);
    }
  }

  /** The number of events that leave the disk running. */
  function Ups(events: seq<Event>): nat {
    if events == [] then 0 else Ups(events[..|events| - 1]) + if StillUp(events[|events| - 1]) then 1 else 0
  }

  /**
   The crash test passes, whatever it asks and wherever the device crashes: each comparison, one after every
   call that leaves the disk running, finds the disk and the arrays of the test the same.
   */
  method CrashTest(disk: Disk, requests: seq<Request>, initial: seq<Sector>)
    returns (passed: bool, compared: nat, events: seq<Event>, t: Test, ghost phases: seq<Phase>)
    requires disk.Down() && |initial| == N_LAS && disk.ftl.stb == initial
    modifies disk.ftl.Repr()
    ensures passed && compared == Ups(events)
    ensures |events| == |requests| && IsRun(phases, events) && phases[0] == Stopped(initial)
    ensures forall i :: 0 <= i < |events| && phases[i].Running? ==> Asked(requests[i], events[i])
    ensures Matches(disk, phases[|requests|]) && t.Fits(phases[|requests|])
  {
    hide Ftl.Valid, Ftl.Down, Ftl.Repr, Allows, Asked, StillUp;
    t := Test(Spec(initial, initial, 0), InWrite);
    passed, compared, events, phases := true, 0, [], [Stopped(initial)];
    for i := 0 to |requests|
      invariant passed && compared == Ups(events)
      invariant |events| == i && IsRun(phases, events) && phases[0] == Stopped(initial)
      invariant forall j :: 0 <= j < i && phases[j].Running? ==> Asked(requests[j], events[j])
      invariant Matches(disk, phases[i]) && t.Fits(phases[i])
    {
      var e, same; ghost var q;
      e, t, same, q := Step(disk, requests[i], t, phases[i]);
      events, phases := events + [e], phases + [q];
      passed, compared := passed && same, compared + if t.crashed == NotCrashed then 1 else 0;
    }
  }
}
