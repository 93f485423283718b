/**
 * What holds of the decoder's phase in every run: it never says more than the firmware
 * did, an uncertain transition is quarantined, and only a verified download or the end
 * of the session lifts the quarantine.
 */
module DecoderPhaseTheorems {
  import opened Basics
  import opened DecoderPhaseModel

  function Run(d: Decoder, events: seq<Event>): Decoder
    decreases |events|
  {
    if events == [] then d else Run(Apply(d, events[0]).d, events[1..])
  }

  predicate AllowedRun(d: Decoder, events: seq<Event>)
    decreases |events|
  {
    events == [] || (Allowed(d, events[0]) && AllowedRun(Apply(d, events[0]).d, events[1..]))
  }

  lemma {:induction false} RunKeeps(d: Decoder, events: seq<Event>)
    requires Inv(d) && AllowedRun(d, events)
    ensures Inv(Run(d, events))
    decreases |events|
  {
    if events != [] {
      StepKeeps(d, events[0]);
      RunKeeps(Apply(d, events[0]).d, events[1..]);
    }
  }

  /** After any run, a phase that vouches for the firmware is right, whatever is still late. */
  lemma PhaseNeverOverstates(flea: bool, events: seq<Event>)
    requires AllowedRun(Fresh(flea), events)
    ensures var d := Run(Fresh(flea), events);
      && (d.phase.Bootstrapped? ==> d.firmware == Booted && d.late == {})
      && (d.phase.Configured? ==> d.firmware == Ready && d.late == {} && d.stream)
      && (d.phase.Started? ==> d.firmware == Streaming && d.late == {} && d.stream)
      && (Vouches(d.phase).Some? ==> d.owner.Some? && d.owner.value.Native?)
  {
    RunKeeps(Fresh(flea), events);
  }

  /** The firmware is where it was, and no further command is left that could still act. */
  ghost predicate FirmwareUntouched(d: Decoder, r: Decoder) {
    r.firmware == d.firmware && r.late == d.late
  }

  predicate Transition(e: Event) {
    e.BootstrapEvent? || e.OpenEvent? || e.StartEvent? || e.StopEvent? || e.CloseEvent?
  }

  function Target(e: Event): Phase
    requires Transition(e)
  {
    match e
    case BootstrapEvent(_, _, _, _) => Bootstrapped
    case OpenEvent(_, _, _, _, _) => Configured
    case StartEvent(_, _, _) => Started
    case StopEvent(_, _) => Configured
    case CloseEvent(_, _) => Bootstrapped
  }

  /**
   * A native transition reaches its phase, or it is quarantined, or it kept its phase
   * and the firmware is untouched. Only a download torn before INIT was ever sent stays
   * in COLD, where nothing is vouched for.
   */
  lemma TransitionIsAllNothingOrQuarantined(d: Decoder, e: Event)
    requires Inv(d) && Transition(e)
    ensures var r := Apply(d, e);
      if r.code.Ok? then r.d.phase == Target(e) && r.d.firmware == Vouches(Target(e)).value && r.d.late == {}
      else
        || r.d.phase.RecoveryRequired?
        || (r.d.phase == d.phase && (FirmwareUntouched(d, r.d) || d.phase.Cold?))
  {
    match e
    case BootstrapEvent(o, w, gone, x) => BootstrapOutcome(d, o, w, gone, x);
    case OpenEvent(o, known, prepares, x, y) => OpenOutcome(d, o, known, prepares, x, y);
    case StartEvent(o, x, y) => StartOutcome(d, o, x, y);
    case StopEvent(o, x) => ExecFacts(d.(sequence := NextSequence(d.sequence)), StopVideo, x);
    case CloseEvent(o, x) => ExecFacts(d.(sequence := NextSequence(d.sequence)), Close, x);
  }

  lemma BootstrapOutcome(d: Decoder, o: Owner, w: Download, gone: bool, x: Exchange)
    requires Inv(d)
    ensures var r := Bootstrap(d, o, w, gone, x);
      if r.code.Ok? then r.d.phase.Bootstrapped? && r.d.firmware == Booted && r.d.late == {} && r.d.link == INIT
      else
        && r.d.link == d.link
        && (r.d.phase.RecoveryRequired? || (r.d.phase == d.phase && (FirmwareUntouched(d, r.d) || d.phase.Cold?)))
  {
    var q := RequestFirmware(d, o, w);
    if q.code.Ok? {
      var l := q.d.(present := q.d.present && !gone);
      ExecFacts(l.(sequence := NextSequence(l.sequence)), Init, x);
    }
  }

  /** An exchange the firmware carried out and answered, with the adapter still there. */
  predicate Answered(x: Exchange) { x.reply.Accepted? && x.present }

  /** The frontend that owns the session, on a decoder that is there and has the native interface. */
  predicate Entitled(d: Decoder, o: Owner) { d.present && d.owner == Some(o) && d.flea }

  /** Initialised, and nothing else. */
  predicate Idle(l: Link) { l.init && !l.capture && !l.format && !l.suspend && !l.paused && !l.resume }

  /** Who may open, start, stop and close, and what the others are told. */
  lemma AdmissionIff(d: Decoder, o: Owner)
    ensures Admission(d, o).Ok? <==> Entitled(d, o)
    ensures Admission(d, o).NoDevice? <==> !d.present
    ensures Admission(d, o).Invalid? <==> d.present && d.owner.None?
    ensures Admission(d, o).Busy? <==> d.present && d.owner.Some? && d.owner.value != o
    ensures Admission(d, o).Unsupported? <==> d.present && d.owner == Some(o) && !d.flea
  {
  }

  predicate OpenAdmitted(d: Decoder, o: Owner, known: bool, prepares: bool) {
    && Entitled(d, o) && Idle(d.link) && d.phase.Bootstrapped? && d.sequence != 0
    && known && (d.stream || prepares)
  }

  /** Open: configured iff both commands were answered on channel 0, else quarantined unless rejected. */
  lemma OpenOutcome(d: Decoder, o: Owner, known: bool, prepares: bool, x: Exchange, y: Exchange)
    requires Inv(d)
    ensures var r := OpenChannel(d, o, known, prepares, x, y);
      if !OpenAdmitted(d, o, known, prepares) then r.d == d && !r.code.Ok?
      else
        && (r.code.Ok? <==> r.d.phase.Configured?)
        && (r.code.Ok? <==> !d.faulted && Answered(x) && x.reply.channelId == 0 && !x.faulted && Answered(y))
        && (r.d.phase.Bootstrapped? <==> !d.faulted && x.reply.Rejected?)
        && (r.d.phase.Configured? || r.d.phase.Bootstrapped? || r.d.phase.RecoveryRequired?)
    ensures var r := OpenChannel(d, o, known, prepares, x, y);
      if r.code.Ok? then r.d.phase.Configured? && r.d.firmware == Ready && r.d.late == {}
      else r.d.phase.RecoveryRequired? || (r.d.phase == d.phase && FirmwareUntouched(d, r.d))
  {
    var b := d.(stream := true);
    ExecFacts(b.(sequence := NextSequence(b.sequence)), Open, x);
    var u := Issue(b, Open, x);
    ExecFacts(u.d.(sequence := NextSequence(u.d.sequence)), InputParams, y);
  }

  predicate StartAdmitted(d: Decoder, o: Owner) {
    Entitled(d, o) && Idle(d.link) && d.phase.Configured? && d.sequence != 0 && !d.faulted
  }

  /** Start: streaming iff both commands were answered, configured again iff ACTIVATE was rejected. */
  lemma StartOutcome(d: Decoder, o: Owner, x: Exchange, y: Exchange)
    requires Inv(d)
    ensures var r := StartChannel(d, o, x, y);
      if !StartAdmitted(d, o) then r.d == d && !r.code.Ok?
      else
        && (r.code.Ok? <==> r.d.phase.Started?)
        && (r.code.Ok? <==> Answered(x) && !x.faulted && Answered(y))
        && (r.d.phase.Configured? <==> x.reply.Rejected? && x.present)
        && (r.d.phase.Started? || r.d.phase.Configured? || r.d.phase.RecoveryRequired?)
    ensures var r := StartChannel(d, o, x, y);
      if r.code.Ok? then r.d.phase.Started? && r.d.firmware == Streaming && r.d.late == {}
      else r.d.phase.RecoveryRequired? || (r.d.phase == d.phase && FirmwareUntouched(d, r.d))
  {
    ExecFacts(d.(sequence := NextSequence(d.sequence)), Activate, x);
    var u := Issue(d, Activate, x);
    ExecFacts(u.d.(sequence := NextSequence(u.d.sequence)), StartVideo, y);
  }

  /** Initialised; capture and a pending format change may still be on. */
  predicate StopAdmitted(d: Decoder, o: Owner) {
    && Entitled(d, o) && d.link.init && !d.link.suspend && !d.link.paused && !d.link.resume
    && d.phase.Started? && d.sequence != 0
  }

  /** Stop: configured iff the command was answered, started still iff it was rejected, else quarantined. */
  lemma StopOutcome(d: Decoder, o: Owner, x: Exchange)
    requires Inv(d)
    ensures var r := StopChannel(d, o, x);
      if !StopAdmitted(d, o) then r.d == d && !r.code.Ok?
      else
        && r.d.link == d.link
        && (r.code.Ok? <==> r.d.phase.Configured?) && (r.code.Ok? <==> !d.faulted && Answered(x))
        && (r.code.Rejection? <==> r.d.phase.Started?) && (r.code.Rejection? <==> !d.faulted && x.reply.Rejected? && x.present)
        && (r.d.phase.Configured? || r.d.phase.Started? || r.d.phase.RecoveryRequired?)
    ensures var r := StopChannel(d, o, x);
      && (r.code.Ok? ==> r.d.firmware == Ready && r.d.late == {} && r.d.stream && r.d.h264)
      && (r.code.Rejection? ==> FirmwareUntouched(d, r.d) && r.d.stream && r.d.h264)
  {
    ExecFacts(d.(sequence := NextSequence(d.sequence)), StopVideo, x);
  }

  predicate CloseAdmitted(d: Decoder, o: Owner) {
    Entitled(d, o) && Idle(d.link) && d.phase.Configured? && d.sequence != 0
  }

  /** Close: bootstrapped iff the command was answered, configured still iff it was rejected, else quarantined. */
  lemma CloseOutcome(d: Decoder, o: Owner, x: Exchange)
    requires Inv(d)
    ensures var r := CloseChannel(d, o, x);
      if !CloseAdmitted(d, o) then r.d == d && !r.code.Ok?
      else
        && r.d.link == d.link
        && (r.code.Ok? <==> r.d.phase.Bootstrapped?) && (r.code.Ok? <==> !d.faulted && Answered(x))
        && (r.code.Rejection? <==> r.d.phase.Configured?)
        && (r.code.Rejection? <==> !d.faulted && x.reply.Rejected? && x.present)
        && (r.d.phase.Bootstrapped? || r.d.phase.Configured? || r.d.phase.RecoveryRequired?)
    ensures var r := CloseChannel(d, o, x);
      && (r.code.Ok? ==> r.d.firmware == Booted && r.d.late == {} && !r.d.h264 && (r.d.stream <==> x.faulted))
      && (r.code.Rejection? ==> FirmwareUntouched(d, r.d) && r.d.stream && r.d.h264)
  {
    ExecFacts(d.(sequence := NextSequence(d.sequence)), Close, x);
  }

  // ---- downloads ---------------------------------------------------------------------

  /** A link nobody started, one just resumed, or an idle one whose phase is lost. */
  predicate Offered(d: Decoder) {
    && !d.link.capture && !d.link.format && !d.link.suspend && !d.link.paused
    && (!d.link.init || (!d.link.resume && d.phase.RecoveryRequired?))
  }

  /** A download loads exactly for the session's owner, on a working device, in a link state that offers it. */
  lemma DownloadSucceedsIff(d: Decoder, o: Owner, w: Download)
    ensures var r := FwDownload(d, o, w);
      r.code.Ok? <==>
        d.owner == Some(o) && d.present && !d.faulted && Offered(d) && w.valid && w.enters && w.loads
    ensures var r := FwDownload(d, o, w);
      if r.code.Ok? then
        && r.d.link == d.link.(init := true) && r.d.firmware == Loaded && r.d.late == {} && r.d.phase.Cold?
        && r.d.sequence == 0 && !r.d.h264 && !r.d.stream && r.d.owner == d.owner
      else r.d == d.(firmware := r.d.firmware) && (r.d.firmware == d.firmware || (d.owner == Some(o) && w.valid && w.enters))
  {
  }

  /** A bootstrap succeeds exactly when the image is there and loads, and INIT is answered by the same device. */
  lemma BootstrapSucceedsIff(d: Decoder, o: Owner, w: Download, gone: bool, x: Exchange)
    ensures Bootstrap(d, o, w, gone, x).code.Ok? <==>
      && d.owner == Some(o) && d.present && !d.faulted && Offered(d)
      && w.fetched && w.stays && w.valid && w.enters && w.loads && !gone
      && Answered(x) && (d.link.resume ==> x.sameGeneration)
  {
    DownloadSucceedsIff(d, o, w);
  }

  // ---- power management --------------------------------------------------------------

  /** A suspend is reached exactly when capture, if on, stops and transmission is cancelled; the phase is lost. */
  lemma SuspendOutcome(d: Decoder, stops: bool, cancels: bool, hw: bool)
    requires d.present && d.link != INVALID && !d.link.suspend
    ensures var r := Suspend(d, stops, cancels, hw);
      && (r.link.suspend <==> (d.link.capture ==> stops) && cancels)
      && (r.link.suspend ==> r.phase.RecoveryRequired? && r.present == hw && !r.link.init)
      && (!r.link.suspend ==> r == d.(present := false))
  {
  }

  // ---- leaving the quarantine --------------------------------------------------------

  /** A verified image, or a session beginning or ending. */
  predicate LiftsQuarantine(e: Event) {
    match e
    case AcquireEvent(_) => true
    case RetireEvent(_) => true
    case DownloadEvent(_, w) => w.loads
    case BootstrapEvent(_, w, _, _) => w.loads
    case _ => false
  }

  lemma QuarantineStep(d: Decoder, e: Event)
    requires d.phase.RecoveryRequired? && !LiftsQuarantine(e)
    ensures Apply(d, e).d.phase.RecoveryRequired?
  {
    match e
    case BootstrapEvent(o, w, gone, x) => assert !RequestFirmware(d, o, w).code.Ok?;
    case OpenEvent(o, known, prepares, x, y) => assert OpenChannel(d, o, known, prepares, x, y).d == d;
    case StartEvent(o, x, y) => assert StartChannel(d, o, x, y).d == d;
    case StopEvent(o, x) => assert StopChannel(d, o, x).d == d;
    case CloseEvent(o, x) => assert CloseChannel(d, o, x).d == d;
    case _ =>
  }

  /** Nothing but a verified download or a session boundary leads out of RECOVERY_REQUIRED. */
  lemma {:induction false} QuarantineHolds(d: Decoder, events: seq<Event>)
    requires d.phase.RecoveryRequired?
    requires forall k :: 0 <= k < |events| ==> !LiftsQuarantine(events[k])
    ensures Run(d, events).phase.RecoveryRequired?
    decreases |events|
  {
    if events != [] {
      QuarantineStep(d, events[0]);
      QuarantineHolds(Apply(d, events[0]).d, events[1..]);
    }
  }

  /** And a bootstrap that is answered does lead out, from the states it is offered in. */
  lemma BootstrapRecovers(d: Decoder, o: Owner, w: Download, x: Exchange)
    requires d.present && !d.faulted && d.owner == Some(o) && Downloadable(d)
    requires w.fetched && w.stays && w.valid && w.enters && w.loads
    requires Answered(x) && x.sameGeneration
    ensures var r := Bootstrap(d, o, w, false, x);
      r.code.Ok? && r.d.phase.Bootstrapped? && r.d.firmware == Booted && r.d.late == {} && r.d.sequence == 1
  {
  }

  /** After a suspend and its resume, no channel runs until a bootstrap, which then leads back. */
  lemma ResumedRecovers(d: Decoder, o: Owner, stops: bool, known: bool, w: Download, x: Exchange, y: Exchange)
    requires d.present && !d.faulted && Entitled(d, o) && d.link.init && !d.link.suspend
    requires d.link.capture ==> stops
    requires w.fetched && w.stays && w.valid && w.enters && w.loads
    requires Answered(x) && x.sameGeneration
    ensures var slept := Suspend(d, stops, true, true);
      var woken := Resume(slept, true);
      && woken == slept.(link := Link(false, false, false, false, false, true))
      && OpenChannel(woken, o, known, true, x, y) == Step(woken, Busy)
      && StartChannel(woken, o, x, y) == Step(woken, Busy)
      && var r := Bootstrap(woken, o, w, false, x);
         r.code.Ok? && r.d.phase.Bootstrapped? && r.d.firmware == Booted && r.d.sequence == 1
  {
    var woken := Resume(Suspend(d, stops, true, true), true);
    AdmissionIff(woken, o);
    BootstrapRecovers(woken, o, w, x);
  }

  // ---- a whole cycle -----------------------------------------------------------------

  predicate Clean(x: Exchange) { x.reply == Accepted(0) && x.present && !x.faulted }

  /** Open, start, stop, close, all answered: the channel is gone and only six numbers were used. */
  lemma CycleReturns(d: Decoder, o: Owner, x: Exchange)
    requires Inv(d) && d.phase.Bootstrapped? && d.link == INIT && Admission(d, o).Ok? && !d.faulted
    requires 0 < d.sequence && d.sequence + 6 < U32 && Clean(x)
    ensures var configured := OpenChannel(d, o, true, true, x, x);
      var started := StartChannel(configured.d, o, x, x);
      var stopped := StopChannel(started.d, o, x);
      var closed := CloseChannel(stopped.d, o, x);
      && started.d.firmware == Streaming && started.d.stream
      && stopped.d == configured.d.(sequence := d.sequence + 5)
      && closed == Step(d.(sequence := d.sequence + 6, stream := false), Ok)
  {
    OpenConfigures(d, o, x);
    var a := OpenChannel(d, o, true, true, x, x).d;
    StartStreams(a, o, x);
    StopUndoesStart(a, StartChannel(a, o, x, x).d, o, x);
  }

  lemma OpenConfigures(d: Decoder, o: Owner, x: Exchange)
    requires Inv(d) && d.phase.Bootstrapped? && d.link == INIT && Admission(d, o).Ok? && !d.faulted
    requires 0 < d.sequence && d.sequence + 6 < U32 && Clean(x)
    ensures OpenChannel(d, o, true, true, x, x) ==
      Step(d.(sequence := d.sequence + 2, stream := true, h264 := true, phase := Configured, firmware := Ready), Ok)
  {
  }

  lemma StartStreams(a: Decoder, o: Owner, x: Exchange)
    requires a.phase.Configured? && a.link == INIT && Admission(a, o).Ok? && !a.faulted && a.h264 && a.channel == 0
    requires 0 < a.sequence && a.sequence + 2 < U32 && a.firmware == Ready && Clean(x)
    ensures StartChannel(a, o, x, x) == Step(a.(sequence := a.sequence + 2, phase := Started, firmware := Streaming), Ok)
  {
  }

  lemma StopUndoesStart(a: Decoder, b: Decoder, o: Owner, x: Exchange)
    requires Clean(x) && Admission(b, o).Ok? && !b.faulted && b.link == INIT && a.h264 && a.channel == 0
    requires 0 < b.sequence && b.sequence + 1 < U32 && a.phase.Configured? && a.firmware == Ready
    requires b == a.(sequence := b.sequence, phase := Started, firmware := Streaming)
    ensures StopChannel(b, o, x) == Step(a.(sequence := b.sequence + 1), Ok)
  {
  }

  /**
   * A started channel can be stopped while capture runs, with or without a format change
   * pending; it can be closed only once capture is off, and is then gone.
   */
  lemma CaptureCycleReturns(b: Decoder, o: Owner, x: Exchange, format: bool)
    requires Inv(b) && b.phase.Started? && b.link == INIT && Entitled(b, o) && !b.faulted
    requires 0 < b.sequence && b.sequence + 2 < U32 && Clean(x)
    ensures var streaming := Apply(b, CaptureEvent(true, format, false)).d;
      var stopped := StopChannel(streaming, o, x);
      var quiet := Apply(stopped.d, CaptureEvent(false, false, false)).d;
      && streaming == b.(link := INIT.(capture := true, format := format))
      && stopped == Step(streaming.(sequence := b.sequence + 1, phase := Configured, firmware := Ready), Ok)
      && CloseChannel(stopped.d, o, x) == Step(stopped.d, Busy)
      && CloseChannel(quiet, o, x) ==
        Step(b.(sequence := b.sequence + 2, phase := Bootstrapped, firmware := Booted, h264 := false, stream := false), Ok)
  {
    var c := b.(link := INIT.(capture := true, format := format));
    StopsWhileCapturing(c, o, x);
    WaitsForCapture(c.(sequence := c.sequence + 1, phase := Configured, firmware := Ready), o, x);
    Closes(b.(sequence := b.sequence + 1, phase := Configured, firmware := Ready), o, x);
  }

  lemma WaitsForCapture(c: Decoder, o: Owner, x: Exchange)
    requires Admission(c, o).Ok? && c.link.capture
    ensures CloseChannel(c, o, x) == Step(c, Busy)
  {
  }

  lemma Closes(c: Decoder, o: Owner, x: Exchange)
    requires Clean(x) && Admission(c, o).Ok? && !c.faulted && c.h264 && c.channel == 0 && c.phase.Configured?
    requires c.link == INIT && c.firmware == Ready && 0 < c.sequence && c.sequence + 1 < U32
    ensures CloseChannel(c, o, x) ==
      Step(c.(sequence := c.sequence + 1, phase := Bootstrapped, h264 := false, firmware := Booted, stream := false), Ok)
  {
  }

  lemma StopsWhileCapturing(b: Decoder, o: Owner, x: Exchange)
    requires Clean(x) && Admission(b, o).Ok? && !b.faulted && b.h264 && b.channel == 0 && b.phase.Started?
    requires b.link == INIT.(capture := b.link.capture, format := b.link.format) && b.firmware == Streaming
    requires 0 < b.sequence && b.sequence + 1 < U32
    ensures StopChannel(b, o, x) == Step(b.(sequence := b.sequence + 1, phase := Configured, firmware := Ready), Ok)
  {
  }

  // ---- what the kernel's pairing of suspend and resume is needed for -----------------

  /** A resume keeps the phase honest exactly when no phase vouches for the firmware. */
  lemma ResumeNeedsItsSuspend(d: Decoder)
    requires Inv(d) && d.present
    ensures Inv(Resume(d, true)) <==> Vouches(d.phase).None?
  {
  }

  /** A resume nobody suspended for lets a torn download pass under a STARTED phase. */
  lemma UnpairedResumeOverstates(d: Decoder, o: Owner, w: Download)
    requires Inv(d) && d.phase.Started? && d.present && !d.faulted && d.owner == Some(o)
    requires w.valid && w.enters && !w.loads && !w.torn.Streaming?
    ensures !Honest(FwDownload(Resume(d, true), o, w).d)
  {
  }
}
