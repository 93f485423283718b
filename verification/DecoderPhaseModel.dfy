/**
 * The native decoder's phase (driver/linux/crystalhd_cmds.c): download, bootstrap, open,
 * start, stop and close, against a firmware that may accept a command, reject it without
 * effect, or leave the driver without an answer and act on it now, later or never.
 */
module DecoderPhaseModel {
  import opened Basics

  /** Who owns the session: a file of the old interface, or a native frontend. */
  datatype Owner = File(id: nat) | Native(id: nat)

  datatype Phase = Cold | Bootstrapped | Configured | Started | RecoveryRequired

  /** Where the firmware really is. */
  datatype Firmware = Blank | Loaded | Booted | Opened | Ready | Activated | Streaming

  datatype Command = Init | Open | InputParams | Activate | StartVideo | StopVideo | Close

  /** The link state bits (enum _crystalhd_state); all clear is BC_LINK_INVALID. */
  datatype Link = Link(init: bool, capture: bool, format: bool, suspend: bool, paused: bool, resume: bool)

  const INVALID := Link(false, false, false, false, false, false)
  const INIT := Link(true, false, false, false, false, false)
  const SUSPENDED := Link(false, false, false, true, false, false)
  const RESUMED := Link(false, false, false, false, false, true)

  /** `firmware` and `late`, the commands that may still take effect, are not seen by the driver. */
  datatype Decoder = Decoder(
    flea: bool, present: bool, faulted: bool, owner: Option<Owner>, link: Link,
    phase: Phase, h264: bool, channel: nat, sequence: nat, stream: bool,
    firmware: Firmware, late: set<Command>)

  datatype Code = Ok | Invalid | NoDevice | Busy | Again | Unsupported | NoMemory | Rejection | Trouble

  datatype Step = Step(d: Decoder, code: Code)

  function Fresh(flea: bool): Decoder {
    Decoder(flea, true, false, None, INVALID, Cold, false, 0, 0, false, Blank, {})
  }

  // ---- the firmware ------------------------------------------------------------------

  function After(f: Firmware, c: Command): Firmware {
    match (f, c)
    case (Loaded, Init) => Booted
    case (Booted, Open) => Opened
    case (Opened, InputParams) => Ready
    case (Ready, Activate) => Activated
    case (Activated, StartVideo) => Streaming
    case (Streaming, StopVideo) => Ready
    case (Ready, Close) => Booted
    case _ => f
  }

  /** The answer to one exchange: not sent, BC_STS_FW_CMD_ERR, no answer, or a response. */
  datatype Reply = Refused | Rejected | Lost(applied: bool) | Accepted(channelId: nat)

  /** The reply, and how the adapter looks once it is in. */
  datatype Exchange = Exchange(reply: Reply, present: bool, faulted: bool, sameGeneration: bool)

  /** crystalhd_fw_exec_locked: Ok, Rejection for a firmware rejection, Trouble otherwise. */
  function Exec(d: Decoder, c: Command, x: Exchange): Step {
    var e := d.(present := d.present && x.present, faulted := d.faulted || x.faulted);
    if !d.present || d.faulted || !d.link.init then Step(e, Trouble)
    else
      match x.reply
      case Refused => Step(e, Trouble)
      case Rejected => Step(e, Rejection)
      case Lost(applied) =>
        if applied then Step(e.(firmware := After(d.firmware, c)), Trouble)
        else Step(e.(late := d.late + {c}), Trouble)
      case Accepted(_) =>
        var a := e.(firmware := After(d.firmware, c));
        if c.Init? && d.link == RESUMED.(init := true) then
          if a.present && x.sameGeneration then Step(a.(link := INIT), Ok) else Step(a, Trouble)
        else Step(a, Ok)
  }

  // ---- phases ------------------------------------------------------------------------

  function NextSequence(n: nat): nat { (n + 1) % U32 }

  const U32: nat := 0x1_0000_0000

  function Issue(d: Decoder, c: Command, x: Exchange): Step {
    Exec(d.(sequence := NextSequence(d.sequence)), c, x)
  }

  function Quarantine(d: Decoder): Decoder {
    d.(phase := RecoveryRequired, h264 := false, channel := 0)
  }

  /** crystalhd_stream_release: kept while a vanished or faulted device may still read it. */
  function ReleaseStream(d: Decoder): Decoder {
    if d.present && !d.faulted then d.(stream := false) else d
  }

  /** crystalhd_decoder_tracking_reset */
  function ResetTracking(d: Decoder): Decoder {
    d.(phase := Cold, h264 := false, sequence := 0, channel := 0)
  }

  /** `torn` is where a failed download leaves the firmware. */
  datatype Download = Download(fetched: bool, stays: bool, valid: bool, enters: bool, loads: bool, torn: Firmware)

  predicate Downloadable(d: Decoder) {
    d.link == INVALID || d.link == RESUMED || (d.link == INIT && d.phase == RecoveryRequired)
  }

  /** crystalhd_fw_download_locked; only a verified image clears commands that may still act. */
  function FwDownload(d: Decoder, owner: Owner, w: Download): Step {
    if d.owner != Some(owner) then Step(d, Trouble)
    else if !w.valid then Step(d, Invalid)
    else if !d.present || d.faulted || !w.enters then Step(d, Trouble)
    else if !Downloadable(d) then Step(d, Trouble)
    else if !w.loads then Step(d.(firmware := w.torn), Trouble)
    else Step(ResetTracking(ReleaseStream(d.(link := d.link.(init := true), firmware := Loaded, late := {}))), Ok)
  }

  /** crystalhd_request_firmware_locked */
  function RequestFirmware(d: Decoder, owner: Owner, w: Download): Step {
    if !d.present then Step(d, NoDevice)
    else if d.owner.None? then Step(d, Invalid)
    else if d.owner != Some(owner) then Step(d, Busy)
    else if d.link.suspend then Step(d, Again)
    else if !Downloadable(d) then Step(d, Busy)
    else if !w.fetched then Step(d, Trouble)
    else if !w.stays then Step(d.(present := false), NoDevice)
    else FwDownload(d, owner, w)
  }

  /** The rollback of a bootstrap whose image was already loaded. */
  function Rollback(d: Decoder, initial: Link): Decoder {
    Quarantine(d.(link := initial))
  }

  /** A bootstrap with the image loaded; `gone` when the adapter vanishes right then. */
  function InitFirmware(d: Decoder, initial: Link, gone: bool, x: Exchange): Step {
    var l := d.(present := d.present && !gone);
    if !l.present then Step(Rollback(l, initial), NoDevice)
    else SettleInit(Issue(l, Init, x), initial)
  }

  function SettleInit(i: Step, initial: Link): Step {
    if !i.code.Ok? then Step(Rollback(i.d, initial), i.code)
    else if !i.d.present then Step(Rollback(i.d, initial), NoDevice)
    else Step(i.d.(link := INIT, phase := Bootstrapped, h264 := false, channel := 0), Ok)
  }

  /** crystalhd_fw_bootstrap_locked */
  function Bootstrap(d: Decoder, owner: Owner, w: Download, gone: bool, x: Exchange): Step {
    var r := RequestFirmware(d, owner, w);
    if r.code.Ok? then InitFirmware(r.d, d.link, gone, x) else Step(r.d.(link := d.link), r.code)
  }

  /** The checks that open, start, stop and close make first. */
  function Admission(d: Decoder, owner: Owner): Code {
    if !d.present then NoDevice
    else if d.owner.None? then Invalid
    else if d.owner != Some(owner) then Busy
    else if !d.flea then Unsupported
    else Ok
  }

  /** crystalhd_decoder_channel_open_locked; `known` codec, `prepares` the stream's memory. */
  function OpenChannel(d: Decoder, owner: Owner, known: bool, prepares: bool, x: Exchange, y: Exchange): Step {
    var a := Admission(d, owner);
    if !a.Ok? then Step(d, a)
    else if d.link != INIT || d.phase != Bootstrapped || d.sequence == 0 then Step(d, Busy)
    else if !known then Step(d, Invalid)
    else if !d.stream && !prepares then Step(d, NoMemory)
    else
      SettleOpen(Issue(d.(stream := true), Open, x), x, y)
  }

  /** The answer to OPEN: a rejection opened nothing, any other failure is uncertain. */
  function SettleOpen(o: Step, x: Exchange, y: Exchange): Step {
    if o.code.Rejection? then Step(ReleaseStream(o.d.(h264 := false, channel := 0)), Rejection)
    else if !o.code.Ok? then Step(ReleaseStream(Quarantine(o.d)), o.code)
    else if !o.d.present then Step(ReleaseStream(Quarantine(o.d)), NoDevice)
    else if x.reply.Accepted? && x.reply.channelId != 0 then Step(ReleaseStream(Quarantine(o.d)), Trouble)
    else ConfigureInput(o.d, y)
  }

  /** The second half of an open: INPUT_PARAMS on the channel that OPEN gave. */
  function ConfigureInput(d: Decoder, y: Exchange): Step {
    var i := Issue(d, InputParams, y);
    if !i.code.Ok? then Step(ReleaseStream(Quarantine(i.d)), i.code)
    else if !i.d.present then Step(ReleaseStream(Quarantine(i.d)), NoDevice)
    else Step(i.d.(channel := 0, h264 := true, phase := Configured), Ok)
  }

  /** crystalhd_decoder_channel_start_locked */
  function StartChannel(d: Decoder, owner: Owner, x: Exchange, y: Exchange): Step {
    var a := Admission(d, owner);
    if !a.Ok? then Step(d, a)
    else if d.link != INIT || d.phase != Configured || d.sequence == 0 || d.channel != 0 then Step(d, Busy)
    else if !d.h264 then Step(d, Invalid)
    else if d.faulted then Step(d, NoDevice)
    else
      var o := Issue(d, Activate, x);
      if !o.d.present then Step(Quarantine(o.d), NoDevice)
      else if o.code.Rejection? then Step(o.d, Rejection)
      else if !o.code.Ok? then Step(Quarantine(o.d), o.code)
      else
        var v := Issue(o.d, StartVideo, y);
        if !v.code.Ok? then Step(Quarantine(v.d), v.code)
        else if !v.d.present then Step(Quarantine(v.d), NoDevice)
        else Step(v.d.(phase := Started), Ok)
  }

  /** crystalhd_decoder_release_cmd_locked */
  function ReleaseCommand(d: Decoder, c: Command, x: Exchange): Step {
    var o := Issue(d, c, x);
    if !o.d.present then Step(Quarantine(o.d), NoDevice)
    else if o.code.Trouble? then Step(Quarantine(o.d), Trouble)
    else o
  }

  /** crystalhd_decoder_channel_stop_locked */
  function StopChannel(d: Decoder, owner: Owner, x: Exchange): Step {
    var a := Admission(d, owner);
    if !a.Ok? then Step(d, a)
    else if !d.link.init || d.link.suspend || d.link.paused || d.link.resume then Step(d, Busy)
    else if d.phase != Started || d.sequence == 0 || d.channel != 0 then Step(d, Busy)
    else if !d.h264 then Step(d, Invalid)
    else
      var o := ReleaseCommand(d, StopVideo, x);
      if o.code.Ok? then Step(o.d.(phase := Configured), Ok) else o
  }

  /** crystalhd_decoder_channel_close_locked */
  function CloseChannel(d: Decoder, owner: Owner, x: Exchange): Step {
    var a := Admission(d, owner);
    if !a.Ok? then Step(d, a)
    else if d.link != INIT || d.phase != Configured || d.sequence == 0 || d.channel != 0 then Step(d, Busy)
    else if !d.h264 then Step(d, Invalid)
    else
      var o := ReleaseCommand(d, Close, x);
      if o.code.Ok? then Step(ReleaseStream(o.d.(phase := Bootstrapped, h264 := false, channel := 0)), Ok) else o
  }

  // ---- everything else that touches the phase ----------------------------------------

  /** chd_dec_pci_suspend around crystalhd_suspend: a failure fails the adapter closed. */
  function Suspend(d: Decoder, stopsCapture: bool, cancels: bool, hwSuspends: bool): Decoder {
    if !d.present || d.link == INVALID || d.link.suspend then d
    else if (d.link.capture && !stopsCapture) || !cancels then d.(present := false)
    else
      var s := Quarantine(d.(link := SUSPENDED));
      if hwSuspends then s else s.(present := false)
  }

  /** chd_dec_pci_resume around crystalhd_resume */
  function Resume(d: Decoder, hwResumes: bool): Decoder {
    if !d.present then d
    else if !hwResumes then d.(present := false)
    else if d.link == INVALID then d
    else d.(link := RESUMED)
  }

  datatype Event =
    | AcquireEvent(by_: Owner)
    | RetireEvent(released: bool)
    | DownloadEvent(by_: Owner, download: Download)
    | BootstrapEvent(by_: Owner, download: Download, gone: bool, first: Exchange)
    | OpenEvent(by_: Owner, known: bool, prepares: bool, first: Exchange, second: Exchange)
    | StartEvent(by_: Owner, first: Exchange, second: Exchange)
    | StopEvent(by_: Owner, first: Exchange)
    | CloseEvent(by_: Owner, first: Exchange)
    | FileCommandEvent(user: nat, result: Firmware, pending: set<Command>, recovers: bool)
    | CaptureEvent(capture: bool, format: bool, paused: bool)
    | SuspendEvent(stopsCapture: bool, cancels: bool, hwSuspends: bool)
    | ResumeEvent(hwResumes: bool)
    | VanishEvent
    | FaultEvent
    | LateEvent(command: Command)

  /**
   * The kernel resumes only what it suspended; a file can only send its own commands,
   * and bootstraps, opens, starts, stops and closes come from native frontends.
   */
  predicate Allowed(d: Decoder, e: Event) {
    match e
    case ResumeEvent(_) => d.link.suspend || d.link == INVALID
    case BootstrapEvent(o, _, _, _) => o.Native?
    case OpenEvent(o, _, _, _, _) => o.Native?
    case _ => true
  }

  function Apply(d: Decoder, e: Event): Step {
    match e
    case AcquireEvent(o) =>
      if d.owner.None? && d.link == INVALID then Step(ResetTracking(ReleaseStream(d)).(owner := Some(o)), Ok) else Step(d, Busy)
    case RetireEvent(released) =>
      Step(ResetTracking(ReleaseStream(d.(link := INVALID, owner := if released then None else d.owner))), Ok)
    case DownloadEvent(o, w) => FwDownload(d, o, w)
    case BootstrapEvent(o, w, gone, x) => Bootstrap(d, o, w, gone, x)
    case OpenEvent(o, known, prepares, x, y) => OpenChannel(d, o, known, prepares, x, y)
    case StartEvent(o, x, y) => StartChannel(d, o, x, y)
    case StopEvent(o, x) => StopChannel(d, o, x)
    case CloseEvent(o, x) => CloseChannel(d, o, x)
    case FileCommandEvent(user, result, pending, recovers) =>
      if d.owner != Some(File(user)) || !d.link.init then Step(d, Trouble)
      else Step(d.(firmware := result, late := d.late + pending,
                   link := if recovers && d.link == RESUMED.(init := true) then INIT else d.link), Ok)
    case CaptureEvent(capture, format, paused) => Step(d.(link := d.link.(capture := capture, format := format, paused := paused)), Ok)
    case SuspendEvent(stops, cancels, hw) => Step(Suspend(d, stops, cancels, hw), Ok)
    case ResumeEvent(hw) => Step(Resume(d, hw), Ok)
    case VanishEvent => Step(d.(present := false), Ok)
    case FaultEvent => Step(d.(faulted := true), Ok)
    case LateEvent(c) =>
      Step(if c in d.late then d.(firmware := After(d.firmware, c), late := d.late - {c}) else d, Ok)
  }

  // ---- honesty -----------------------------------------------------------------------

  /** The firmware a phase vouches for. */
  function Vouches(p: Phase): Option<Firmware> {
    match p
    case Bootstrapped => Some(Booted)
    case Configured => Some(Ready)
    case Started => Some(Streaming)
    case _ => None
  }

  /** The phase is exactly right about the firmware, and nothing can still change it. */
  ghost predicate Honest(d: Decoder) {
    Vouches(d.phase).Some? ==> d.firmware == Vouches(d.phase).value && d.late == {}
  }

  ghost predicate Inv(d: Decoder) {
    && Honest(d)
    && (Vouches(d.phase).Some? ==>
      && d.link.init && !d.link.suspend && !d.link.resume
      && d.owner.Some? && d.owner.value.Native?)
    && (d.phase.Configured? || d.phase.Started? ==> d.stream && d.h264)
    && (d.phase.Cold? || d.phase.Bootstrapped? ==> !d.h264)
    && d.channel == 0
  }

  /** Of what the firmware does, only accepted exchanges are known; a rejection does nothing. */
  lemma ExecFacts(d: Decoder, c: Command, x: Exchange)
    ensures var r := Exec(d, c, x);
      && r.d == d.(present := r.d.present, faulted := r.d.faulted, firmware := r.d.firmware, late := r.d.late, link := r.d.link)
      && (r.code.Ok? ==> r.d.firmware == After(d.firmware, c) && r.d.late == d.late)
      && (r.code.Rejection? ==> r.d.firmware == d.firmware && r.d.late == d.late)
      && (!c.Init? || !d.link.resume ==> r.d.link == d.link)
      && (r.code.Ok? || r.code.Rejection? || r.code.Trouble?)
  {
  }

  lemma BootstrapKeeps(d: Decoder, owner: Owner, w: Download, gone: bool, x: Exchange)
    requires Inv(d) && owner.Native?
    ensures Inv(Bootstrap(d, owner, w, gone, x).d)
  {
    var r := RequestFirmware(d, owner, w);
    if r.code.Ok? {
      var l := r.d.(present := r.d.present && !gone);
      ExecFacts(l.(sequence := NextSequence(l.sequence)), Init, x);
    }
  }

  lemma OpenKeeps(d: Decoder, owner: Owner, known: bool, prepares: bool, x: Exchange, y: Exchange)
    requires Inv(d)
    ensures Inv(OpenChannel(d, owner, known, prepares, x, y).d)
  {
    var b := d.(stream := true);
    ExecFacts(b.(sequence := NextSequence(b.sequence)), Open, x);
    var o := Issue(b, Open, x);
    ExecFacts(o.d.(sequence := NextSequence(o.d.sequence)), InputParams, y);
  }

  lemma StartKeeps(d: Decoder, owner: Owner, x: Exchange, y: Exchange)
    requires Inv(d)
    ensures Inv(StartChannel(d, owner, x, y).d)
  {
    ExecFacts(d.(sequence := NextSequence(d.sequence)), Activate, x);
    var o := Issue(d, Activate, x);
    ExecFacts(o.d.(sequence := NextSequence(o.d.sequence)), StartVideo, y);
  }

  lemma StopKeeps(d: Decoder, owner: Owner, x: Exchange)
    requires Inv(d)
    ensures Inv(StopChannel(d, owner, x).d)
  {
    ExecFacts(d.(sequence := NextSequence(d.sequence)), StopVideo, x);
  }

  lemma CloseKeeps(d: Decoder, owner: Owner, x: Exchange)
    requires Inv(d)
    ensures Inv(CloseChannel(d, owner, x).d)
  {
    ExecFacts(d.(sequence := NextSequence(d.sequence)), Close, x);
  }

  lemma StepKeeps(d: Decoder, e: Event)
    requires Inv(d) && Allowed(d, e)
    ensures Inv(Apply(d, e).d)
  {
    match e
    case BootstrapEvent(o, w, gone, x) => BootstrapKeeps(d, o, w, gone, x);
    case OpenEvent(o, known, prepares, x, y) => OpenKeeps(d, o, known, prepares, x, y);
    case StartEvent(o, x, y) => StartKeeps(d, o, x, y);
    case StopEvent(o, x) => StopKeeps(d, o, x);
    case CloseEvent(o, x) => CloseKeeps(d, o, x);
    case _ =>
  }
}
