/**
 * The decoder transitions as the driver runs them, on the command context's own fields;
 * each one refines its function in DecoderPhaseModel.
 */
module DecoderPhaseDriver {
  import opened Basics
  import opened DecoderPhaseModel

  class DecoderCommand {
    const flea: bool
    var present: bool
    var faulted: bool
    var owner: Option<Owner>
    var link: Link
    var phase: Phase
    var h264: bool
    var channel: nat
    var sequence: nat
    var stream: bool
    ghost var firmware: Firmware
    ghost var late: set<Command>

    ghost function View(): Decoder
      reads this
    {
      Decoder(flea, present, faulted, owner, link, phase, h264, channel, sequence, stream, firmware, late)
    }

    constructor (isFlea: bool)
      ensures View() == Fresh(isFlea)
    {
      flea, present, faulted, owner, link := isFlea, true, false, None, INVALID;
      phase, h264, channel, sequence, stream := Cold, false, 0, 0, false;
      firmware, late := Blank, {};
    }

    // ---- small steps ---------------------------------------------------------------

    method EnterRecovery()
      modifies this`phase, this`h264, this`channel
      ensures View() == Quarantine(old(View()))
    {
      phase := RecoveryRequired;
      h264 := false;
      channel := 0;
    }

    method TrackingReset()
      modifies this`phase, this`h264, this`channel, this`sequence
      ensures View() == ResetTracking(old(View()))
    {
      phase := Cold;
      h264 := false;
      sequence := 0;
      channel := 0;
    }

    method StreamRelease()
      modifies this`stream
      ensures View() == ReleaseStream(old(View()))
    {
      if faulted || !present {
        return;
      }
      stream := false;
    }

    /** The firmware's side of an exchange. */
    ghost method FirmwareActs(c: Command, x: Exchange)
      modifies this`firmware, this`late
      ensures firmware == (if x.reply.Accepted? || (x.reply.Lost? && x.reply.applied) then After(old(firmware), c) else old(firmware))
      ensures late == (if x.reply.Lost? && !x.reply.applied then old(late) + {c} else old(late))
    {
      match x.reply
      case Lost(applied) =>
        if applied {
          firmware := After(firmware, c);
        } else {
          late := late + {c};
        }
      case Accepted(_) => firmware := After(firmware, c);
      case _ =>
    }

    method FwExec(c: Command, x: Exchange) returns (code: Code)
      modifies this`present, this`faulted, this`link, this`firmware, this`late
      ensures Step(View(), code) == Exec(old(View()), c, x)
    {
      var admitted := present && !faulted && link.init;
      var recovering := c.Init? && link == RESUMED.(init := true);
      if admitted {
        FirmwareActs(c, x);
      }
      present, faulted := present && x.present, faulted || x.faulted;
      if !admitted {
        return Trouble;
      }
      if x.reply.Rejected? {
        return Rejection;
      }
      if !x.reply.Accepted? {
        return Trouble;
      }
      if recovering {
        if !present || !x.sameGeneration {
          return Trouble;
        }
        link := INIT;
      }
      code := Ok;
    }

    method IssueCommand(c: Command, x: Exchange) returns (code: Code)
      modifies this`sequence, this`present, this`faulted, this`link, this`firmware, this`late
      ensures Step(View(), code) == Issue(old(View()), c, x)
    {
      sequence := (sequence + 1) % U32;
      code := FwExec(c, x);
    }

    // ---- download and bootstrap ----------------------------------------------------

    method DownloadLocked(o: Owner, w: Download) returns (code: Code)
      modifies this
      ensures Step(View(), code) == FwDownload(old(View()), o, w)
    {
      if owner != Some(o) {
        return Trouble;
      }
      if !w.valid {
        return Invalid;
      }
      if !present || faulted || !w.enters {
        return Trouble;
      }
      if link != INVALID && link != RESUMED && !(link == INIT && phase == RecoveryRequired) {
        return Trouble;
      }
      if !w.loads {
        firmware := w.torn;
        return Trouble;
      }
      firmware, late := Loaded, {};
      link := link.(init := true);
      StreamRelease();
      TrackingReset();
      code := Ok;
    }

    method RequestFirmwareLocked(o: Owner, w: Download) returns (code: Code)
      modifies this
      ensures Step(View(), code) == RequestFirmware(old(View()), o, w)
    {
      if !present {
        return NoDevice;
      }
      if owner.None? {
        return Invalid;
      }
      if owner != Some(o) {
        return Busy;
      }
      if link.suspend {
        return Again;
      }
      if link != INVALID && link != RESUMED && !(link == INIT && phase == RecoveryRequired) {
        return Busy;
      }
      if !w.fetched {
        return Trouble;
      }
      if !w.stays {
        present := false;
        return NoDevice;
      }
      code := DownloadLocked(o, w);
    }

    method InitLoadedFirmware(initial: Link, gone: bool, x: Exchange) returns (code: Code)
      modifies this
      ensures Step(View(), code) == InitFirmware(old(View()), initial, gone, x)
    {
      present := present && !gone;
      if !present {
        link := initial;
        EnterRecovery();
        return NoDevice;
      }
      code := IssueCommand(Init, x);
      code := FinishInit(code, initial);
    }

    method FinishInit(answer: Code, initial: Link) returns (code: Code)
      modifies this
      ensures Step(View(), code) == SettleInit(Step(old(View()), answer), initial)
    {
      if answer != Ok || !present {
        link := initial;
        EnterRecovery();
        return if answer != Ok then answer else NoDevice;
      }
      link, phase, h264, channel := INIT, Bootstrapped, false, 0;
      code := Ok;
    }

    method BootstrapLocked(o: Owner, w: Download, gone: bool, x: Exchange) returns (code: Code)
      modifies this
      ensures Step(View(), code) == Bootstrap(old(View()), o, w, gone, x)
    {
      var initial := link;
      code := RequestFirmwareLocked(o, w);
      if code != Ok {
        link := initial;
        return;
      }
      code := InitLoadedFirmware(initial, gone, x);
    }

    // ---- the channel ---------------------------------------------------------------

    method CheckAdmission(o: Owner) returns (code: Code)
      ensures code == Admission(View(), o)
    {
      code := if !present then NoDevice else if owner.None? then Invalid else
        if owner != Some(o) then Busy else if !flea then Unsupported else Ok;
    }

    method ChannelOpen(o: Owner, known: bool, prepares: bool, x: Exchange, y: Exchange) returns (code: Code)
      modifies this
      ensures Step(View(), code) == OpenChannel(old(View()), o, known, prepares, x, y)
    {
      code := CheckAdmission(o);
      if code != Ok {
        return;
      }
      if link != INIT || phase != Bootstrapped || sequence == 0 {
        return Busy;
      }
      if !known {
        return Invalid;
      }
      if !stream {
        if !prepares {
          return NoMemory;
        }
        stream := true;
      }
      code := IssueCommand(Open, x);
      code := FinishOpen(code, x, y);
    }

    method FinishOpen(answer: Code, x: Exchange, y: Exchange) returns (code: Code)
      requires answer == Ok ==> x.reply.Accepted?
      modifies this
      ensures Step(View(), code) == SettleOpen(Step(old(View()), answer), x, y)
    {
      if answer != Ok {
        if answer != Rejection {
          phase := RecoveryRequired;
        }
        h264, channel := false, 0;
        StreamRelease();
        return answer;
      }
      if !present {
        EnterRecovery();
        StreamRelease();
        return NoDevice;
      }
      if x.reply.channelId != 0 {
        EnterRecovery();
        StreamRelease();
        return Trouble;
      }
      code := ConfigureOpened(y);
    }

    method ConfigureOpened(y: Exchange) returns (code: Code)
      modifies this
      ensures Step(View(), code) == ConfigureInput(old(View()), y)
    {
      code := IssueCommand(InputParams, y);
      if code != Ok || !present {
        EnterRecovery();
        StreamRelease();
        code := if code != Ok then code else NoDevice;
        return;
      }
      channel, h264, phase := 0, true, Configured;
    }

    method ChannelStart(o: Owner, x: Exchange, y: Exchange) returns (code: Code)
      modifies this
      ensures Step(View(), code) == StartChannel(old(View()), o, x, y)
    {
      code := CheckAdmission(o);
      if code != Ok {
        return;
      }
      if link != INIT || phase != Configured || sequence == 0 || channel != 0 {
        return Busy;
      }
      if !h264 {
        return Invalid;
      }
      if faulted {
        return NoDevice;
      }
      code := IssueCommand(Activate, x);
      if !present {
        EnterRecovery();
        return NoDevice;
      }
      if code != Ok {
        if code != Rejection {
          EnterRecovery();
        }
        return;
      }
      code := IssueCommand(StartVideo, y);
      if code != Ok || !present {
        EnterRecovery();
        code := if code != Ok then code else NoDevice;
        return;
      }
      phase := Started;
    }

    method ReleaseCmd(c: Command, x: Exchange) returns (code: Code)
      modifies this
      ensures Step(View(), code) == ReleaseCommand(old(View()), c, x)
    {
      code := IssueCommand(c, x);
      if !present {
        EnterRecovery();
        return NoDevice;
      }
      if code != Ok && code != Rejection {
        EnterRecovery();
      }
    }

    method ChannelStop(o: Owner, x: Exchange) returns (code: Code)
      modifies this
      ensures Step(View(), code) == StopChannel(old(View()), o, x)
    {
      code := CheckAdmission(o);
      if code != Ok {
        return;
      }
      if !link.init || link.suspend || link.paused || link.resume || phase != Started || sequence == 0 || channel != 0 {
        return Busy;
      }
      if !h264 {
        return Invalid;
      }
      code := ReleaseCmd(StopVideo, x);
      if code == Ok {
        phase := Configured;
      }
    }

    method ChannelClose(o: Owner, x: Exchange) returns (code: Code)
      modifies this
      ensures Step(View(), code) == CloseChannel(old(View()), o, x)
    {
      code := CheckAdmission(o);
      if code != Ok {
        return;
      }
      if link != INIT || phase != Configured || sequence == 0 || channel != 0 {
        return Busy;
      }
      if !h264 {
        return Invalid;
      }
      code := ReleaseCmd(Close, x);
      if code != Ok {
        return;
      }
      phase, h264, channel := Bootstrapped, false, 0;
      StreamRelease();
    }

    // ---- power management ----------------------------------------------------------

    method SuspendLocked(stopsCapture: bool, cancels: bool, hwSuspends: bool)
      modifies this
      ensures View() == Suspend(old(View()), stopsCapture, cancels, hwSuspends)
    {
      if !present || link == INVALID || link.suspend {
        return;
      }
      if link.capture && !stopsCapture {
        present := false;
        return;
      }
      if !cancels {
        present := false;
        return;
      }
      link := SUSPENDED;
      EnterRecovery();
      if !hwSuspends {
        present := false;
      }
    }

    method ResumeLocked(hwResumes: bool)
      modifies this
      ensures View() == Resume(old(View()), hwResumes)
    {
      if !present {
        return;
      }
      if !hwResumes {
        present := false;
        return;
      }
      if link != INVALID {
        link := RESUMED;
      }
    }
  }
}
