/** Streaming control of the dvbsky bridges: the STOP / START command pair of
    bridges/dvbsky/bridge/src/dvbsky_stream.c, the lock that keeps it together, and the
    lock-edge logic of bridges/dvbsky/dvb/src/dvb_dvbsky.c that re-fires it. */
module DvbskyStream {
  import opened Bytes

  // ---- command frames from several threads -----------------------------------------

  datatype Frame = Stop | Start | Other

  /** Where the thread that holds ctrl_lock stands in its function. */
  datatype Holder = Nobody | AtStop(thread: nat, on: bool) | AtStart(thread: nat) | AtCommand(thread: nat)

  datatype Bus = Bus(frames: seq<Frame>, holder: Holder)

  datatype BusStep =
    | EnterStreamCtrl(thread: nat, on: bool)
    | SendStop(written: bool)
    | SendStart
    | EnterBulkRw(thread: nat)
    | SendCommand

  predicate BusEnabled(b: Bus, step: BusStep) {
    match step
    case EnterStreamCtrl(_, _) => b.holder.Nobody?
    case EnterBulkRw(_) => b.holder.Nobody?
    case SendStop(_) => b.holder.AtStop?
    case SendStart => b.holder.AtStart?
    case SendCommand => b.holder.AtCommand?
  }

  function BusNext(b: Bus, step: BusStep): Bus
    requires BusEnabled(b, step)
  {
    match step
    case EnterStreamCtrl(t, on) => b.(holder := AtStop(t, on))
    case EnterBulkRw(t) => b.(holder := AtCommand(t))
    case SendStop(written) =>
      Bus(b.frames + [Stop], if written && b.holder.on then AtStart(b.holder.thread) else Nobody)
    case SendStart => Bus(b.frames + [Start], Nobody)
    case SendCommand => Bus(b.frames + [Other], Nobody)
  }

  /** What the holder of the lock sends: a STOP, a START behind it when the STOP was written and the
      stream is to be on, or one frame of another command. */
  lemma HolderSends(b: Bus, step: BusStep)
    requires BusEnabled(b, step)
    ensures var t := BusNext(b, step);
            match step
            case EnterStreamCtrl(thread, on) => t == Bus(b.frames, AtStop(thread, on))
            case EnterBulkRw(thread) => t == Bus(b.frames, AtCommand(thread))
            case SendStop(written) =>
              && t.frames == b.frames + [Stop]
              && t.holder == if written && b.holder.on then AtStart(b.holder.thread) else Nobody
            case SendStart => t == Bus(b.frames + [Start], Nobody)
            case SendCommand => t == Bus(b.frames + [Other], Nobody)
  {
  }

  predicate BusRuns(b: Bus, steps: seq<BusStep>, b': Bus)
    decreases |steps|
  {
    if steps == [] then b' == b else BusEnabled(b, steps[0]) && BusRuns(BusNext(b, steps[0]), steps[1..], b')
  }

  predicate StopsPrecedeStarts(frames: seq<Frame>) {
    forall k :: 0 <= k < |frames| && frames[k].Start? ==> 0 < k && frames[k - 1].Stop?
  }

  predicate BusInv(b: Bus) {
    StopsPrecedeStarts(b.frames) && (b.holder.AtStart? ==> b.frames != [] && b.frames[|b.frames| - 1].Stop?)
  }

  /** Whatever threads share the bridge, every START frame directly follows a STOP. */
  lemma {:induction false} StartFollowsStop(b: Bus, steps: seq<BusStep>, b': Bus)
    requires BusInv(b) && BusRuns(b, steps, b')
    ensures StopsPrecedeStarts(b'.frames) && BusInv(b')
    decreases |steps|
  {
    if steps != [] {
      StartFollowsStop(BusNext(b, steps[0]), steps[1..], b');
    }
  }

  // ---- the frontend --------------------------------------------------------------

  /** usbq_bulk_write's answers to the two frames of dvbsky_stream_ctrl. */
  datatype Ctrl = Ctrl(stopN: int, startN: int)

  const FRAME_SZ := 3

  function WriteRc(n: int): int {
    if n < 0 then n else if n != FRAME_SZ then -EIO else 0
  }

  function CtrlRc(on: bool, c: Ctrl): int {
    if WriteRc(c.stopN) != 0 || !on then WriteRc(c.stopN) else WriteRc(c.startN)
  }

  function CtrlFrames(on: bool, c: Ctrl): seq<Frame> {
    [Stop] + if on && WriteRc(c.stopN) == 0 then [Start] else []
  }

  /** A call of the vtable with the answers its callees give. */
  datatype Call =
    | Tune(setRc: int, ctrl: Ctrl)
    | GetStatus(readRc: int, lock: bool, ctrl: Ctrl)
    | CaptureStop(ctrl: Ctrl)

  /** attempts is history: how often dvbsky_stream_ctrl(1) has been called. */
  datatype Fe = Fe(captureOn: bool, lastLock: bool, tuneCount: nat, attempts: nat)

  const FRESH := Fe(false, false, 0, 0)

  function Step(fe: Fe, call: Call): Fe {
    match call
    case Tune(setRc, ctrl) =>
      var f := fe.(tuneCount := fe.tuneCount + 1);
      if setRc < 0 then f
      else f.(lastLock := false, attempts := f.attempts + 1, captureOn := f.captureOn || CtrlRc(true, ctrl) == 0)
    case GetStatus(readRc, lock, _) =>
      if readRc < 0 then fe
      else
        var edge := lock && !fe.lastLock && fe.captureOn;
        fe.(lastLock := lock, attempts := if edge then fe.attempts + 1 else fe.attempts)
    case CaptureStop(ctrl) =>
      if fe.captureOn && CtrlRc(false, ctrl) == 0 then fe.(captureOn := false, lastLock := false) else fe
  }

  function Run(calls: seq<Call>): Fe {
    if calls == [] then FRESH else Step(Run(calls[..|calls| - 1]), calls[|calls| - 1])
  }

  // ---- what a caller can tell from the calls alone -----------------------------------

  predicate Tuned(call: Call) {
    call.Tune? && 0 <= call.setRc
  }

  /** The stream is on after these calls: the last tune that got it going is more recent
      than the last stop that succeeded. */
  predicate StreamOn(calls: seq<Call>) {
    exists k :: 0 <= k < |calls| && Tuned(calls[k]) && CtrlRc(true, calls[k].ctrl) == 0
                && forall j :: k < j < |calls| ==> !Stopped(calls[j])
  }

  predicate Stopped(call: Call) {
    call.CaptureStop? && CtrlRc(false, call.ctrl) == 0
  }

  /** A status read that says locked. */
  predicate SaysLocked(call: Call) {
    call.GetStatus? && 0 <= call.readRc && call.lock
  }

  /** A call after which the frontend counts as unlocked again. */
  predicate Unlocks(call: Call) {
    Tuned(call) || (call.GetStatus? && 0 <= call.readRc && !call.lock)
  }

  /** Locked at some status read, with nothing since that unlocks it; a stop unlocks it if
      the stream was on. */
  predicate Locked(calls: seq<Call>) {
    exists k :: 0 <= k < |calls| && SaysLocked(calls[k])
                && forall j :: k < j < |calls| ==> !Unlocks(calls[j]) && !(Stopped(calls[j]) && StreamOn(calls[..j]))
  }

  /** Call k observes an unlocked-to-locked edge while the stream is on. */
  predicate IsEdge(calls: seq<Call>, k: nat)
    requires k < |calls|
  {
    SaysLocked(calls[k]) && !Locked(calls[..k]) && StreamOn(calls[..k])
  }

  function Tunes(calls: seq<Call>): nat {
    if calls == [] then 0
    else Tunes(calls[..|calls| - 1]) + if Tuned(calls[|calls| - 1]) then 1 else 0
  }

  function Edges(calls: seq<Call>): nat {
    if calls == [] then 0
    else Edges(calls[..|calls| - 1]) + if IsEdge(calls, |calls| - 1) then 1 else 0
  }

  lemma StreamOnStep(calls: seq<Call>, call: Call)
    ensures StreamOn(calls + [call]) <==>
              (Tuned(call) && CtrlRc(true, call.ctrl) == 0) || (StreamOn(calls) && !Stopped(call))
  {
    var all := calls + [call];
    var n := |calls|;
    assert forall k :: 0 <= k < n ==> all[k] == calls[k];
    if StreamOn(all) {
      var k :| 0 <= k < |all| && Tuned(all[k]) && CtrlRc(true, all[k].ctrl) == 0
               && forall j :: k < j < |all| ==> !Stopped(all[j]);
      if k < n {
        assert !Stopped(all[n]) && Tuned(calls[k]);
      }
    }
    if Tuned(call) && CtrlRc(true, call.ctrl) == 0 {
      assert all[n] == call;
    } else if StreamOn(calls) && !Stopped(call) {
      var k :| 0 <= k < n && Tuned(calls[k]) && CtrlRc(true, calls[k].ctrl) == 0
               && forall j :: k < j < n ==> !Stopped(calls[j]);
      assert Tuned(all[k]);
    }
  }

  predicate KeepsLock(calls: seq<Call>, j: nat)
    requires j < |calls|
  {
    !Unlocks(calls[j]) && !(Stopped(calls[j]) && StreamOn(calls[..j]))
  }

  lemma LockedStep(calls: seq<Call>, call: Call)
    ensures Locked(calls + [call]) <==>
              SaysLocked(call) || (Locked(calls) && !Unlocks(call) && !(Stopped(call) && StreamOn(calls)))
  {
    var all := calls + [call];
    var n := |calls|;
    assert all[n] == call && all[..n] == calls;
    assert forall k :: 0 <= k < n ==> all[k] == calls[k] && all[..k] == calls[..k];
    if SaysLocked(call) {
      assert SaysLocked(all[n]);
    } else if Locked(calls) && KeepsLock(all, n) {
      var k :| 0 <= k < n && SaysLocked(calls[k])
               && forall j :: k < j < n ==> !Unlocks(calls[j]) && !(Stopped(calls[j]) && StreamOn(calls[..j]));
      assert SaysLocked(all[k]);
    }
  }

  /** The two flags say what they are meant to say, and stream-enable is attempted once per
      successful set_frontend and once per lock edge seen while streaming. */
  lemma {:induction false} EnablesAreTunesPlusEdges(calls: seq<Call>)
    ensures var fe := Run(calls);
            && (fe.captureOn <==> StreamOn(calls)) && (fe.lastLock <==> Locked(calls))
            && fe.attempts == Tunes(calls) + Edges(calls)
    decreases |calls|
  {
    if calls != [] {
      var n := |calls| - 1;
      EnablesAreTunesPlusEdges(calls[..n]);
      assert calls == calls[..n] + [calls[n]];
      StreamOnStep(calls[..n], calls[n]);
      LockedStep(calls[..n], calls[n]);
    }
  }

  /** A frontend that streams and counts as locked has had its FIFO resynchronised at the
      edge, and since then neither been tuned nor seen unlocked. */
  lemma {:induction false} LockedMeansResynced(calls: seq<Call>) returns (edge: nat)
    requires Run(calls).captureOn && Run(calls).lastLock
    ensures edge < |calls| && IsEdge(calls, edge)
    ensures forall j :: edge < j < |calls| ==> !Unlocks(calls[j])
    decreases |calls|
  {
    var n := |calls| - 1;
    var before := calls[..n];
    EnablesAreTunesPlusEdges(before);
    if Run(before).captureOn && Run(before).lastLock {
      edge := LockedMeansResynced(before);
      assert before[..edge] == calls[..edge];
      forall j | edge < j < |calls| ensures !Unlocks(calls[j]) {
        if j < n {
          assert before[j] == calls[j];
        }
      }
    } else {
      edge := n;
    }
  }
}

/** The dvbsky frontend and its bridge as the C code keeps them. */
module DvbskyFrontend {
  import opened Bytes
  import D = DvbskyStream

  /** A command frame written to the bridge, or the stream's ring flushed. */
  datatype Event = Sent(frame: D.Frame) | Flushed

  function Sents(frames: seq<D.Frame>): seq<Event> {
    seq(|frames|, i requires 0 <= i < |frames| => Sent(frames[i]))
  }

  class DvbskyFrontend {
    var captureOn: bool
    var lastLock: bool
    var tuneCount: nat
    /** What this frontend has done to the bridge and to its stream. */
    var trace: seq<Event>
    ghost var attempts: nat

    ghost function State(): D.Fe
      reads this
    {
      D.Fe(captureOn, lastLock, tuneCount, attempts)
    }

    constructor ()
      ensures State() == D.FRESH && trace == []
    {
      captureOn, lastLock, tuneCount, trace, attempts := false, false, 0, [], 0;
    }

    /** dvbsky_stream_ctrl. */
    method StreamCtrl(on: bool, ctrl: D.Ctrl) returns (rc: int)
      modifies this`trace, this`attempts
      ensures rc == D.CtrlRc(on, ctrl) <= 0
      ensures trace == old(trace) + Sents(D.CtrlFrames(on, ctrl))
      ensures trace == old(trace) + [Sent(D.Stop)] + if on && ctrl.stopN == 3 then [Sent(D.Start)] else []
      ensures rc == if ctrl.stopN < 0 then ctrl.stopN
                    else if ctrl.stopN != 3 then -EIO
                    else if !on then 0
                    else if ctrl.startN < 0 then ctrl.startN
                    else if ctrl.startN != 3 then -EIO
                    else 0
      ensures attempts == old(attempts) + if on then 1 else 0
    {
      attempts := attempts + if on then 1 else 0;
      trace := trace + [Sent(D.Stop)];
      if ctrl.stopN < 0 {
        return ctrl.stopN;
      }
      if ctrl.stopN != D.FRAME_SZ {
        return -EIO;
      }
      if on {
        trace := trace + [Sent(D.Start)];
        if ctrl.startN < 0 {
          return ctrl.startN;
        }
        if ctrl.startN != D.FRAME_SZ {
          return -EIO;
        }
      }
      return 0;
    }

    /** dvbsky_v_tune, set_frontend having answered setRc, -ENOSYS when there is none. The ring
        is flushed after a successful set_frontend and before the stream is enabled again. */
    method Tune(setRc: int, ctrl: D.Ctrl) returns (rc: int)
      modifies this
      ensures State() == D.Step(old(State()), D.Tune(setRc, ctrl))
      ensures rc == if setRc < 0 then setRc else D.CtrlRc(true, ctrl)
      ensures trace == old(trace) + if setRc < 0 then [] else [Flushed] + Sents(D.CtrlFrames(true, ctrl))
      ensures trace == old(trace) +
                       if setRc < 0 then []
                       else [Flushed] + [Sent(D.Stop)] + if ctrl.stopN == 3 then [Sent(D.Start)] else []
      ensures captureOn == (old(captureOn) || rc == 0) && lastLock == (old(lastLock) && setRc < 0)
      ensures tuneCount == old(tuneCount) + 1
    {
      tuneCount := tuneCount + 1;
      if setRc < 0 {
        return setRc;
      }
      trace := trace + [Flushed];
      lastLock := false;
      if !captureOn {
        rc := StreamCtrl(true, ctrl);
        if rc < 0 {
          return;
        }
        captureOn := true;
      } else {
        rc := StreamCtrl(true, ctrl);
        if rc < 0 {
          return;
        }
      }
      return 0;
    }

    /** dvbsky_v_get_status, read_status having answered readRc and the lock bit. A resync
        that fails is not reported. */
    method GetStatus(readRc: int, lock: bool, ctrl: D.Ctrl) returns (rc: int)
      modifies this
      ensures State() == D.Step(old(State()), D.GetStatus(readRc, lock, ctrl))
      ensures rc == if readRc < 0 then readRc else 0
      ensures trace == old(trace) +
                       if 0 <= readRc && lock && !old(lastLock) && old(captureOn)
                       then [Sent(D.Stop)] + if ctrl.stopN == 3 then [Sent(D.Start)] else []
                       else []
      ensures captureOn == old(captureOn) && lastLock == if readRc < 0 then old(lastLock) else lock
    {
      if readRc < 0 {
        return readRc;
      }
      if lock && !lastLock && captureOn {
        var _ := StreamCtrl(true, ctrl);
      }
      lastLock := lock;
      return 0;
    }

    /** dvbsky_v_capture_stop. */
    method CaptureStop(ctrl: D.Ctrl) returns (rc: int)
      modifies this
      ensures State() == D.Step(old(State()), D.CaptureStop(ctrl))
      ensures rc == if old(captureOn) then D.CtrlRc(false, ctrl) else 0
      ensures trace == old(trace) + if old(captureOn) then [Sent(D.Stop)] else []
      ensures captureOn == (old(captureOn) && ctrl.stopN != 3)
      ensures lastLock == (old(lastLock) && !(old(captureOn) && ctrl.stopN == 3))
    {
      if !captureOn {
        return 0;
      }
      rc := StreamCtrl(false, ctrl);
      if rc < 0 {
        return;
      }
      captureOn, lastLock := false, false;
      return 0;
    }
  }
}
