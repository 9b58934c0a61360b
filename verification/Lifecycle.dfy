/** The two reference counts of usbq/src/usbq.c (libusb context, event thread) and who
    holds them: open streams, the hotplug module, and the engines that call usbq_init and
    usbq_shutdown on their own account. Calls do not overlap in time. */
module Lifecycle {
  import opened Bytes

  /** A count and whether the thing counted (context, thread) exists. */
  datatype Ref = Ref(count: nat, live: bool)

  /** usbq_init and usbq_evt_acquire: the first holder creates, which may fail. */
  function Acquire(r: Ref, canCreate: bool): (Ref, bool) {
    if r.count == 0 && !canCreate then (r, false) else (Ref(r.count + 1, r.live || r.count == 0), true)
  }

  /** usbq_shutdown and usbq_evt_release: the last holder destroys. */
  function Release(r: Ref): Ref {
    if r.count == 0 then r else Ref(r.count - 1, r.live && r.count != 1)
  }

  predicate Consistent(r: Ref) {
    r.live <==> 0 < r.count
  }

  /** init .. hpEvt are the C globals; streams and others are history: streams open, and
      usbq_init calls by others not yet matched by their usbq_shutdown. */
  datatype Res = Res(init: Ref, evt: Ref, hp: bool, hpEvt: bool, streams: nat, others: nat)

  const START := Res(Ref(0, false), Ref(0, false), false, false, 0, 0)

  /** How far an opening call gets. */
  datatype OpenOutcome = NoMemory | NoThread | SubmitRefused | Opened
  datatype HotplugOutcome =
    | NoContext
    | NoCapability
    | NoEventThread(threadRc: Errno)
    | NotRegistered(libusbRc: Errno)
    | Registered

  /** What usbq_evt_acquire and libusb answer when they fail. */
  type Errno = x: int | x < 0 witness -99

  datatype Op =
    | EngineInit(libusbOk: bool)
    | EngineShutdown
    | StreamOpen(outcome: OpenOutcome)
    | StreamClose
    | HotplugInit(hpOutcome: HotplugOutcome)
    | HotplugShutdown

  function Open(r: Res, outcome: OpenOutcome): Res {
    if outcome.NoMemory? then r
    else
      var (evt, ok) := Acquire(r.evt, !outcome.NoThread?);
      if !ok then r.(evt := evt)
      else if outcome.SubmitRefused? then r.(evt := Release(evt))
      else r.(evt := evt, streams := r.streams + 1)
  }

  /** dvb_hotplug_init from usbq_evt_acquire on, and whether it succeeds. */
  function HpTakeThread(r: Res, outcome: HotplugOutcome): (Res, bool) {
    var (evt, ok) := Acquire(r.evt, !outcome.NoEventThread?);
    if !ok then (r.(evt := evt), false)
    else if outcome.NotRegistered? then (r.(evt := Release(evt)), false)
    else (r.(evt := evt, hp := true, hpEvt := true), true)
  }

  function HpInit(r: Res, outcome: HotplugOutcome): Res {
    if r.hp then r
    else
      var (init, ok) := Acquire(r.init, !outcome.NoContext?);
      if !ok then r.(init := init)
      else if outcome.NoCapability? then r.(init := Release(init))
      else
        var (r1, registered) := HpTakeThread(r.(init := init), outcome);
        if registered then r1 else r1.(init := Release(init))
  }

  function HpShutdown(r: Res): Res {
    if !r.hp then r
    else r.(init := Release(r.init), evt := if r.hpEvt then Release(r.evt) else r.evt, hp := false, hpEvt := false)
  }

  predicate Enabled(r: Res, op: Op) {
    match op
    case EngineShutdown => 0 < r.others
    case StreamClose => 0 < r.streams
    case _ => true
  }

  function Step(r: Res, op: Op): Res
    requires Enabled(r, op)
  {
    match op
    case EngineInit(libusbOk) =>
      var (init, ok) := Acquire(r.init, libusbOk);
      r.(init := init, others := if ok then r.others + 1 else r.others)
    case EngineShutdown => r.(init := Release(r.init), others := r.others - 1)
    case StreamOpen(outcome) => Open(r, outcome)
    case StreamClose => r.(evt := Release(r.evt), streams := r.streams - 1)
    case HotplugInit(outcome) => HpInit(r, outcome)
    case HotplugShutdown => HpShutdown(r)
  }

  // ---- balance -------------------------------------------------------------------

  predicate Balanced(r: Res) {
    && Consistent(r.evt) && r.evt.count == r.streams + (if r.hp then 1 else 0)
    && Consistent(r.init) && r.init.count == r.others + (if r.hp then 1 else 0)
    && r.hpEvt == r.hp
  }

  predicate Runs(r: Res, ops: seq<Op>, r': Res)
    decreases |ops|
  {
    if ops == [] then r' == r else Enabled(r, ops[0]) && Runs(Step(r, ops[0]), ops[1..], r')
  }

  /** On a consistent count, acquiring either fails and changes nothing or adds one holder,
      and releasing undoes it. */
  lemma AcquireRelease(r: Ref, canCreate: bool)
    requires Consistent(r)
    ensures Acquire(r, canCreate) == (r, false) || Acquire(r, canCreate) == (Ref(r.count + 1, true), true)
    ensures Release(Ref(r.count + 1, true)) == r
    ensures Acquire(r, canCreate).1 <==> canCreate || r.live
    ensures r.live ==> Release(r) == Ref(r.count - 1, 1 < r.count)
  {
  }

  /** What a successful dvb_hotplug_init adds. */
  function WithHotplug(r: Res): Res {
    r.(init := Ref(r.init.count + 1, true), evt := Ref(r.evt.count + 1, true), hp := true, hpEvt := true)
  }

  lemma TakeThreadAllOrNothing(r: Res, outcome: HotplugOutcome)
    requires Consistent(r.evt)
    ensures var (r1, ok) := HpTakeThread(r, outcome);
            r1 == if ok then r.(evt := Ref(r.evt.count + 1, true), hp := true, hpEvt := true) else r
  {
    AcquireRelease(r.evt, !outcome.NoEventThread?);
  }

  /** Every failing exit of dvb_hotplug_init puts back what it had taken. */
  lemma HotplugInitAllOrNothing(r: Res, outcome: HotplugOutcome)
    requires Consistent(r.init) && Consistent(r.evt)
    ensures HpInit(r, outcome) == r || (!r.hp && HpInit(r, outcome) == WithHotplug(r))
    ensures HpInit(r, outcome) == WithHotplug(r) <==>
              && !r.hp && outcome != NoCapability && !outcome.NotRegistered?
              && (outcome == NoContext ==> r.init.live) && (outcome.NoEventThread? ==> r.evt.live)
  {
    AcquireRelease(r.init, !outcome.NoContext?);
    TakeThreadAllOrNothing(r.(init := Ref(r.init.count + 1, true)), outcome);
  }

  /** So does every failing exit of usbq_stream_open. */
  lemma StreamOpenAllOrNothing(r: Res, outcome: OpenOutcome)
    requires Consistent(r.evt)
    ensures Open(r, outcome) == r || Open(r, outcome) == r.(evt := Ref(r.evt.count + 1, true), streams := r.streams + 1)
    ensures Open(r, outcome).streams == r.streams + 1 <==> outcome == Opened || (outcome == NoThread && r.evt.live)
  {
    AcquireRelease(r.evt, !outcome.NoThread?);
  }

  /** Engines and streams come and go one at a time. */
  lemma HoldersCount(r: Res, op: Op)
    requires Balanced(r) && Enabled(r, op)
    ensures var t := Step(r, op);
            && (op.EngineInit? ==> t.others == if op.libusbOk || r.init.live then r.others + 1 else r.others)
            && (op.EngineShutdown? ==> t.others == r.others - 1)
            && (op.StreamClose? ==> t.streams == r.streams - 1)
            && (!op.HotplugInit? && !op.HotplugShutdown? ==> t.hp == r.hp)
            && (!op.StreamOpen? && !op.StreamClose? ==> t.streams == r.streams)
            && (!op.EngineInit? && !op.EngineShutdown? ==> t.others == r.others)
  {
  }

  /** A shutdown undoes an init, and without one changes nothing. */
  lemma ShutdownUndoesInit(r: Res)
    requires Balanced(r)
    ensures if r.hp then
              HpShutdown(r) == r.(init := Ref(r.init.count - 1, 1 < r.init.count),
                                  evt := Ref(r.evt.count - 1, 1 < r.evt.count), hp := false, hpEvt := false)
            else HpShutdown(r) == r && HpShutdown(WithHotplug(r)) == r
  {
    if !r.hp {
      AcquireRelease(r.init, true);
      AcquireRelease(r.evt, true);
    }
  }

  lemma WithHotplugBalanced(r: Res)
    requires Balanced(r) && !r.hp
    ensures Balanced(WithHotplug(r))
  {
  }

  lemma HotplugInitBalanced(r: Res, outcome: HotplugOutcome)
    requires Balanced(r)
    ensures Balanced(HpInit(r, outcome))
  {
    HotplugInitAllOrNothing(r, outcome);
    if !r.hp {
      WithHotplugBalanced(r);
    }
  }

  lemma StreamOpenBalanced(r: Res, outcome: OpenOutcome)
    requires Balanced(r)
    ensures Balanced(Open(r, outcome))
  {
    StreamOpenAllOrNothing(r, outcome);
  }

  lemma StepBalanced(r: Res, op: Op)
    requires Balanced(r) && Enabled(r, op)
    ensures Balanced(Step(r, op))
  {
    match op
    case HotplugInit(outcome) => HotplugInitBalanced(r, outcome);
    case StreamOpen(outcome) => StreamOpenBalanced(r, outcome);
    case _ =>
  }

  /** Over every sequence of calls and every failing exit: the event thread runs exactly
      while a stream or the hotplug module needs it, and the libusb context lives exactly
      while somebody holds it, hotplug's share being one reference while initialized. */
  lemma {:induction false} AlwaysBalanced(ops: seq<Op>, r: Res, r': Res)
    requires Balanced(r) && Runs(r, ops, r')
    ensures Balanced(r')
    decreases |ops|
  {
    if ops != [] {
      StepBalanced(r, ops[0]);
      AlwaysBalanced(ops[1..], Step(r, ops[0]), r');
    }
  }
}

/** The same functions on the C globals, updated in place. */
module LifecycleRuntime {
  import opened Bytes
  import L = Lifecycle

  class Runtime {
    var initRefcount: nat
    var ctxLive: bool
    var evtRefcount: nat
    var evtAlive: bool
    var hpInitialized: bool
    var hpAcquiredEvt: bool
    ghost var streams: nat
    ghost var others: nat

    ghost function State(): L.Res
      reads this
    {
      L.Res(L.Ref(initRefcount, ctxLive), L.Ref(evtRefcount, evtAlive), hpInitialized, hpAcquiredEvt, streams, others)
    }

    constructor ()
      ensures State() == L.START
    {
      initRefcount, ctxLive, evtRefcount, evtAlive := 0, false, 0, false;
      hpInitialized, hpAcquiredEvt, streams, others := false, false, 0, 0;
    }

    method UsbqInit(libusbOk: bool) returns (ok: bool)
      modifies this`initRefcount, this`ctxLive
      ensures (L.Ref(initRefcount, ctxLive), ok) == L.Acquire(old(L.Ref(initRefcount, ctxLive)), libusbOk)
    {
      if initRefcount == 0 {
        if !libusbOk {
          return false;
        }
        ctxLive := true;
      }
      initRefcount := initRefcount + 1;
      return true;
    }

    method UsbqShutdown()
      modifies this`initRefcount, this`ctxLive
      ensures L.Ref(initRefcount, ctxLive) == L.Release(old(L.Ref(initRefcount, ctxLive)))
    {
      if initRefcount == 0 {
        return;
      }
      initRefcount := initRefcount - 1;
      if initRefcount == 0 && ctxLive {
        ctxLive := false;
      }
    }

    method EvtAcquire(threadOk: bool) returns (ok: bool)
      modifies this`evtRefcount, this`evtAlive
      ensures (L.Ref(evtRefcount, evtAlive), ok) == L.Acquire(old(L.Ref(evtRefcount, evtAlive)), threadOk)
    {
      evtRefcount := evtRefcount + 1;
      if evtRefcount == 1 {
        if !threadOk {
          evtRefcount := 0;
          return false;
        }
        evtAlive := true;
      }
      return true;
    }

    method EvtRelease()
      modifies this`evtRefcount, this`evtAlive
      ensures L.Ref(evtRefcount, evtAlive) == L.Release(old(L.Ref(evtRefcount, evtAlive)))
    {
      if evtRefcount > 0 {
        evtRefcount := evtRefcount - 1;
        if evtRefcount == 0 && evtAlive {
          evtAlive := false;
        }
      }
    }

    /** The resource side of usbq_stream_open. */
    method StreamOpen(outcome: L.OpenOutcome) returns (ok: bool)
      modifies this
      ensures State() == L.Open(old(State()), outcome)
      ensures ok == (streams == old(streams) + 1)
    {
      if outcome.NoMemory? {
        return false;
      }
      ok := EvtAcquire(!outcome.NoThread?);
      if !ok {
        return;
      }
      if outcome.SubmitRefused? {
        EvtRelease();
        return false;
      }
      streams := streams + 1;
    }

    /** The resource side of usbq_stream_close. */
    method StreamClose()
      requires 0 < streams
      modifies this
      ensures State() == L.Step(old(State()), L.StreamClose)
      ensures streams == old(streams) - 1 && evtRefcount == if old(evtRefcount) == 0 then 0 else old(evtRefcount) - 1
    {
      EvtRelease();
      streams := streams - 1;
    }

    /** dvb_hotplug_init. */
    method HotplugInit(wakeFd: int, outcome: L.HotplugOutcome) returns (rc: int)
      modifies this
      ensures State() == if wakeFd < 0 then old(State()) else L.HpInit(old(State()), outcome)
      ensures rc == 0 <==> !old(hpInitialized) && hpInitialized
      ensures rc == if wakeFd < 0 then -EINVAL
                    else if old(hpInitialized) then -EBUSY
                    else if outcome.NoContext? && old(initRefcount) == 0 then -EIO
                    else if outcome.NoCapability? then -ENOTSUP
                    else if outcome.NoEventThread? && old(evtRefcount) == 0 then outcome.threadRc
                    else if outcome.NotRegistered? then outcome.libusbRc
                    else 0
    {
      if wakeFd < 0 {
        return -EINVAL;
      }
      if hpInitialized {
        return -EBUSY;
      }
      var ok := UsbqInit(!outcome.NoContext?);
      if !ok {
        return -EIO;
      }
      if outcome.NoCapability? {
        UsbqShutdown();
        return -ENOTSUP;
      }
      ok := EvtAcquire(!outcome.NoEventThread?);
      if !ok {
        UsbqShutdown();
        return outcome.threadRc;
      }
      if outcome.NotRegistered? {
        EvtRelease();
        UsbqShutdown();
        return outcome.libusbRc;
      }
      hpInitialized := true;
      hpAcquiredEvt := true;
      return 0;
    }

    /** dvb_hotplug_shutdown. */
    method HotplugShutdown()
      modifies this
      ensures State() == L.HpShutdown(old(State()))
    {
      if !hpInitialized {
        return;
      }
      var acquired := hpAcquiredEvt;
      hpInitialized := false;
      hpAcquiredEvt := false;
      if acquired {
        EvtRelease();
      }
      UsbqShutdown();
    }
  }
}
