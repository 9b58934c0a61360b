/** dvb_hotplug/src/dvb_hotplug.c and its consumer, the watch loop of
    tools/dvb_devices.c, as one state machine: a drop-oldest queue of 64 events behind a
    mutex, and a non-blocking pipe that wakes the consumer.

    An enqueuer is two steps: the locked half, and later its write to the pipe it saw
    under the lock, which is lost when the pipe is full. Enqueuers are any number of
    threads; init, watch loop and shutdown belong to the consumer. */
module Hotplug {
  import opened Bytes

  const QUEUE_CAP: nat := 64
  const DRAIN_SZ: nat := 64

  datatype Bridge = Em28xx | Dib0700 | Dvbsky

  datatype Event = Event(arrived: bool, bridge: Bridge, bus: byte, devaddr: byte, vid: nat, pid: nat)

  /** Where the consumer stands. Armed: it has opened a pipe and told the signal handler;
      Head: at the test of g_watch_stop; Poll: in poll(); Drain: emptying the pipe; Pop:
      emptying the queue; Leaving: past the loop. */
  datatype Consumer = Outside | Armed | Registering | Head | Poll | Drain | Pop | Leaving

  /** fd is wake_fd; `mine` names the pipe of the current cycle and `pipe` counts its unread
      bytes; `toWrite` holds the pipes that enqueuers (and the signal handler) still have to
      write to. History: every event ever enqueued, how many there were at the latest init
      reset, and since then the positions popped and the number of events dropped. */
  datatype State = State(
    q: seq<Event>, initialized: bool, fd: Option<nat>,
    mine: nat, pipe: nat, pipeCap: nat, toWrite: multiset<nat>, stop: bool, at: Consumer,
    log: seq<Event>, resetAt: nat, popped: seq<nat>, dropped: nat)

  datatype Step =
    | OpenPipe(newPipe: nat)
    | InitReset
    | InitFails(beforeContext: bool)
    | InitSucceeds
    | Enqueue(ev: Event)
    | Write(pipe: nat)
    | Interrupt
    | TestStop
    | PollReturns
    | PollInterrupted
    | DrainPipe
    | PopQueue
    | Shutdown

  function Init(pipeCap: nat): State {
    State([], false, None, 0, 0, pipeCap, multiset{}, false, Outside, [], 0, [], 0)
  }

  predicate Enabled(s: State, step: Step) {
    match step
    case OpenPipe(_) => s.at.Outside?
    case InitReset => s.at.Armed?
    case InitFails(_) => s.at.Registering?
    case InitSucceeds => s.at.Registering?
    case Enqueue(_) => true
    case Write(p) => p in s.toWrite
    case Interrupt => true
    case TestStop => s.at.Head?
    case PollReturns => s.at.Poll? && 0 < s.pipe
    case PollInterrupted => s.at.Poll?
    case DrainPipe => s.at.Drain?
    case PopQueue => s.at.Pop? && |s.q| <= |s.log|
    case Shutdown => s.at.Leaving?
  }

  function Enq(q: seq<Event>, ev: Event): seq<Event> {
    LastN(q + [ev], QUEUE_CAP)
  }

  function Next(s: State, step: Step): State
    requires Enabled(s, step)
  {
    match step
    case OpenPipe(newPipe) => s.(mine := newPipe, pipe := 0, at := Armed)
    case InitReset =>
      s.(q := [], fd := Some(s.mine), at := Registering, resetAt := |s.log|, popped := [], dropped := 0)
    case InitFails(beforeContext) =>
      s.(at := Outside, fd := if beforeContext then s.fd else None)
    case InitSucceeds => s.(at := Head, initialized := true)
    case Enqueue(ev) =>
      s.(q := Enq(s.q, ev), log := s.log + [ev],
         dropped := s.dropped + |s.q| + 1 - |Enq(s.q, ev)|,
         toWrite := match s.fd { case None => s.toWrite case Some(p) => s.toWrite + multiset{p} })
    case Write(p) =>
      s.(toWrite := s.toWrite - multiset{p},
         pipe := if p == s.mine && s.pipe < s.pipeCap then s.pipe + 1 else s.pipe)
    case Interrupt => s.(stop := true, toWrite := if s.at.Outside? then s.toWrite else s.toWrite + multiset{s.mine})
    case TestStop => s.(at := if s.stop then Leaving else Poll)
    case PollReturns => s.(at := Drain)
    case PollInterrupted => s.(at := Head)
    case DrainPipe =>
      if 0 < s.pipe then s.(pipe := s.pipe - Min(s.pipe, DRAIN_SZ)) else s.(at := Pop)
    case PopQueue =>
      if s.q == [] then s.(at := Head) else s.(q := s.q[1..], popped := s.popped + [|s.log| - |s.q|])
    case Shutdown =>
      s.(at := Outside, initialized := false, fd := None, q := [], dropped := s.dropped + |s.q|)
  }

  predicate Runs(s: State, steps: seq<Step>, s': State)
    decreases |steps|
  {
    if steps == [] then s' == s else Enabled(s, steps[0]) && Runs(Next(s, steps[0]), steps[1..], s')
  }

  /** What enqueuers, their writes and the signal handler do. */
  lemma ProducersDo(s: State, step: Step)
    requires Enabled(s, step) && (step.Enqueue? || step.Write? || step.Interrupt?)
    ensures var t := Next(s, step);
            && t.at == s.at && t.fd == s.fd && t.mine == s.mine && t.initialized == s.initialized
            && match step
               case Enqueue(ev) =>
                 && |t.q| == (if |s.q| < 64 then |s.q| + 1 else 64)
                 && t.q == (s.q + [ev])[|s.q| + 1 - |t.q|..] && t.log == s.log + [ev]
                 && t.toWrite == (if s.fd.Some? then s.toWrite + multiset{s.fd.value} else s.toWrite)
                 && t.stop == s.stop && t.pipe == s.pipe
               case Write(p) =>
                 && t.toWrite == s.toWrite - multiset{p} && t.q == s.q && t.stop == s.stop
                 && t.pipe == if p != s.mine then s.pipe else if s.pipe < s.pipeCap then s.pipe + 1 else s.pipe
               case Interrupt =>
                 && t.stop && t.q == s.q && t.pipe == s.pipe
                 && t.toWrite == if s.at == Outside then s.toWrite else s.toWrite + multiset{s.mine}
               case _ => true
  {
  }

  /** What the consumer does in its loop: it leaves at a stop request, pops only once it has found
      the pipe empty, and goes back to the loop head only once it has found the queue empty. */
  lemma LoopDoes(s: State, step: Step)
    requires Enabled(s, step)
    requires step.TestStop? || step.PollReturns? || step.PollInterrupted? || step.DrainPipe? || step.PopQueue?
    ensures var t := Next(s, step);
            && t.fd == s.fd && t.toWrite == s.toWrite && t.stop == s.stop && t.log == s.log
            && match step
               case TestStop => t == s.(at := if s.stop then Leaving else Poll)
               case PollReturns => t == s.(at := Drain)
               case PollInterrupted => t == s.(at := Head)
               case DrainPipe =>
                 if s.pipe == 0 then t == s.(at := Pop) else t == s.(pipe := if s.pipe < 64 then 0 else s.pipe - 64)
               case PopQueue =>
                 if s.q == [] then t == s.(at := Head) else t.at == Pop && t.q == s.q[1..] && t.pipe == s.pipe
               case _ => true
  {
  }

  /** What opening and closing a cycle does. */
  lemma CyclesDo(s: State, step: Step)
    requires Enabled(s, step)
    requires step.OpenPipe? || step.InitReset? || step.InitFails? || step.InitSucceeds? || step.Shutdown?
    ensures var t := Next(s, step);
            && t.toWrite == s.toWrite && t.stop == s.stop && t.log == s.log
            && match step
               case OpenPipe(newPipe) => t == s.(mine := newPipe, pipe := 0, at := Armed)
               case InitReset => t.at == Registering && t.q == [] && t.fd == Some(s.mine) && t.resetAt == |s.log|
               case InitFails(beforeContext) =>
                 t.at == Outside && t.q == s.q && t.fd == if beforeContext then s.fd else None
               case InitSucceeds => t == s.(at := Head, initialized := true)
               case Shutdown => t.at == Outside && t.q == [] && t.fd == None && !t.initialized
               case _ => true
  {
  }

  // ---- no lost wake-up --------------------------------------------------------

  predicate WakePending(s: State) {
    0 < s.pipe || s.mine in s.toWrite
  }

  /** Before the consumer blocks, whatever it has not yet seen still has a wake-up coming. */
  predicate WakeInv(s: State) {
    && 0 < s.pipeCap
    && (s.at.Registering? || s.at.Head? || s.at.Poll? ==> s.fd == Some(s.mine))
    && (s.at.Drain? || s.at.Pop? ==> s.fd == Some(s.mine))
    && ((s.at.Registering? || s.at.Head? || s.at.Poll?) && s.q != [] ==> WakePending(s))
    && (s.at.Poll? && s.stop ==> WakePending(s))
  }

  // ---- a drop-oldest FIFO across cycles ------------------------------------------

  /** The queue is the tail of what was enqueued since the latest init reset; pops came
      from before that tail, in order, and never from before the reset. */
  ghost predicate Fifo(q: seq<Event>, log: seq<Event>, resetAt: nat, popped: seq<nat>, dropped: nat) {
    && |q| <= QUEUE_CAP && |q| <= |log|
    && q == log[|log| - |q|..]
    && resetAt + |popped| + dropped + |q| == |log|
    && (forall k :: 0 <= k < |popped| ==> resetAt <= popped[k] < |log| - |q|)
    && (forall j, k :: 0 <= j < k < |popped| ==> popped[j] < popped[k])
  }

  ghost predicate FifoInv(s: State) {
    && Fifo(s.q, s.log, s.resetAt, s.popped, s.dropped)
    && (s.at.Outside? || s.at.Armed? || s.at.Registering? <==> !s.initialized)
    && (s.at.Registering? ==> s.popped == [] && s.q == LastN(s.log[s.resetAt..], QUEUE_CAP))
  }

  ghost predicate Inv(s: State) {
    WakeInv(s) && FifoInv(s)
  }

  /** An enqueuer that saw the consumer's pipe owes it a write. */
  lemma EnqueueWakes(s: State, ev: Event)
    requires WakeInv(s)
    ensures WakeInv(Next(s, Enqueue(ev)))
  {
  }

  /** A write is either kept, or lost because the pipe is readable already. */
  lemma WriteWakes(s: State, pipe: nat)
    requires WakeInv(s) && Enabled(s, Write(pipe))
    ensures WakeInv(Next(s, Write(pipe)))
  {
    var s' := Next(s, Write(pipe));
    assert pipe == s.mine ==> 0 < s'.pipe;
    assert pipe != s.mine ==> s'.toWrite[s.mine] == s.toWrite[s.mine];
  }

  lemma InterruptWakes(s: State)
    requires WakeInv(s) && Enabled(s, Interrupt)
    ensures WakeInv(Next(s, Interrupt))
  {
  }

  lemma WakeKept(s: State, step: Step)
    requires WakeInv(s) && Enabled(s, step)
    ensures WakeInv(Next(s, step))
  {
    match step
    case Enqueue(ev) => EnqueueWakes(s, ev);
    case Write(pipe) => WriteWakes(s, pipe);
    case Interrupt => InterruptWakes(s);
    case _ =>
  }

  lemma FifoEnqueue(q: seq<Event>, log: seq<Event>, resetAt: nat, popped: seq<nat>, dropped: nat, ev: Event)
    requires Fifo(q, log, resetAt, popped, dropped)
    ensures |Enq(q, ev)| <= |q| + 1
    ensures Fifo(Enq(q, ev), log + [ev], resetAt, popped, dropped + |q| + 1 - |Enq(q, ev)|)
  {
    var all := log + [ev];
    assert q + [ev] == all[|log| - |q|..];
    assert Enq(q, ev) == all[|all| - |Enq(q, ev)|..];
  }

  lemma EarlyEnqueue(q: seq<Event>, log: seq<Event>, resetAt: nat, ev: Event)
    requires resetAt <= |log| && q == LastN(log[resetAt..], QUEUE_CAP)
    ensures Enq(q, ev) == LastN((log + [ev])[resetAt..], QUEUE_CAP)
  {
    assert (log + [ev])[resetAt..] == log[resetAt..] + [ev];
  }

  lemma EnqueueKeepsFifo(s: State, ev: Event)
    requires FifoInv(s)
    ensures FifoInv(Next(s, Enqueue(ev)))
  {
    FifoEnqueue(s.q, s.log, s.resetAt, s.popped, s.dropped, ev);
    if s.at.Registering? {
      EarlyEnqueue(s.q, s.log, s.resetAt, ev);
    }
  }

  lemma PopKeepsFifo(s: State)
    requires FifoInv(s) && Enabled(s, PopQueue)
    ensures FifoInv(Next(s, PopQueue))
  {
    if s.q != [] {
      assert s.q[1..] == s.log[|s.log| - |s.q| + 1..];
    }
  }

  /** The resets of init and shutdown empty the queue. */
  lemma ResetKeepsFifo(s: State, step: Step)
    requires FifoInv(s) && Enabled(s, step) && (step.InitReset? || step.Shutdown?)
    ensures FifoInv(Next(s, step))
  {
    var s' := Next(s, step);
    assert s'.log[|s'.log|..] == [];
  }

  lemma FifoKept(s: State, step: Step)
    requires FifoInv(s) && Enabled(s, step)
    ensures FifoInv(Next(s, step))
  {
    match step
    case Enqueue(ev) => EnqueueKeepsFifo(s, ev);
    case PopQueue => PopKeepsFifo(s);
    case InitReset => ResetKeepsFifo(s, step);
    case Shutdown => ResetKeepsFifo(s, step);
    case _ =>
  }

  lemma {:induction false} RunKeeps(s: State, steps: seq<Step>, s': State)
    requires Inv(s) && Runs(s, steps, s')
    ensures Inv(s')
    decreases |steps|
  {
    if steps != [] {
      WakeKept(s, steps[0]);
      FifoKept(s, steps[0]);
      RunKeeps(Next(s, steps[0]), steps[1..], s');
    }
  }

  ghost predicate Reachable(s: State) {
    exists pipeCap: nat, steps :: 0 < pipeCap && Runs(Init(pipeCap), steps, s)
  }

  lemma ReachableInv(s: State)
    requires Reachable(s)
    ensures Inv(s)
  {
    var pipeCap: nat, steps :| 0 < pipeCap && Runs(Init(pipeCap), steps, s);
    RunKeeps(Init(pipeCap), steps, s);
  }

  /** In every interleaving: a consumer in poll with events queued, or with a stop request
      it has not seen, has a readable pipe or a write still to come, even though writes to
      a full pipe are lost. */
  lemma NoLostWakeup(s: State)
    requires Reachable(s) && s.at.Poll? && (s.q != [] || s.stop)
    ensures Enabled(s, PollReturns) || (s.mine in s.toWrite && Enabled(Next(s, Write(s.mine)), PollReturns))
  {
    ReachableInv(s);
  }

  /** A stop request is never forgotten: no step clears it, so a consumer at the head of its
      loop leaves. */
  lemma {:induction false} StopIsFinal(s: State, steps: seq<Step>, s': State)
    requires s.stop && Runs(s, steps, s')
    ensures s'.stop && (Enabled(s', TestStop) ==> Next(s', TestStop).at.Leaving?)
    decreases |steps|
  {
    if steps != [] {
      StopIsFinal(Next(s, steps[0]), steps[1..], s');
    }
  }

  /** A consumer that stays blocked with nobody left to write has nothing to do. */
  lemma BlockedMeansIdle(s: State)
    requires Reachable(s) && s.at.Poll? && !Enabled(s, PollReturns) && s.toWrite == multiset{}
    ensures s.q == [] && !s.stop
  {
    ReachableInv(s);
  }

  /** What a pop returns, in any reachable state: the oldest event still queued, enqueued
      after the latest init reset and after everything popped before it. */
  lemma PopsInOrderSinceReset(s: State)
    requires Reachable(s) && s.at.Pop? && s.q != []
    ensures Enabled(s, PopQueue)
    ensures var n := |s.log| - |s.q|;
            && s.resetAt <= n && s.q[0] == s.log[n] && Next(s, PopQueue).popped == s.popped + [n]
            && forall k :: 0 <= k < |s.popped| ==> s.popped[k] < n
  {
    ReachableInv(s);
  }

  /** Events that arrive while init is still registering are kept (the newest 64 of them)
      and can be popped once it has succeeded. */
  lemma EarlyEventsArePoppable(s: State)
    requires Reachable(s) && Enabled(s, InitSucceeds)
    ensures var s' := Next(s, InitSucceeds);
            s'.initialized && s.resetAt <= |s.log| && s'.q == LastN(s.log[s.resetAt..], QUEUE_CAP)
  {
    ReachableInv(s);
  }

  /** Every event since the reset is popped, still queued, or was dropped by overflow or
      shutdown; what is queued are the last of them. */
  lemma QueueIsBoundedFifo(s: State)
    requires Reachable(s)
    ensures |s.q| <= QUEUE_CAP && s.resetAt <= |s.log| - |s.q| && s.q == s.log[|s.log| - |s.q|..]
    ensures |s.log| - s.resetAt == |s.popped| + s.dropped + |s.q|
  {
    ReachableInv(s);
  }
}

/** g_hp of dvb_hotplug.c: the array queue and the flags its mutex protects. */
module HotplugQueue {
  import opened Bytes
  import H = Hotplug

  /** Where the i-th event behind index h is kept. */
  function Slot(h: nat, i: nat): (k: nat)
    ensures k < H.QUEUE_CAP
  {
    (h + i) % H.QUEUE_CAP
  }

  lemma SlotsDiffer(h: nat, u: nat, i: nat)
    requires i < u < H.QUEUE_CAP
    ensures Slot(h, i) != Slot(h, u)
  {
  }

  lemma TailMoves(h: nat, u: nat)
    ensures (Slot(h, u) + 1) % H.QUEUE_CAP == Slot(h, u + 1)
  {
  }

  class HotplugQueue {
    const queue: array<H.Event>
    var qHead: nat
    var qTail: nat
    var qUsed: nat
    var initialized: bool
    var wakeFd: int

    ghost predicate Valid()
      reads this
    {
      && queue.Length == H.QUEUE_CAP
      && qHead < H.QUEUE_CAP && qTail < H.QUEUE_CAP && qUsed <= H.QUEUE_CAP
      && qTail == (qHead + qUsed) % H.QUEUE_CAP
    }

    ghost function Contents(): (s: seq<H.Event>)
      requires Valid()
      reads this, queue
    {
      seq(qUsed, i requires 0 <= i < qUsed && Valid() reads this, queue => queue[Slot(qHead, i)])
    }

    constructor ()
      ensures Valid() && fresh(queue) && Contents() == [] && !initialized && wakeFd == -1
    {
      queue := new H.Event[H.QUEUE_CAP](_ => H.Event(true, H.Em28xx, 0, 0, 0, 0));
      qHead, qTail, qUsed := 0, 0, 0;
      initialized, wakeFd := false, -1;
    }

    method DropOldest()
      requires Valid() && 0 < qUsed
      modifies this`qHead, this`qUsed
      ensures Valid() && Contents() == old(Contents())[1..]
    {
      qHead := (qHead + 1) % H.QUEUE_CAP;
      qUsed := qUsed - 1;
    }

    method Append(ev: H.Event)
      requires Valid() && qUsed < H.QUEUE_CAP
      modifies this`qTail, this`qUsed, queue
      ensures Valid() && Contents() == old(Contents()) + [ev]
    {
      ghost var (h, u, was) := (qHead, qUsed, queue[..]);
      forall i | 0 <= i < u ensures Slot(h, i) != Slot(h, u) {
        SlotsDiffer(h, u, i);
      }
      queue[qTail] := ev;
      qTail := (qTail + 1) % H.QUEUE_CAP;
      qUsed := qUsed + 1;
      TailMoves(h, u);
      assert forall i :: 0 <= i < u ==> queue[Slot(h, i)] == was[Slot(h, i)];
    }

    /** The locked half of enqueue_and_wake; answers the descriptor to write to. */
    method Enqueue(ev: H.Event) returns (fd: int)
      requires Valid()
      modifies this`qHead, this`qTail, this`qUsed, queue
      ensures Valid() && Contents() == H.Enq(old(Contents()), ev) && fd == wakeFd
      ensures |Contents()| == if |old(Contents())| < 64 then |old(Contents())| + 1 else 64
      ensures Contents() == (old(Contents()) + [ev])[|old(Contents())| + 1 - |Contents()|..]
    {
      ghost var before := Contents();
      if qUsed == H.QUEUE_CAP {
        DropOldest();
        assert (before + [ev])[1..] == before[1..] + [ev];
      }
      Append(ev);
      fd := wakeFd;
    }

    /** dvb_hotplug_pop: 1 with the oldest event, 0 when empty, -EINVAL before init. */
    method Pop() returns (rc: int, out: Option<H.Event>)
      requires Valid()
      modifies this`qHead, this`qUsed
      ensures Valid()
      ensures if !initialized then rc == -EINVAL && out == None && Contents() == old(Contents())
              else if old(Contents()) == [] then rc == 0 && out == None && Contents() == []
              else rc == 1 && out == Some(old(Contents())[0]) && Contents() == old(Contents())[1..]
    {
      if !initialized {
        return -EINVAL, None;
      }
      if qUsed == 0 {
        return 0, None;
      }
      out := Some(queue[qHead]);
      assert Contents()[0] == queue[qHead];
      DropOldest();
      rc := 1;
    }

    /** The first locked section of dvb_hotplug_init. */
    method BeginInit(fd: int) returns (rc: int)
      requires Valid()
      modifies this`qHead, this`qTail, this`qUsed, this`wakeFd
      ensures Valid()
      ensures if fd < 0 then rc == -EINVAL else if initialized then rc == -EBUSY else rc == 0
      ensures if rc == 0 then Contents() == [] && wakeFd == fd
              else Contents() == old(Contents()) && wakeFd == old(wakeFd)
    {
      if fd < 0 {
        return -EINVAL;
      }
      if initialized {
        return -EBUSY;
      }
      qHead, qTail, qUsed := 0, 0, 0;
      wakeFd := fd;
      return 0;
    }

    /** The locked section of dvb_hotplug_shutdown; answers whether there was anything to
        shut down. */
    method BeginShutdown() returns (was: bool)
      requires Valid()
      modifies this`qHead, this`qTail, this`qUsed, this`wakeFd, this`initialized
      ensures Valid() && was == old(initialized) && !initialized
      ensures if was then Contents() == [] && wakeFd == -1
              else Contents() == old(Contents()) && wakeFd == old(wakeFd)
    {
      if !initialized {
        return false;
      }
      initialized, wakeFd := false, -1;
      qHead, qTail, qUsed := 0, 0, 0;
      return true;
    }
  }
}
