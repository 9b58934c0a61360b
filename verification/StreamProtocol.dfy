/** The open / close / restart protocol of usbq/src/usbq.c as a state machine.

    One state holds the URB pool, the stream's ring (with its history) and the
    program counter of the thread that owns the stream. The other participants
    are the libusb event thread, which delivers callbacks, and the reader.

    libusb is modelled by the state of each transfer: a submit is refused unless
    the transfer is idle and may be refused even then; a cancel is accepted only
    when the transfer is in flight, and an accepted cancel is followed by exactly
    one CANCELLED callback. A callback body is one step, and so is each cancel
    loop, which runs under the stream mutex that every callback takes. */
module StreamProtocol {
  import opened Bytes
  import R = Ring

  datatype Xfer = Idle | InFlight | Cancelling

  datatype Urb = Urb(marked: bool, xfer: Xfer)

  datatype Pool = Pool(urbs: seq<Urb>, pending: int, stopping: bool)

  /** libusb_transfer_status as far as the callback tells the values apart. */
  datatype Status = Completed | TimedOut | Cancelled | Failed

  // ---- what the C functions do to the pool --------------------------------

  function SetXfer(p: Pool, i: nat, x: Xfer): Pool
    requires i < |p.urbs|
  {
    p.(urbs := p.urbs[i := p.urbs[i].(xfer := x)])
  }

  /** libusb_submit_transfer: `willing` is libusb's own verdict. */
  function Submit(p: Pool, i: nat, willing: bool): (r: (Pool, bool))
    requires i < |p.urbs|
  {
    if willing && p.urbs[i].xfer.Idle? then (SetXfer(p, i, InFlight), true) else (p, false)
  }

  /** One iteration of the cancel loops in open, close and restart. */
  function CancelOne(p: Pool, i: nat): Pool
    requires i < |p.urbs|
  {
    if p.urbs[i].marked then p
    else if p.urbs[i].xfer.InFlight? then
      p.(urbs := p.urbs[i := Urb(true, Cancelling)], pending := p.pending + 1)
    else
      p.(urbs := p.urbs[i := Urb(true, p.urbs[i].xfer)])
  }

  function CancelFirst(p: Pool, n: nat): (r: Pool)
    requires n <= |p.urbs|
    ensures |r.urbs| == |p.urbs| && r.stopping == p.stopping
  {
    if n == 0 then p else CancelOne(CancelFirst(p, n - 1), n - 1)
  }

  function Unmark(p: Pool): Pool {
    p.(urbs := seq(|p.urbs|, j requires 0 <= j < |p.urbs| => p.urbs[j].(marked := false)))
  }

  predicate Pushes(p: Pool, status: Status, data: seq<byte>) {
    (status.Completed? || status.TimedOut?) && data != [] && !p.stopping
  }

  /** stream_xfer_cb on transfer i, apart from the push into the ring. */
  function Callback(p: Pool, i: nat, status: Status, willing: bool): Pool
    requires i < |p.urbs|
  {
    var p0 := SetXfer(p, i, Idle);
    if status.Cancelled? then p0.(pending := if p.pending - 1 <= 0 then 0 else p.pending - 1)
    else if p.stopping || p.urbs[i].marked then p0
    else
      var (p1, accepted) := Submit(p0, i, willing);
      if accepted then p1 else p1.(stopping := true)
  }

  // ---- the machine ----------------------------------------------------------

  /** Where the owning thread stands. Opening(n) and Resubmitting(n): about to
      submit transfer n. OpenFailed and Closed: the pool has been freed. */
  datatype Owner =
    | Opening(next: nat)
    | OpenWait
    | OpenFailed
    | Ready
    | CloseWait
    | Closed
    | RestartWait
    | Resubmitting(next: nat)

  datatype State = State(pool: Pool, hist: R.Hist, owner: Owner)

  datatype Step =
    | SubmitNext(willing: bool)
    | WaitOver
    | StartClose
    | StartRestart
    | Deliver(i: nat, status: Status, data: seq<byte>, willing: bool)
    | ReadRing(want: nat)
    | FlushRing

  predicate Waiting(o: Owner) {
    o.OpenWait? || o.CloseWait? || o.RestartWait?
  }

  predicate Freed(o: Owner) {
    o.OpenFailed? || o.Closed?
  }

  /** The caller holds a stream it may read and flush. */
  predicate Usable(o: Owner) {
    o.Ready? || o.RestartWait? || o.Resubmitting?
  }

  function Init(depth: nat, cap: nat): State {
    State(Pool(seq(depth, _ => Urb(false, Idle)), 0, false), R.Init(cap), Opening(0))
  }

  predicate Enabled(s: State, step: Step) {
    match step
    case SubmitNext(_) => (s.owner.Opening? || s.owner.Resubmitting?) && s.owner.next < |s.pool.urbs|
    case WaitOver => Waiting(s.owner) && s.pool.pending <= 0
    case StartClose => s.owner.Ready?
    case StartRestart => s.owner.Ready?
    case Deliver(i, status, _, _) =>
      i < |s.pool.urbs| && s.pool.urbs[i].xfer == (if status.Cancelled? then Cancelling else InFlight)
    case ReadRing(_) => Usable(s.owner) && |s.hist.ring.q| <= |s.hist.pushed|
    case FlushRing => Usable(s.owner)
  }

  function Advance(o: Owner, depth: nat): Owner
    requires o.Opening? || o.Resubmitting?
  {
    if o.next + 1 >= depth then Ready else if o.Opening? then Opening(o.next + 1) else Resubmitting(o.next + 1)
  }

  function Next(s: State, step: Step): State
    requires Enabled(s, step)
  {
    var p := s.pool;
    match step
    case SubmitNext(willing) =>
      var (p1, accepted) := Submit(p, s.owner.next, willing);
      if accepted then s.(pool := p1, owner := Advance(s.owner, |p.urbs|))
      else if s.owner.Opening? then
        s.(pool := CancelFirst(p.(stopping := true), s.owner.next), owner := OpenWait)
      else s.(pool := p.(stopping := true), owner := Ready)
    case WaitOver =>
      if s.owner.OpenWait? then s.(owner := OpenFailed)
      else if s.owner.CloseWait? then s.(owner := Closed)
      else s.(pool := Unmark(p), owner := Resubmitting(0))
    case StartClose => s.(pool := CancelFirst(p.(stopping := true), |p.urbs|), owner := CloseWait)
    case StartRestart =>
      if p.stopping then s else s.(pool := CancelFirst(p, |p.urbs|), owner := RestartWait)
    case Deliver(i, status, data, willing) =>
      s.(pool := Callback(p, i, status, willing),
         hist := if Pushes(p, status, data) then R.HPush(s.hist, data) else s.hist)
    case ReadRing(want) => s.(hist := R.HRead(s.hist, p.stopping, want))
    case FlushRing => s.(hist := R.HFlush(s.hist))
  }

  /** What a callback does to transfer i and to the flags: nothing else changes. */
  lemma CallbackIs(p: Pool, i: nat, status: Status, willing: bool)
    requires i < |p.urbs|
    ensures var (q, u) := (Callback(p, i, status, willing), p.urbs[i]);
            if status == Cancelled then
              q == Pool(p.urbs[i := u.(xfer := Idle)], if p.pending <= 1 then 0 else p.pending - 1, p.stopping)
            else if p.stopping || u.marked then q == p.(urbs := p.urbs[i := u.(xfer := Idle)])
            else if willing then q == p.(urbs := p.urbs[i := u.(xfer := InFlight)])
            else q == Pool(p.urbs[i := u.(xfer := Idle)], p.pending, true)
  {
    assert p.urbs[i := p.urbs[i].(xfer := Idle)][i := p.urbs[i].(xfer := InFlight)]
           == p.urbs[i := p.urbs[i].(xfer := InFlight)];
  }

  /** The bytes of a transfer that completed or timed out enter the ring of a stream that is not
      stopping; those of any other do not. */
  lemma DeliverPushes(s: State, i: nat, status: Status, data: seq<byte>, willing: bool)
    requires Enabled(s, Deliver(i, status, data, willing))
    ensures var t := Next(s, Deliver(i, status, data, willing));
            if (status == Completed || status == TimedOut) && !s.pool.stopping then
              && t.hist.pushed == s.hist.pushed + data && t.hist.delivered == s.hist.delivered
              && (R.Valid(s.hist.ring) ==> t.hist.ring == R.Push(s.hist.ring, data))
            else t.hist == s.hist
  {
    if data == [] && R.Valid(s.hist.ring) {
      R.PushNothing(s.hist.ring);
    }
  }

  /** steps is a run of the machine from s to s'. */
  predicate Runs(s: State, steps: seq<Step>, s': State)
    decreases |steps|
  {
    if steps == [] then s' == s else Enabled(s, steps[0]) && Runs(Next(s, steps[0]), steps[1..], s')
  }

  // ---- counting -------------------------------------------------------------

  /** Accepted cancels whose callback has not been delivered. */
  function Outstanding(urbs: seq<Urb>): nat {
    if urbs == [] then 0
    else Outstanding(urbs[..|urbs| - 1]) + (if urbs[|urbs| - 1].xfer.Cancelling? then 1 else 0)
  }

  /** Transfers libusb still owns. */
  function Live(urbs: seq<Urb>): nat {
    if urbs == [] then 0
    else Live(urbs[..|urbs| - 1]) + (if urbs[|urbs| - 1].xfer.Idle? then 0 else 1)
  }

  lemma {:induction false} CountsUpdate(urbs: seq<Urb>, i: nat, u: Urb)
    requires i < |urbs|
    ensures Outstanding(urbs[i := u]) ==
            Outstanding(urbs) + (if u.xfer.Cancelling? then 1 else 0) - (if urbs[i].xfer.Cancelling? then 1 else 0)
    ensures Live(urbs[i := u]) ==
            Live(urbs) + (if u.xfer.Idle? then 0 else 1) - (if urbs[i].xfer.Idle? then 0 else 1)
    decreases |urbs|
  {
    var n := |urbs| - 1;
    if i == n {
      assert urbs[i := u][..n] == urbs[..n];
    } else {
      assert urbs[i := u][..n] == urbs[..n][i := u];
      CountsUpdate(urbs[..n], i, u);
    }
  }

  lemma {:induction false} OutstandingZero(urbs: seq<Urb>)
    ensures Outstanding(urbs) == 0 <==> forall j :: 0 <= j < |urbs| ==> !urbs[j].xfer.Cancelling?
    decreases |urbs|
  {
    if urbs != [] {
      var n := |urbs| - 1;
      OutstandingZero(urbs[..n]);
      assert forall j :: 0 <= j < n ==> urbs[..n][j] == urbs[j];
      assert urbs[n] in urbs;
    }
  }

  /** Which transfers a cancel loop has touched after n iterations, and how. */
  lemma {:induction false} CancelFirstAt(p: Pool, n: nat, j: nat)
    requires n <= |p.urbs| && j < |p.urbs|
    ensures var r := CancelFirst(p, n);
            r.urbs[j] == if n <= j || p.urbs[j].marked then p.urbs[j]
                         else Urb(true, if p.urbs[j].xfer.InFlight? then Cancelling else p.urbs[j].xfer)
    decreases n
  {
    if 0 < n {
      CancelFirstAt(p, n - 1, j);
    }
  }

  /** How far pending_cancel is ahead of the callbacks still to come. */
  function Ahead(p: Pool): int {
    p.pending - Outstanding(p.urbs)
  }

  lemma CancelOneCounts(p: Pool, i: nat)
    requires i < |p.urbs|
    ensures Ahead(CancelOne(p, i)) == Ahead(p)
  {
    if !p.urbs[i].marked {
      CountsUpdate(p.urbs, i, CancelOne(p, i).urbs[i]);
    }
  }

  /** Why trusting the return value of libusb_cancel_transfer keeps pending_cancel exact. */
  lemma {:induction false} CancelFirstCounts(p: Pool, n: nat)
    requires n <= |p.urbs|
    ensures Ahead(CancelFirst(p, n)) == Ahead(p)
    decreases n
  {
    if 0 < n {
      var q := CancelFirst(p, n - 1);
      assert CancelFirst(p, n) == CancelOne(q, n - 1);
      CancelFirstCounts(p, n - 1);
      CancelOneCounts(q, n - 1);
    }
  }

  lemma CancelFirstEffect(p: Pool, n: nat)
    requires n <= |p.urbs|
    ensures var r := CancelFirst(p, n);
            && Ahead(r) == Ahead(p)
            && (forall j :: 0 <= j < n && !p.urbs[j].marked ==>
                r.urbs[j] == Urb(true, if p.urbs[j].xfer.InFlight? then Cancelling else p.urbs[j].xfer))
            && (forall j :: 0 <= j < |p.urbs| && (n <= j || p.urbs[j].marked) ==> r.urbs[j] == p.urbs[j])
  {
    CancelFirstCounts(p, n);
    forall j | 0 <= j < |p.urbs| ensures CancelFirst(p, n).urbs[j] ==
        if n <= j || p.urbs[j].marked then p.urbs[j]
        else Urb(true, if p.urbs[j].xfer.InFlight? then Cancelling else p.urbs[j].xfer) {
      CancelFirstAt(p, n, j);
    }
  }

  // ---- the invariant --------------------------------------------------------

  /** Transfers below n have been submitted (and are in flight unless the stream is
      dying), those from n on are idle, and no cancel is under way. */
  predicate Filled(p: Pool, n: nat) {
    forall j :: 0 <= j < |p.urbs| ==>
      && !p.urbs[j].marked
      && !p.urbs[j].xfer.Cancelling?
      && (n <= j ==> p.urbs[j].xfer.Idle?)
      && (j < n && !p.stopping ==> p.urbs[j].xfer.InFlight?)
  }

  predicate Drained(p: Pool) {
    forall j :: 0 <= j < |p.urbs| ==> !p.urbs[j].xfer.InFlight?
  }

  predicate AllIdle(p: Pool) {
    forall j :: 0 <= j < |p.urbs| ==> p.urbs[j].xfer.Idle?
  }

  predicate OwnerInv(p: Pool, o: Owner) {
    match o
    case Opening(n) => n < |p.urbs| && Filled(p, n)
    case Resubmitting(n) => n < |p.urbs| && Filled(p, n)
    case Ready => Filled(p, |p.urbs|)
    case OpenWait => p.stopping && Drained(p)
    case CloseWait => p.stopping && Drained(p)
    case RestartWait => !p.stopping && Drained(p)
    case OpenFailed => p.stopping && AllIdle(p)
    case Closed => p.stopping && AllIdle(p)
  }

  ghost predicate Inv(s: State) {
    && 0 < |s.pool.urbs|
    && s.pool.pending == Outstanding(s.pool.urbs)
    && R.Inv(s.hist)
    && OwnerInv(s.pool, s.owner)
  }

  lemma FreshPool(p: Pool)
    requires p.urbs != [] && p.pending == 0
    requires forall j :: 0 <= j < |p.urbs| ==> p.urbs[j] == Urb(false, Idle)
    ensures p.pending == Outstanding(p.urbs) && OwnerInv(p, Opening(0))
  {
    OutstandingZero(p.urbs);
  }

  lemma InitInv(depth: nat, cap: nat)
    requires 0 < depth && 0 < cap
    ensures Inv(Init(depth, cap))
  {
    FreshPool(Init(depth, cap).pool);
    R.InitInv(cap);
  }

  lemma SubmitNextKeeps(s: State, willing: bool)
    requires Inv(s) && Enabled(s, SubmitNext(willing))
    ensures Inv(Next(s, SubmitNext(willing)))
  {
    var (p, n) := (s.pool, s.owner.next);
    if willing {
      CountsUpdate(p.urbs, n, p.urbs[n].(xfer := InFlight));
    } else if s.owner.Opening? {
      CancelFirstEffect(p.(stopping := true), n);
    }
  }

  lemma DeliverCancelledKeeps(s: State, i: nat, willing: bool)
    requires Inv(s) && i < |s.pool.urbs| && s.pool.urbs[i].xfer.Cancelling?
    ensures var p := Callback(s.pool, i, Cancelled, willing);
            p.pending == Outstanding(p.urbs) && OwnerInv(p, s.owner)
  {
    CountsUpdate(s.pool.urbs, i, s.pool.urbs[i].(xfer := Idle));
  }

  lemma DeliverDoneKeeps(s: State, i: nat, status: Status, willing: bool)
    requires Inv(s) && i < |s.pool.urbs| && s.pool.urbs[i].xfer.InFlight? && !status.Cancelled?
    ensures var p := Callback(s.pool, i, status, willing);
            p.pending == Outstanding(p.urbs) && OwnerInv(p, s.owner)
  {
    var p0 := SetXfer(s.pool, i, Idle);
    CountsUpdate(s.pool.urbs, i, p0.urbs[i]);
    CountsUpdate(p0.urbs, i, p0.urbs[i].(xfer := InFlight));
  }

  lemma DeliverKeeps(s: State, step: Step)
    requires Inv(s) && step.Deliver? && Enabled(s, step)
    ensures Inv(Next(s, step))
  {
    if step.status.Cancelled? {
      DeliverCancelledKeeps(s, step.i, step.willing);
    } else {
      DeliverDoneKeeps(s, step.i, step.status, step.willing);
      R.PushKeeps(s.hist, step.data);
    }
  }

  lemma StepKeeps(s: State, step: Step)
    requires Inv(s) && Enabled(s, step)
    ensures Inv(Next(s, step))
  {
    var p := s.pool;
    match step
    case SubmitNext(willing) => SubmitNextKeeps(s, willing);
    case WaitOver =>
      OutstandingZero(p.urbs);
      OutstandingZero(Unmark(p).urbs);
    case StartClose => CancelFirstEffect(p.(stopping := true), |p.urbs|);
    case StartRestart => CancelFirstEffect(p, |p.urbs|);
    case Deliver(_, _, _, _) => DeliverKeeps(s, step);
    case ReadRing(want) => R.ReadKeeps(s.hist, p.stopping, want);
    case FlushRing =>
  }

  /** What the owner's steps do, apart from the effect of a cancel loop (CancelFirstEffect) and
      of the unmarking. */
  lemma OwnerSteps(s: State, step: Step)
    requires Inv(s) && Enabled(s, step) && !step.Deliver?
    ensures var (p, t) := (s.pool, Next(s, step));
            match step
            case SubmitNext(willing) =>
              var n := s.owner.next;
              if willing then
                && t.pool == p.(urbs := p.urbs[n := p.urbs[n].(xfer := InFlight)])
                && t.owner == (if n + 1 == |p.urbs| then Ready
                               else if s.owner.Opening? then Opening(n + 1) else Resubmitting(n + 1))
              else
                && t.pool.stopping
                && (if s.owner.Opening? then t.owner == OpenWait && Drained(t.pool)
                    else t.owner == Ready && t.pool.urbs == p.urbs)
            case WaitOver =>
              && t.pool.stopping == p.stopping
              && AllIdle(t.pool)
              && t.owner == (if s.owner == OpenWait then OpenFailed
                             else if s.owner == CloseWait then Closed else Resubmitting(0))
            case StartClose => t.owner == CloseWait && t.pool.stopping && Drained(t.pool)
            case StartRestart =>
              if p.stopping then t == s else t.owner == RestartWait && !t.pool.stopping && Drained(t.pool)
            case ReadRing(want) =>
              && t.pool == p && t.owner == s.owner && t.hist.ring == R.Read(s.hist.ring, p.stopping, want).0
            case FlushRing => t.pool == p && t.owner == s.owner && t.hist.ring.q == []
  {
    StepKeeps(s, step);
    if step.WaitOver? {
      OutstandingZero(s.pool.urbs);
    }
    if step.ReadRing? {
      R.ReadTakes(s.hist.ring, s.pool.stopping, step.want);
    }
  }

  lemma {:induction false} RunKeeps(s: State, steps: seq<Step>, s': State)
    requires Inv(s) && Runs(s, steps, s')
    ensures Inv(s')
    decreases |steps|
  {
    if steps != [] {
      StepKeeps(s, steps[0]);
      RunKeeps(Next(s, steps[0]), steps[1..], s');
    }
  }

  /** s occurs in some run of a stream of that depth, from open on. */
  ghost predicate Reachable(depth: nat, s: State) {
    0 < depth && exists cap: nat, steps :: 0 < cap && Runs(Init(depth, cap), steps, s)
  }

  lemma ReachableInv(depth: nat, s: State)
    requires Reachable(depth, s)
    ensures Inv(s) && |s.pool.urbs| == depth
  {
    var cap: nat, steps :| 0 < cap && Runs(Init(depth, cap), steps, s);
    InitInv(depth, cap);
    RunKeeps(Init(depth, cap), steps, s);
    DepthIsFixed(Init(depth, cap), steps, s);
  }

  // ---- close is quiescent ----------------------------------------------------

  /** In every run from open, pending_cancel is the number of accepted cancels still
      owed a callback; so a CANCELLED callback always finds it positive, the clamp
      only ever turns 0 into 0, and the waiters are woken exactly by the last one. */
  lemma PendingIsExact(depth: nat, s: State)
    requires Reachable(depth, s)
    ensures s.pool.pending == Outstanding(s.pool.urbs)
    ensures forall step: Step :: step.Deliver? && step.status.Cancelled? && Enabled(s, step) ==>
              1 <= s.pool.pending && Next(s, step).pool.pending == s.pool.pending - 1
  {
    ReachableInv(depth, s);
    forall step: Step | step.Deliver? && step.status.Cancelled? && Enabled(s, step)
      ensures 1 <= s.pool.pending
    {
      CountsUpdate(s.pool.urbs, step.i, s.pool.urbs[step.i].(xfer := Idle));
    }
  }

  /** When close, or the failing path of open, frees the pool, every transfer is idle
      and no callback, submit, read or flush is possible any more. */
  lemma FreedIsQuiescent(depth: nat, s: State)
    requires Reachable(depth, s)
    requires Freed(s.owner)
    ensures AllIdle(s.pool) && s.pool.pending == 0
    ensures forall step: Step :: !Enabled(s, step)
  {
    ReachableInv(depth, s);
    OutstandingZero(s.pool.urbs);
  }

  function Deliveries(steps: seq<Step>): nat {
    if steps == [] then 0 else (if steps[0].Deliver? then 1 else 0) + Deliveries(steps[1..])
  }

  predicate NoWaitOver(steps: seq<Step>) {
    forall k :: 0 <= k < |steps| ==> !steps[k].WaitOver?
  }

  /** While the owner waits, nothing but the awaited callbacks can happen to the pool,
      each brings the count down by one, and there is one to come as long as the count
      is positive: the wait ends after exactly pending_cancel callbacks. */
  lemma {:induction false} WaitEnds(s: State, steps: seq<Step>, s': State)
    requires Inv(s) && Waiting(s.owner) && Runs(s, steps, s') && NoWaitOver(steps)
    ensures s'.owner == s.owner && s'.pool.stopping == s.pool.stopping
    ensures s'.pool.pending == s.pool.pending - Deliveries(steps)
    ensures 0 < s'.pool.pending ==>
              exists i :: 0 <= i < |s'.pool.urbs| && Enabled(s', Deliver(i, Cancelled, [], true))
    ensures s'.pool.pending == 0 ==> Enabled(s', WaitOver) && AllIdle(s'.pool)
    decreases |steps|
  {
    if steps == [] {
      OutstandingZero(s.pool.urbs);
      if 0 < s.pool.pending {
        var i: nat :| i < |s.pool.urbs| && s.pool.urbs[i].xfer.Cancelling?;
        assert Enabled(s, Deliver(i, Cancelled, [], true));
      }
    } else {
      var step := steps[0];
      StepKeeps(s, step);
      if step.Deliver? {
        CountsUpdate(s.pool.urbs, step.i, s.pool.urbs[step.i].(xfer := Idle));
      }
      WaitEnds(Next(s, step), steps[1..], s');
    }
  }

  // ---- restart never double-submits --------------------------------------------

  /** Whoever submits, in any reachable state, submits an idle transfer: the owner in
      open and restart, and the callback, also between two submits of a restart. */
  lemma NeverDoubleSubmits(depth: nat, s: State)
    requires Reachable(depth, s)
    ensures forall willing :: Enabled(s, SubmitNext(willing)) ==>
              s.pool.urbs[s.owner.next].xfer.Idle? && Submit(s.pool, s.owner.next, willing).1 == willing
    ensures forall step: Step :: step.Deliver? && Enabled(s, step) ==>
              !Next(s, step).pool.urbs[step.i].xfer.Cancelling?
              && (Next(s, step).pool.urbs[step.i].xfer.InFlight? ==>
                    step.willing && !s.pool.stopping && !Waiting(s.owner))
  {
    ReachableInv(depth, s);
  }

  /** The end of restart's wait: every transfer idle and unmarked. */
  lemma RestartFindsAllIdle(s: State)
    requires Inv(s) && s.owner.RestartWait? && Enabled(s, WaitOver)
    ensures var s' := Next(s, WaitOver);
            AllIdle(s'.pool) && Filled(s'.pool, 0) && s'.owner == Resubmitting(0) && !s'.pool.stopping
  {
    OutstandingZero(s.pool.urbs);
  }

  /** The steps that belong to restart (and to open and close) leave the ring alone. */
  lemma OwnerLeavesRing(s: State, step: Step)
    requires Enabled(s, step) && (step.SubmitNext? || step.WaitOver? || step.StartRestart? || step.StartClose?)
    ensures Next(s, step).hist == s.hist
  {
  }

  /** What a run does to the ring: the pushes of callbacks, the reads and the flushes. */
  function RingOps(s: State, steps: seq<Step>, s': State): seq<R.Op>
    requires Runs(s, steps, s')
    decreases |steps|
  {
    if steps == [] then []
    else
      var rest := RingOps(Next(s, steps[0]), steps[1..], s');
      match steps[0]
      case Deliver(_, status, data, _) => if Pushes(s.pool, status, data) then [R.PushOp(data)] + rest else rest
      case ReadRing(want) => [R.ReadOp(want, s.pool.stopping)] + rest
      case FlushRing => [R.FlushOp] + rest
      case _ => rest
  }

  /** Every run of the stream, with any restarts in it, is a run of the ring in which open,
      restart and close have no part. */
  lemma {:induction false} RunIsRingRun(s: State, steps: seq<Step>, s': State)
    requires Inv(s) && Runs(s, steps, s')
    ensures R.Reaches(s.hist, RingOps(s, steps, s'), s'.hist)
    decreases |steps|
  {
    if steps != [] {
      var (step, t) := (steps[0], Next(s, steps[0]));
      StepKeeps(s, step);
      RunIsRingRun(t, steps[1..], s');
      var rest := RingOps(t, steps[1..], s');
      if step.SubmitNext? || step.WaitOver? || step.StartRestart? || step.StartClose? {
        OwnerLeavesRing(s, step);
      } else if t.hist != s.hist || step.ReadRing? || step.FlushRing? {
        var op := RingOps(s, steps, s')[0];
        assert ([op] + rest)[1..] == rest;
      }
    }
  }

  /** A stream that is open, not stopping and not in the middle of a restart keeps its
      whole pool in flight; part-way through, exactly the submitted part of it. */
  lemma PoolStaysFull(depth: nat, s: State)
    requires Reachable(depth, s) && !s.pool.stopping
    ensures s.owner.Ready? ==> Live(s.pool.urbs) == depth
    ensures s.owner.Opening? || s.owner.Resubmitting? ==> Live(s.pool.urbs) == s.owner.next
  {
    ReachableInv(depth, s);
    if s.owner.Ready? {
      LiveIs(s.pool.urbs, |s.pool.urbs|);
    } else if s.owner.Opening? || s.owner.Resubmitting? {
      LiveIs(s.pool.urbs, s.owner.next);
    }
  }

  lemma {:induction false} LiveIs(urbs: seq<Urb>, n: nat)
    requires n <= |urbs|
    requires forall j :: 0 <= j < |urbs| ==> (urbs[j].xfer.Idle? <==> n <= j)
    ensures Live(urbs) == n
    decreases |urbs|
  {
    if urbs != [] {
      LiveIs(urbs[..|urbs| - 1], Min(n, |urbs| - 1));
    }
  }

  lemma {:induction false} DepthIsFixed(s: State, steps: seq<Step>, s': State)
    requires Runs(s, steps, s')
    ensures |s'.pool.urbs| == |s.pool.urbs|
    decreases |steps|
  {
    if steps != [] {
      DepthIsFixed(Next(s, steps[0]), steps[1..], s');
    }
  }

  /** The ring's condition variable is shared by readers and by the waits of close and
      restart, and a push signals only one waiter: no push ever happens while the owner
      is waiting, so it cannot take the reader's wake-up. */
  lemma PushNeverWakesOwner(s: State, step: Step)
    requires Inv(s) && Waiting(s.owner) && step.Deliver? && Enabled(s, step)
    ensures Next(s, step).hist == s.hist && step.status.Cancelled?
  {
  }

  // ---- a dying stream ----------------------------------------------------------

  /** stopping is never cleared, and under it each callback retires a transfer for good
      and brings no byte into the ring. */
  lemma StoppingIsFinal(s: State, step: Step)
    requires s.pool.stopping && Enabled(s, step)
    ensures Next(s, step).pool.stopping
    ensures Next(s, step).hist.pushed == s.hist.pushed
    ensures step.Deliver? ==> Live(Next(s, step).pool.urbs) == Live(s.pool.urbs) - 1
  {
    if step.Deliver? {
      CountsUpdate(s.pool.urbs, step.i, s.pool.urbs[step.i].(xfer := Idle));
    }
  }

  predicate NoFlush(steps: seq<Step>) {
    forall k :: 0 <= k < |steps| ==> !steps[k].FlushRing?
  }

  /** The bytes the reader has, followed by those it can still get. */
  function Readable(h: R.Hist): seq<byte> {
    h.delivered + h.ring.q
  }

  lemma DyingStep(s: State, step: Step)
    requires s.pool.stopping && Enabled(s, step) && !step.FlushRing?
    ensures var t := Next(s, step);
            t.pool.stopping && t.hist.pushed == s.hist.pushed
            && s.hist.delivered <= t.hist.delivered && Readable(t.hist) == Readable(s.hist)
  {
    StoppingIsFinal(s, step);
    if step.ReadRing? {
      var (q, n) := (s.hist.ring.q, Min(step.want, |s.hist.ring.q|));
      assert q[..n] + q[n..] == q;
    }
  }

  /** From the moment stopping is set, reads hand out what the ring held, in order and
      to the last byte, whatever else runs. */
  lemma {:induction false} DyingStreamDrains(s: State, steps: seq<Step>, s': State)
    requires s.pool.stopping && Runs(s, steps, s') && NoFlush(steps)
    ensures s'.pool.stopping && s'.hist.pushed == s.hist.pushed
    ensures s.hist.delivered <= s'.hist.delivered
    ensures Readable(s'.hist) == Readable(s.hist)
    decreases |steps|
  {
    if steps != [] {
      DyingStep(s, steps[0]);
      DyingStreamDrains(Next(s, steps[0]), steps[1..], s');
    }
  }

  /** Once a stopping stream is drained, every later read reports the dead device. */
  lemma {:induction false} DrainedMeansENODEV(s: State, steps: seq<Step>, s': State, want: nat)
    requires s.pool.stopping && s.hist.ring.q == [] && Runs(s, steps, s') && 0 < want
    ensures R.Read(s'.hist.ring, s'.pool.stopping, want).1 == R.Error(ENODEV)
    decreases |steps|
  {
    if steps != [] {
      StoppingIsFinal(s, steps[0]);
      DrainedMeansENODEV(Next(s, steps[0]), steps[1..], s', want);
    }
  }

  /** The three answers a reader with room can get, each with its exact condition; bytes are all
      that was asked for or all there are. */
  lemma ReadAnswers(r: R.Ring, stopping: bool, want: nat)
    requires 0 < want
    ensures var (after, res) := R.Read(r, stopping, want);
            && (res == R.Data([]) <==> r.q == [] && !stopping)
            && (res == R.Error(ENODEV) <==> r.q == [] && stopping)
            && (r.q != [] ==> res.Data? && 0 < |res.bytes| <= want && r.q == res.bytes + after.q)
            && (r.q != [] ==> |res.bytes| == want || after.q == [])
  {
    if r.q != [] {
      var n := Min(want, |r.q|);
      assert r.q == r.q[..n] + r.q[n..];
    }
  }
}
