/** The stream protocol of usbq/src/usbq.c with the callback cut wherever the C code lets
    another thread in. A transfer leaves libusb; then stream_xfer_cb counts a cancelled one
    under the lock, or else reads `stopping` without it, pushes in one critical section, looks
    at `stopping` and its mark in a second, submits outside any, and after a refusal sets
    `stopping` in a third and asks for the wake descriptor in a fourth. libusb has one event
    thread, so one callback is under way at a time.

    Proved here: exactly when the owner may take the mutex for a cancel loop (in open's failing
    path, close and restart) so that nothing is freed under a callback and nobody submits a
    transfer that is not idle. */
module CallbackRace {
  import opened Bytes
  import R = Ring
  import P = StreamProtocol

  /** Where the event thread stands in a callback for transfer i. Arrived: nothing done yet;
      Pushing: `stopping` has been read, `data` (nothing if empty) is to be pushed; Checking:
      about to look at the flags; Checked: about to submit; Refused: about to set `stopping`;
      Waking: about to ask for the wake descriptor. */
  datatype Mid =
    | Between
    | Arrived(i: nat, status: P.Status, data: seq<byte>)
    | Pushing(i: nat, data: seq<byte>)
    | Checking(i: nat)
    | Checked(i: nat)
    | Refused(i: nat)
    | Waking(i: nat)

  datatype State = State(base: P.State, mid: Mid)

  datatype Step =
    | Owner(step: P.Step)
    | Finish(i: nat, status: P.Status, data: seq<byte>)
    | Enter
    | Push
    | Check
    | SubmitAgain(willing: bool)
    | SetStopping
    | Wake

  predicate Enabled(s: State, step: Step) {
    match step
    case Owner(t) => !t.Deliver? && P.Enabled(s.base, t)
    case Finish(i, status, data) => s.mid.Between? && P.Enabled(s.base, P.Deliver(i, status, data, true))
    case Enter => s.mid.Arrived?
    case Push => s.mid.Pushing?
    case Check => s.mid.Checking? && s.mid.i < |s.base.pool.urbs|
    case SubmitAgain(_) => s.mid.Checked? && s.mid.i < |s.base.pool.urbs|
    case SetStopping => s.mid.Refused?
    case Wake => s.mid.Waking?
  }

  function WithPool(b: P.State, p: P.Pool): P.State {
    b.(pool := p)
  }

  function CountDown(p: P.Pool): P.Pool {
    p.(pending := if p.pending - 1 <= 0 then 0 else p.pending - 1)
  }

  function Next(s: State, step: Step): State
    requires Enabled(s, step)
  {
    var p := s.base.pool;
    match step
    case Owner(t) => s.(base := P.Next(s.base, t))
    case Finish(i, status, data) => State(WithPool(s.base, P.SetXfer(p, i, P.Idle)), Arrived(i, status, data))
    case Enter =>
      if s.mid.status.Cancelled? then State(WithPool(s.base, CountDown(p)), Between)
      else s.(mid := Pushing(s.mid.i, if P.Pushes(p, s.mid.status, s.mid.data) then s.mid.data else []))
    case Push =>
      var b := if s.mid.data == [] then s.base else s.base.(hist := R.HPush(s.base.hist, s.mid.data));
      State(b, Checking(s.mid.i))
    case Check =>
      s.(mid := if p.stopping || p.urbs[s.mid.i].marked then Between else Checked(s.mid.i))
    case SubmitAgain(willing) =>
      var (p1, accepted) := P.Submit(p, s.mid.i, willing);
      if accepted then State(WithPool(s.base, p1), Between) else s.(mid := Refused(s.mid.i))
    case SetStopping => State(WithPool(s.base, p.(stopping := true)), Waking(s.mid.i))
    case Wake => s.(mid := Between)
  }

  /** `stopping` is read on entry, without the lock, and decides what the later push, in a critical
      section of its own, adds to the ring: the bytes of a transfer that completed or timed out. A
      CANCELLED callback is over with its entry. */
  lemma EnterDecides(s: State)
    requires Enabled(s, Enter)
    ensures var t := Next(s, Enter);
            && t.base.hist == s.base.hist && t.base.owner == s.base.owner
            && t.base.pool.urbs == s.base.pool.urbs && t.base.pool.stopping == s.base.pool.stopping
            && (s.mid.status == P.Cancelled ==> t.mid == Between)
            && (s.mid.status != P.Cancelled ==> t.base.pool.pending == s.base.pool.pending)
            && ((s.mid.status == P.Completed || s.mid.status == P.TimedOut) && !s.base.pool.stopping ==>
                  t.mid == Pushing(s.mid.i, s.mid.data))
            && (s.mid.status == P.Failed || (s.mid.status != P.Cancelled && s.base.pool.stopping) ==>
                  t.mid == Pushing(s.mid.i, []))
  {
  }

  /** What was decided is pushed whatever has happened since. */
  lemma PushPushes(s: State)
    requires Enabled(s, Push)
    ensures var t := Next(s, Push);
            && t.base.hist.pushed == s.base.hist.pushed + s.mid.data
            && t.base.hist.delivered == s.base.hist.delivered
            && (R.Valid(s.base.hist.ring) ==> t.base.hist.ring == R.Push(s.base.hist.ring, s.mid.data))
            && t.base.pool == s.base.pool && t.base.owner == s.base.owner && t.mid == Checking(s.mid.i)
  {
    if s.mid.data == [] && R.Valid(s.base.hist.ring) {
      R.PushNothing(s.base.hist.ring);
    }
  }

  /** The parts after the push, and the moment a transfer leaves libusb. */
  lemma PartsAre(s: State, step: Step)
    requires Enabled(s, step) && !step.Owner? && !step.Enter? && !step.Push?
    ensures var (p, t) := (s.base.pool, Next(s, step));
            && t.base.hist == s.base.hist && t.base.owner == s.base.owner
            && match step
               case Finish(i, status, data) =>
                 t.mid == Arrived(i, status, data) && t.base.pool == p.(urbs := p.urbs[i := p.urbs[i].(xfer := P.Idle)])
               case Check =>
                 t.base.pool == p && t.mid == if p.stopping || p.urbs[s.mid.i].marked then Between else Checked(s.mid.i)
               case SubmitAgain(willing) =>
                 var i := s.mid.i;
                 if willing && p.urbs[i].xfer == P.Idle then
                   t.base.pool == p.(urbs := p.urbs[i := p.urbs[i].(xfer := P.InFlight)]) && t.mid == Between
                 else t.base.pool == p && t.mid == Refused(i)
               case SetStopping => t.base.pool == p.(stopping := true) && t.mid == Waking(s.mid.i)
               case Wake => t.base.pool == p && t.mid == Between
  {
  }

  /** A stream at the start of usbq_stream_open. */
  function Opened(depth: nat, cap: nat): State {
    State(P.Init(depth, cap), Between)
  }

  predicate Runs(s: State, steps: seq<Step>, s': State)
    decreases |steps|
  {
    if steps == [] then s' == s else Enabled(s, steps[0]) && Runs(Next(s, steps[0]), steps[1..], s')
  }

  /** The parts of a callback from its arrival on, undisturbed. */
  function Rest(s: State, willing: bool): State
    requires !s.mid.Between? && s.mid.i < |s.base.pool.urbs|
    decreases match s.mid { case Between => 0 case Arrived(_, _, _) => 6 case Pushing(_, _) => 5 case Checking(_) => 4
                            case Checked(_) => 3 case Refused(_) => 2 case Waking(_) => 1 }
  {
    var step := match s.mid
      case Arrived(_, _, _) => Enter
      case Pushing(_, _) => Push
      case Checking(_) => Check
      case Checked(_) => SubmitAgain(willing)
      case Refused(_) => SetStopping
      case Waking(_) => Wake;
    var t := Next(s, step);
    if t.mid.Between? then t else Rest(t, willing)
  }

  lemma RestOfSubmit(s: State, willing: bool)
    requires s.mid.Checked? && s.mid.i < |s.base.pool.urbs|
    ensures var (p1, accepted) := P.Submit(s.base.pool, s.mid.i, willing);
            Rest(s, willing) ==
            State(WithPool(s.base, if accepted then p1 else s.base.pool.(stopping := true)), Between)
  {
    var t := Next(s, SubmitAgain(willing));
    if t.mid.Refused? {
      var u := Next(t, SetStopping);
      assert Rest(u, willing) == Next(u, Wake);
      assert Rest(t, willing) == Rest(u, willing);
    }
  }

  lemma RestOfLook(s: State, willing: bool)
    requires s.mid.Checking? && s.mid.i < |s.base.pool.urbs|
    ensures var (p, i) := (s.base.pool, s.mid.i);
            var (p1, accepted) := P.Submit(p, i, willing);
            Rest(s, willing) ==
            State(WithPool(s.base, if p.stopping || p.urbs[i].marked then p
                                   else if accepted then p1 else p.(stopping := true)), Between)
  {
    var t := Next(s, Check);
    if t.mid.Checked? {
      RestOfSubmit(t, willing);
    }
  }

  lemma RestOfEntry(s: State, willing: bool)
    requires s.mid.Arrived? && s.mid.i < |s.base.pool.urbs|
    ensures Rest(s, willing) ==
            if s.mid.status.Cancelled? then Next(s, Enter) else Rest(Next(Next(s, Enter), Push), willing)
  {
    var t := Next(s, Enter);
    if t.mid.Pushing? {
      assert Rest(t, willing) == Rest(Next(t, Push), willing);
    }
  }

  /** Undisturbed, they are the one callback step of StreamProtocol. */
  lemma UndisturbedIsDeliver(s: State, i: nat, status: P.Status, data: seq<byte>, willing: bool)
    requires Enabled(s, Finish(i, status, data))
    ensures Rest(Next(s, Finish(i, status, data)), willing)
            == State(P.Next(s.base, P.Deliver(i, status, data, willing)), Between)
  {
    var s1 := Next(s, Finish(i, status, data));
    RestOfEntry(s1, willing);
    if !status.Cancelled? {
      RestOfLook(Next(Next(s1, Enter), Push), willing);
    }
  }

  // ---- a state nobody has to be sorry for ---------------------------------------

  /** A callback that has still to look at the flags. */
  predicate Unlooked(mid: Mid) {
    (mid.Arrived? && !mid.status.Cancelled?) || mid.Pushing? || mid.Checking?
  }

  /** A callback that may yet submit its transfer. */
  predicate MaySubmit(mid: Mid) {
    Unlooked(mid) || mid.Checked?
  }

  /** A CANCELLED callback that has not been counted yet. */
  predicate Uncounted(mid: Mid) {
    mid.Arrived? && mid.status.Cancelled?
  }

  /** Accepted cancels that have not been counted down. */
  function Owed(s: State): nat {
    P.Outstanding(s.base.pool.urbs) + if Uncounted(s.mid) then 1 else 0
  }

  predicate AnyInFlight(p: P.Pool) {
    exists j :: 0 <= j < |p.urbs| && p.urbs[j].xfer.InFlight?
  }

  /** Transfers below n have been submitted: in flight, unless the stream is dying or their
      callback is under way; those from n on are idle, and no cancel is under way. */
  predicate Filled(p: P.Pool, n: nat, mid: Mid) {
    forall j :: 0 <= j < |p.urbs| ==>
      && !p.urbs[j].marked
      && !p.urbs[j].xfer.Cancelling?
      && (n <= j ==> p.urbs[j].xfer.Idle? && !(MaySubmit(mid) && mid.i == j))
      && (j < n && !p.stopping ==> p.urbs[j].xfer.InFlight? || ((MaySubmit(mid) || mid.Refused?) && mid.i == j))
  }

  predicate AllMarked(p: P.Pool) {
    forall j :: 0 <= j < |p.urbs| ==> p.urbs[j].marked
  }

  /** A wait before a free, which cannot end before the callback under way has. */
  predicate Awaits(p: P.Pool, mid: Mid) {
    p.stopping && P.Drained(p) && !mid.Checked? && (!mid.Between? ==> 0 < p.pending)
  }

  /** A wait before a resubmit, which cannot end before the callback under way has looked. */
  predicate AwaitsLook(p: P.Pool, mid: Mid) {
    AllMarked(p) && P.Drained(p) && !mid.Checked? && (Unlooked(mid) ==> 0 < p.pending)
  }

  predicate OwnerTidy(p: P.Pool, o: P.Owner, mid: Mid) {
    match o
    case Opening(n) => n < |p.urbs| && Filled(p, n, mid)
    case Resubmitting(n) => n < |p.urbs| && Filled(p, n, mid)
    case Ready => Filled(p, |p.urbs|, mid)
    case OpenWait => Awaits(p, mid)
    case CloseWait => Awaits(p, mid)
    case RestartWait => AwaitsLook(p, mid)
    case OpenFailed => p.stopping && P.AllIdle(p) && mid.Between?
    case Closed => p.stopping && P.AllIdle(p) && mid.Between?
  }

  predicate MidTidy(p: P.Pool, o: P.Owner, mid: Mid) {
    && (!mid.Between? ==> mid.i < |p.urbs|)
    && (MaySubmit(mid) && mid.i < |p.urbs| ==> p.urbs[mid.i].xfer.Idle?)
    && (mid.Waking? ==> p.stopping)
    && (Uncounted(mid) ==> P.Waiting(o))
  }

  ghost predicate Tidy(s: State) {
    && 0 < |s.base.pool.urbs|
    && s.base.pool.pending == Owed(s)
    && MidTidy(s.base.pool, s.base.owner, s.mid)
    && OwnerTidy(s.base.pool, s.base.owner, s.mid)
  }

  /** The steps that begin with a cancel loop. */
  predicate Cancels(s: State, step: Step) {
    && step.Owner?
    && ((step.step.StartClose? && s.base.owner.Ready?)
        || (step.step.StartRestart? && s.base.owner.Ready? && !s.base.pool.stopping)
        || (step.step.SubmitNext? && s.base.owner.Opening? && !step.step.willing))
  }

  /** No callback is under way; or one that is past its look at the flags and its submit, or
      has not come to them, while there is a transfer in flight whose cancellation the owner
      will have to wait for; or, for a restart, which frees nothing, one past a refusal. */
  predicate MayCancel(s: State, step: Step) {
    || s.mid.Between?
    || (!s.mid.Checked? && AnyInFlight(s.base.pool))
    || (s.mid.Refused? && step == Owner(P.StartRestart))
  }

  /** Somebody is about to submit a transfer that is not idle. */
  predicate Clash(s: State) {
    var (p, o) := (s.base.pool, s.base.owner);
    || ((o.Opening? || o.Resubmitting?) && o.next < |p.urbs| && !p.urbs[o.next].xfer.Idle?)
    || (s.mid.Checked? && s.mid.i < |p.urbs| && !p.urbs[s.mid.i].xfer.Idle?)
  }

  /** The pool has been freed with a transfer in flight or under a callback. */
  predicate FreedTooSoon(s: State) {
    P.Freed(s.base.owner) && !(P.AllIdle(s.base.pool) && s.mid.Between?)
  }

  lemma TidyIsSafe(s: State)
    requires Tidy(s)
    ensures !Clash(s) && !FreedTooSoon(s)
    ensures P.Freed(s.base.owner) ==> forall step :: !Enabled(s, step)
  {
  }

  // ---- what a cancel loop finds ---------------------------------------------------

  lemma OutstandingPositive(urbs: seq<P.Urb>, j: nat)
    requires j < |urbs| && urbs[j].xfer.Cancelling?
    ensures 0 < P.Outstanding(urbs)
  {
    P.OutstandingZero(urbs);
  }

  /** What a cancel loop over n transfers leaves of a pool in which the others are idle. */
  lemma CancelLeaves(p: P.Pool, n: nat, mid: Mid)
    requires n <= |p.urbs| && p.pending == P.Outstanding(p.urbs)
    requires Filled(p.(stopping := true), n, mid)
    ensures var q := P.CancelFirst(p, n);
            && P.Drained(q) && q.pending == P.Outstanding(q.urbs)
            && (n == |p.urbs| ==> AllMarked(q))
            && (AnyInFlight(p) ==> 0 < q.pending)
            && forall j :: 0 <= j < |p.urbs| && p.urbs[j].xfer.Idle? ==> q.urbs[j].xfer.Idle?
  {
    P.CancelFirstEffect(p, n);
    if AnyInFlight(p) {
      var j :| 0 <= j < |p.urbs| && p.urbs[j].xfer.InFlight?;
      OutstandingPositive(P.CancelFirst(p, n).urbs, j);
    }
  }

  lemma CancelKeepsTidy(s: State, step: Step)
    requires Tidy(s) && Enabled(s, step) && Cancels(s, step) && MayCancel(s, step)
    ensures Tidy(Next(s, step))
  {
    var p := s.base.pool;
    if step.step.StartRestart? {
      CancelLeaves(p, |p.urbs|, s.mid);
    } else if step.step.StartClose? {
      CancelLeaves(p.(stopping := true), |p.urbs|, s.mid);
    } else {
      CancelLeaves(p.(stopping := true), s.base.owner.next, s.mid);
    }
  }

  // ---- every other step ------------------------------------------------------------

  lemma SubmitKeepsTidy(s: State, willing: bool)
    requires var step := Owner(P.SubmitNext(willing)); Tidy(s) && Enabled(s, step) && !Cancels(s, step)
    ensures Tidy(Next(s, Owner(P.SubmitNext(willing))))
  {
    var (p, n) := (s.base.pool, s.base.owner.next);
    P.CountsUpdate(p.urbs, n, p.urbs[n].(xfer := P.InFlight));
  }

  lemma WaitOverKeepsTidy(s: State)
    requires Tidy(s) && Enabled(s, Owner(P.WaitOver))
    ensures Tidy(Next(s, Owner(P.WaitOver)))
  {
    var p := s.base.pool;
    P.OutstandingZero(p.urbs);
    P.OutstandingZero(P.Unmark(p).urbs);
  }

  lemma OwnerKeepsTidy(s: State, step: Step)
    requires Tidy(s) && Enabled(s, step) && step.Owner? && !Cancels(s, step)
    ensures Tidy(Next(s, step))
  {
    match step.step
    case SubmitNext(willing) => SubmitKeepsTidy(s, willing);
    case WaitOver => WaitOverKeepsTidy(s);
    case _ =>
  }

  lemma FinishKeepsTidy(s: State, step: Step)
    requires Tidy(s) && Enabled(s, step) && step.Finish?
    ensures Tidy(Next(s, step))
  {
    var p := s.base.pool;
    P.CountsUpdate(p.urbs, step.i, p.urbs[step.i].(xfer := P.Idle));
  }

  lemma ResubmitKeepsTidy(s: State, willing: bool)
    requires Tidy(s) && Enabled(s, SubmitAgain(willing))
    ensures Tidy(Next(s, SubmitAgain(willing)))
  {
    var p := s.base.pool;
    P.CountsUpdate(p.urbs, s.mid.i, p.urbs[s.mid.i].(xfer := P.InFlight));
  }

  lemma EnterKeepsTidy(s: State)
    requires Tidy(s) && Enabled(s, Enter)
    ensures Tidy(Next(s, Enter))
  {
  }

  lemma LookKeepsTidy(s: State, step: Step)
    requires Tidy(s) && Enabled(s, step) && (step.Push? || step.Check?)
    ensures Tidy(Next(s, step))
  {
  }

  lemma TailKeepsTidy(s: State, step: Step)
    requires Tidy(s) && Enabled(s, step) && (step.SetStopping? || step.Wake?)
    ensures Tidy(Next(s, step))
  {
  }

  lemma StepKeepsTidy(s: State, step: Step)
    requires Tidy(s) && Enabled(s, step) && (Cancels(s, step) ==> MayCancel(s, step))
    ensures Tidy(Next(s, step))
  {
    match step
    case Owner(_) =>
      if Cancels(s, step) {
        CancelKeepsTidy(s, step);
      } else {
        OwnerKeepsTidy(s, step);
      }
    case Finish(_, _, _) => FinishKeepsTidy(s, step);
    case SubmitAgain(willing) => ResubmitKeepsTidy(s, willing);
    case Enter => EnterKeepsTidy(s);
    case SetStopping => TailKeepsTidy(s, step);
    case Wake => TailKeepsTidy(s, step);
    case _ => LookKeepsTidy(s, step);
  }

  /** A run in which every cancel loop is begun when it may be. */
  predicate Careful(s: State, steps: seq<Step>, s': State)
    decreases |steps|
  {
    if steps == [] then s' == s
    else
      && Enabled(s, steps[0]) && (Cancels(s, steps[0]) ==> MayCancel(s, steps[0]))
      && Careful(Next(s, steps[0]), steps[1..], s')
  }

  lemma {:induction false} CarefulRunIsTidy(s: State, steps: seq<Step>, s': State)
    requires Tidy(s) && Careful(s, steps, s')
    ensures Tidy(s')
    decreases |steps|
  {
    if steps != [] {
      StepKeepsTidy(s, steps[0]);
      CarefulRunIsTidy(Next(s, steps[0]), steps[1..], s');
    }
  }

  lemma InitTidy(depth: nat, cap: nat)
    requires 0 < depth && 0 < cap
    ensures Tidy(Opened(depth, cap))
  {
    P.InitInv(depth, cap);
  }

  // ---- and otherwise it does go wrong -------------------------------------------------

  lemma CarefulCons(a: State, step: Step, steps: seq<Step>, b: State)
    requires Enabled(a, step) && (Cancels(a, step) ==> MayCancel(a, step)) && Careful(Next(a, step), steps, b)
    ensures Careful(a, [step] + steps, b)
  {
    assert ([step] + steps)[1..] == steps;
  }

  lemma {:induction false} CarefulAppend(a: State, s1: seq<Step>, b: State, s2: seq<Step>, c: State)
    requires Careful(a, s1, b) && Careful(b, s2, c)
    ensures Careful(a, s1 + s2, c)
    decreases |s1|
  {
    if s1 == [] {
      assert s1 + s2 == s2;
    } else {
      CarefulAppend(Next(a, s1[0]), s1[1..], b, s2, c);
      CarefulCons(a, s1[0], s1[1..] + s2, c);
      assert [s1[0]] + (s1[1..] + s2) == s1 + s2;
    }
  }

  lemma OneStep(a: State, step: Step)
    requires Enabled(a, step) && !Cancels(a, step)
    ensures Careful(a, [step], Next(a, step))
  {
    assert [step][1..] == [];
  }

  /** What the CANCELLED callbacks leave alone. */
  predicate SameOthers(p: P.Pool, q: P.Pool) {
    && |q.urbs| == |p.urbs| && q.stopping == p.stopping
    && forall j :: 0 <= j < |p.urbs| ==>
         q.urbs[j] == if p.urbs[j].xfer.Cancelling? then p.urbs[j].(xfer := P.Idle) else p.urbs[j]
  }

  /** While the owner waits, the awaited callbacks can all come. */
  lemma {:induction false} DrainRun(s: State) returns (steps: seq<Step>, s': State)
    requires P.Waiting(s.base.owner) && s.mid.Between? && s.base.pool.pending == P.Outstanding(s.base.pool.urbs)
    ensures Careful(s, steps, s') && s'.base.owner == s.base.owner && s'.mid.Between?
    ensures s'.base.pool.pending == 0 && SameOthers(s.base.pool, s'.base.pool)
    decreases s.base.pool.pending
  {
    var p := s.base.pool;
    P.OutstandingZero(p.urbs);
    if p.pending == 0 {
      return [], s;
    }
    var i: nat :| i < |p.urbs| && p.urbs[i].xfer.Cancelling?;
    var t := DrainOne(s, i);
    steps, s' := DrainRun(t);
    CarefulAppend(s, [Finish(i, P.Cancelled, []), Enter], t, steps, s');
    steps := [Finish(i, P.Cancelled, []), Enter] + steps;
  }

  lemma DrainOne(s: State, i: nat) returns (t: State)
    requires P.Waiting(s.base.owner) && s.mid.Between? && s.base.pool.pending == P.Outstanding(s.base.pool.urbs)
    requires i < |s.base.pool.urbs| && s.base.pool.urbs[i].xfer.Cancelling?
    ensures Careful(s, [Finish(i, P.Cancelled, []), Enter], t)
    ensures t.mid.Between? && t.base.owner == s.base.owner
    ensures t.base.pool.pending == P.Outstanding(t.base.pool.urbs) == s.base.pool.pending - 1
    ensures t.base.pool.stopping == s.base.pool.stopping
    ensures t.base.pool.urbs == s.base.pool.urbs[i := s.base.pool.urbs[i].(xfer := P.Idle)]
  {
    var (p, step) := (s.base.pool, Finish(i, P.Cancelled, []));
    P.CountsUpdate(p.urbs, i, p.urbs[i].(xfer := P.Idle));
    OutstandingPositive(p.urbs, i);
    t := Next(Next(s, step), Enter);
    OneStep(s, step);
    OneStep(Next(s, step), Enter);
    CarefulAppend(s, [step], Next(s, step), [Enter], t);
    assert [step] + [Enter] == [step, Enter];
  }

  /** A restart that finds transfer i not idle submits its way up to it. */
  lemma {:induction false} SubmitUpTo(s: State, i: nat) returns (steps: seq<Step>, s': State)
    requires s.base.owner.Resubmitting? && s.base.owner.next <= i < |s.base.pool.urbs|
    requires !s.base.pool.urbs[i].xfer.Idle?
    requires forall j :: s.base.owner.next <= j < i ==> s.base.pool.urbs[j].xfer.Idle?
    ensures Careful(s, steps, s') && Clash(s')
    decreases i - s.base.owner.next
  {
    if s.base.owner.next == i {
      return [], s;
    }
    var step := Owner(P.SubmitNext(true));
    OneStep(s, step);
    steps, s' := SubmitUpTo(Next(s, step), i);
    CarefulAppend(s, [step], Next(s, step), steps, s');
    steps := [step] + steps;
  }

  predicate GoesWrong(s: State) {
    Clash(s) || FreedTooSoon(s)
  }

  /** The state right after a cancel loop in the middle of a callback. */
  ghost predicate Cornered(s: State, t: State) {
    var (p, q) := (s.base.pool, t.base.pool);
    && t.mid == s.mid && !t.mid.Between? && !Uncounted(t.mid) && t.mid.i < |q.urbs|
    && (MaySubmit(t.mid) ==> q.urbs[t.mid.i].xfer.Idle?)
    && P.Waiting(t.base.owner) && q.pending == P.Outstanding(q.urbs) && |q.urbs| == |p.urbs|
    && (t.base.owner.RestartWait? ==> P.Drained(q) && !q.stopping)
    && (!AnyInFlight(p) ==> q.pending == 0)
  }

  lemma NoneCancelling(p: P.Pool, n: nat)
    requires n <= |p.urbs| && !AnyInFlight(p)
    requires forall j :: 0 <= j < |p.urbs| ==> !p.urbs[j].xfer.Cancelling?
    ensures P.Outstanding(P.CancelFirst(p, n).urbs) == 0
  {
    P.CancelFirstEffect(p, n);
    P.OutstandingZero(P.CancelFirst(p, n).urbs);
  }

  lemma CancelCorners(s: State, step: Step)
    requires Tidy(s) && Enabled(s, step) && Cancels(s, step) && !MayCancel(s, step)
    ensures Cornered(s, Next(s, step))
  {
    var p := if step.step.StartRestart? then s.base.pool else s.base.pool.(stopping := true);
    var n := if step.step.SubmitNext? then s.base.owner.next else |p.urbs|;
    P.CancelFirstEffect(p, n);
    if !AnyInFlight(s.base.pool) {
      NoneCancelling(p, n);
    }
  }

  /** The check has passed already: the callback submits during the wait, which does not know
      of it. */
  lemma CheckedGoesWrong(s: State, t: State) returns (steps: seq<Step>, t': State)
    requires Cornered(s, t) && t.mid.Checked?
    ensures Careful(t, steps, t') && GoesWrong(t')
  {
    var (i, again, over) := (t.mid.i, SubmitAgain(true), Owner(P.WaitOver));
    var t1 := Next(t, again);
    OneStep(t, again);
    P.CountsUpdate(t.base.pool.urbs, i, t.base.pool.urbs[i].(xfer := P.InFlight));
    var s2, t2 := DrainRun(t1);
    CarefulAppend(t, [again], t1, s2, t2);
    var t3 := Next(t2, over);
    OneStep(t2, over);
    CarefulAppend(t, [again] + s2, t2, [over], t3);
    steps, t' := [again] + s2 + [over], t3;
    assert t2.base.pool.urbs[i].xfer.InFlight?;
    if t.base.owner.RestartWait? {
      var more, t4 := SubmitUpTo(t3, i);
      CarefulAppend(t, steps, t3, more, t4);
      steps, t' := steps + more, t4;
    }
  }

  /** Nothing is in flight to wait for: open and close free the pool under the callback; a
      restart clears the mark before the callback looks at it. */
  lemma UnawaitedGoesWrong(s: State, t: State) returns (steps: seq<Step>, t': State)
    requires Cornered(s, t) && !t.mid.Checked? && !AnyInFlight(s.base.pool)
    requires t.base.owner.RestartWait? ==>
               Tidy(s) && s.base.owner.Ready? && !s.base.pool.stopping && Unlooked(t.mid)
    ensures Careful(t, steps, t') && GoesWrong(t')
  {
    var over := Owner(P.WaitOver);
    var t1 := Next(t, over);
    OneStep(t, over);
    steps, t' := [over], t1;
    if t.base.owner.RestartWait? {
      OnlyOneTransfer(s);
      var more, t2 := RestartMissesCallback(t1);
      CarefulAppend(t, steps, t1, more, t2);
      steps, t' := steps + more, t2;
    }
  }

  /** A live stream with nothing in flight and a callback under way has one transfer. */
  lemma OnlyOneTransfer(s: State)
    requires Tidy(s) && s.base.owner.Ready? && !s.base.pool.stopping && !s.mid.Between? && !AnyInFlight(s.base.pool)
    ensures |s.base.pool.urbs| == 1 && s.mid.i == 0
  {
    var p := s.base.pool;
    var last := |p.urbs| - 1;
    assert !p.urbs[0].xfer.InFlight? && !p.urbs[last].xfer.InFlight?;
  }

  /** The callback of the only transfer looks at the flags after a restart has cleared its
      mark: both submit. */
  lemma RestartMissesCallback(t: State) returns (steps: seq<Step>, t': State)
    requires t.base.owner == P.Resubmitting(0) && !t.base.pool.stopping && |t.base.pool.urbs| == 1
    requires t.base.pool.urbs[0] == P.Urb(false, P.Idle)
    requires Unlooked(t.mid) && t.mid.i == 0
    ensures Careful(t, steps, t') && Clash(t')
  {
    var more, t1 := UpToCheck(t);
    var submit := Owner(P.SubmitNext(true));
    OneStep(t1, Check);
    var t2 := Next(t1, Check);
    OneStep(t2, submit);
    CarefulAppend(t, more, t1, [Check], t2);
    CarefulAppend(t, more + [Check], t2, [submit], Next(t2, submit));
    steps, t' := more + [Check] + [submit], Next(t2, submit);
  }

  /** The callback goes on to its look at the flags. */
  lemma UpToCheck(t: State) returns (steps: seq<Step>, t': State)
    requires Unlooked(t.mid)
    ensures Careful(t, steps, t') && t'.mid == Checking(t.mid.i)
    ensures t'.base.pool == t.base.pool && t'.base.owner == t.base.owner
  {
    var t1 := t;
    steps := [];
    if t.mid.Arrived? {
      OneStep(t, Enter);
      steps, t1 := [Enter], Next(t, Enter);
    }
    t' := t1;
    if t1.mid.Pushing? {
      t' := Next(t1, Push);
      OneStep(t1, Push);
      CarefulAppend(t, steps, t1, [Push], t');
      steps := steps + [Push];
    }
  }

  lemma CarelessGoesWrong(s: State, step: Step) returns (steps: seq<Step>, t': State)
    requires Tidy(s) && Enabled(s, step) && Cancels(s, step) && !MayCancel(s, step)
    ensures Careful(Next(s, step), steps, t') && GoesWrong(t')
  {
    CancelCorners(s, step);
    var t := Next(s, step);
    if s.mid.Checked? {
      steps, t' := CheckedGoesWrong(s, t);
    } else {
      steps, t' := UnawaitedGoesWrong(s, t);
    }
  }

  /** However the threads go on, nothing is freed under a callback or in flight and nobody
      submits a transfer that is not idle. */
  ghost predicate AlwaysGoesRight(s: State) {
    forall steps, t :: Careful(s, steps, t) ==> !GoesWrong(t)
  }

  /** Exactly when open's failing path, close and restart may take the mutex, in any state a
      stream can reach by cancel loops that were begun when they might be: otherwise some
      continuation goes wrong. */
  lemma SafeIffMayCancel(depth: nat, cap: nat, before: seq<Step>, s: State, step: Step)
    requires 0 < depth && 0 < cap && Careful(Opened(depth, cap), before, s)
    requires Enabled(s, step) && Cancels(s, step)
    ensures MayCancel(s, step) <==> AlwaysGoesRight(Next(s, step))
  {
    InitTidy(depth, cap);
    CarefulRunIsTidy(Opened(depth, cap), before, s);
    if MayCancel(s, step) {
      StepKeepsTidy(s, step);
      forall steps, t' | Careful(Next(s, step), steps, t') ensures !GoesWrong(t') {
        CarefulRunIsTidy(Next(s, step), steps, t');
        TidyIsSafe(t');
      }
    } else {
      var steps, t' := CarelessGoesWrong(s, step);
      assert Careful(Next(s, step), steps, t') && GoesWrong(t');
    }
  }

  // ---- runs that go wrong ---------------------------------------------------------------

  lemma {:induction false} RunsSnoc(a: State, steps: seq<Step>, b: State, step: Step)
    requires Runs(a, steps, b) && Enabled(b, step)
    ensures Runs(a, steps + [step], Next(b, step))
    decreases |steps|
  {
    if steps == [] {
      assert [] + [step] == [step] && [step][1..] == [];
    } else {
      assert (steps + [step])[1..] == steps[1..] + [step];
      RunsSnoc(Next(a, steps[0]), steps[1..], b, step);
    }
  }

  /** Transfer 0 finishes and its callback gets as far as the submit. */
  const LOOKED: seq<Step> := [Finish(0, P.Completed, []), Enter, Push, Check]

  lemma Looks(a: State, steps: seq<Step>, b: State)
    requires Runs(a, steps, b) && b.mid.Between? && b.base.owner.Ready? && !b.base.pool.stopping
    requires |b.base.pool.urbs| > 0 && b.base.pool.urbs[0] == P.Urb(false, P.InFlight)
    ensures Runs(a, steps + LOOKED, State(WithPool(b.base, P.SetXfer(b.base.pool, 0, P.Idle)), Checked(0)))
  {
    var b1 := Next(b, LOOKED[0]);
    var b2 := Next(b1, Enter);
    var b3 := Next(b2, Push);
    RunsSnoc(a, steps, b, LOOKED[0]);
    RunsSnoc(a, steps + [LOOKED[0]], b1, Enter);
    RunsSnoc(a, steps + [LOOKED[0]] + [Enter], b2, Push);
    RunsSnoc(a, steps + [LOOKED[0]] + [Enter] + [Push], b3, Check);
    assert steps + LOOKED == steps + [LOOKED[0]] + [Enter] + [Push] + [Check];
  }

  /** A pool of one with its callback about to submit. */
  const ONE: seq<Step> := [Owner(P.SubmitNext(true))] + LOOKED

  lemma OneLooked(cap: nat) returns (s: State)
    ensures Runs(Opened(1, cap), ONE, s) && s.mid == Checked(0) && s.base.owner.Ready?
    ensures s.base.pool == P.Pool([P.Urb(false, P.Idle)], 0, false)
  {
    var (a, submit) := (Opened(1, cap), Owner(P.SubmitNext(true)));
    var b := Next(a, submit);
    RunsSnoc(a, [], a, submit);
    assert [] + [submit] == [submit];
    assert b.base.pool.urbs == [P.Urb(false, P.InFlight)];
    Looks(a, [submit], b);
    s := State(WithPool(b.base, P.SetXfer(b.base.pool, 0, P.Idle)), Checked(0));
  }

  lemma CancelNone(p: P.Pool)
    requires p.urbs == [P.Urb(false, P.Idle)] && p.pending == 0
    ensures P.CancelFirst(p, 1) == p.(urbs := [P.Urb(true, P.Idle)])
  {
    assert P.CancelFirst(p, 1) == P.CancelOne(P.CancelFirst(p, 0), 0);
  }

  /** A pool of one: its resubmit is refused, and the reader that this wakes closes the stream
      before the callback has asked for the wake descriptor. */
  lemma FreedUnderCallback(cap: nat) returns (s: State)
    ensures Runs(Opened(1, cap), ONE + [SubmitAgain(false)] + [SetStopping]
                                 + [Owner(P.StartClose)] + [Owner(P.WaitOver)], s)
    ensures FreedTooSoon(s) && s.mid == Waking(0)
  {
    var a := Opened(1, cap);
    var c := OneLooked(cap);
    var c1 := Next(c, SubmitAgain(false));
    var c2 := Next(c1, SetStopping);
    var c3 := Next(c2, Owner(P.StartClose));
    CancelNone(c2.base.pool.(stopping := true));
    s := Next(c3, Owner(P.WaitOver));
    RunsSnoc(a, ONE, c, SubmitAgain(false));
    RunsSnoc(a, ONE + [SubmitAgain(false)], c1, SetStopping);
    RunsSnoc(a, ONE + [SubmitAgain(false)] + [SetStopping], c2, Owner(P.StartClose));
    RunsSnoc(a, ONE + [SubmitAgain(false)] + [SetStopping] + [Owner(P.StartClose)], c3, Owner(P.WaitOver));
  }

  /** A pool of two with the callback of transfer 0 about to submit. */
  const TWO: seq<Step> := [Owner(P.SubmitNext(true))] + [Owner(P.SubmitNext(true))] + LOOKED

  lemma TwoLooked(cap: nat) returns (s: State)
    ensures Runs(Opened(2, cap), TWO, s) && s.mid == Checked(0) && s.base.owner.Ready?
    ensures s.base.pool == P.Pool([P.Urb(false, P.Idle), P.Urb(false, P.InFlight)], 0, false)
  {
    var (a, submit) := (Opened(2, cap), Owner(P.SubmitNext(true)));
    var b := Next(a, submit);
    var c := Next(b, submit);
    RunsSnoc(a, [], a, submit);
    assert [] + [submit] == [submit];
    RunsSnoc(a, [submit], b, submit);
    assert c.base.pool.urbs == [P.Urb(false, P.InFlight), P.Urb(false, P.InFlight)];
    Looks(a, [submit] + [submit], c);
    s := State(WithPool(c.base, P.SetXfer(c.base.pool, 0, P.Idle)), Checked(0));
  }

  /** After the cancel loop the callback submits transfer 0, and the cancelled transfer 1 comes
      back. */
  const REST: seq<Step> := [SubmitAgain(true)] + [Finish(1, P.Cancelled, [])] + [Enter] + [Owner(P.WaitOver)]

  lemma CancelledThenSubmitted(a: State, steps: seq<Step>, t: State) returns (s: State)
    requires Runs(a, steps, t) && t.mid == Checked(0) && P.Waiting(t.base.owner) && t.base.pool.pending == 1
    requires t.base.pool.urbs == [P.Urb(true, P.Idle), P.Urb(true, P.Cancelling)]
    ensures Runs(a, steps + REST, s) && |s.base.pool.urbs| == 2 && s.base.pool.urbs[0].xfer.InFlight?
    ensures s.base.owner == if t.base.owner.OpenWait? then P.OpenFailed
                            else if t.base.owner.CloseWait? then P.Closed else P.Resubmitting(0)
  {
    var back := Finish(1, P.Cancelled, []);
    var t1 := Next(t, SubmitAgain(true));
    var t2 := Next(t1, back);
    var t3 := Next(t2, Enter);
    s := Next(t3, Owner(P.WaitOver));
    RunsSnoc(a, steps, t, SubmitAgain(true));
    RunsSnoc(a, steps + [SubmitAgain(true)], t1, back);
    RunsSnoc(a, steps + [SubmitAgain(true)] + [back], t2, Enter);
    RunsSnoc(a, steps + [SubmitAgain(true)] + [back] + [Enter], t3, Owner(P.WaitOver));
    assert steps + REST == steps + [SubmitAgain(true)] + [back] + [Enter] + [Owner(P.WaitOver)];
  }

  lemma CancelTwo(s: State, step: Step)
    requires s.base.pool == P.Pool([P.Urb(false, P.Idle), P.Urb(false, P.InFlight)], 0, false)
    requires s.base.owner.Ready? && (step == Owner(P.StartClose) || step == Owner(P.StartRestart))
    ensures var q := Next(s, step).base.pool;
            q.urbs == [P.Urb(true, P.Idle), P.Urb(true, P.Cancelling)] && q.pending == 1
  {
    var p := if step.step.StartClose? then s.base.pool.(stopping := true) else s.base.pool;
    assert P.CancelFirst(p, 1) == P.CancelOne(P.CancelFirst(p, 0), 0);
    assert P.CancelFirst(p, 2) == P.CancelOne(P.CancelFirst(p, 1), 1);
  }

  /** A pool of two: close frees transfer 0 while it is in flight. */
  lemma FreedInFlight(cap: nat) returns (s: State)
    ensures Runs(Opened(2, cap), TWO + [Owner(P.StartClose)] + REST, s)
    ensures s.base.owner.Closed? && |s.base.pool.urbs| == 2 && s.base.pool.urbs[0].xfer.InFlight?
  {
    var b := TwoLooked(cap);
    CancelTwo(b, Owner(P.StartClose));
    RunsSnoc(Opened(2, cap), TWO, b, Owner(P.StartClose));
    s := CancelledThenSubmitted(Opened(2, cap), TWO + [Owner(P.StartClose)], Next(b, Owner(P.StartClose)));
  }

  /** A pool of two: restart goes on to submit transfer 0 while it is in flight. */
  lemma SubmittedTwice(cap: nat) returns (s: State)
    ensures Runs(Opened(2, cap), TWO + [Owner(P.StartRestart)] + REST, s)
    ensures s.base.owner == P.Resubmitting(0) && Clash(s)
  {
    var b := TwoLooked(cap);
    CancelTwo(b, Owner(P.StartRestart));
    RunsSnoc(Opened(2, cap), TWO, b, Owner(P.StartRestart));
    s := CancelledThenSubmitted(Opened(2, cap), TWO + [Owner(P.StartRestart)], Next(b, Owner(P.StartRestart)));
  }

  // ---- what holds in between --------------------------------------------------------------

  /** For a live stream with two transfers or more, the one bad moment is the one between the
      callback's look at the flags and its submit. */
  lemma LiveMayCancelIff(s: State, step: Step)
    requires Tidy(s) && s.base.owner.Ready? && !s.base.pool.stopping && 2 <= |s.base.pool.urbs|
    ensures MayCancel(s, step) <==> !s.mid.Checked?
  {
    var p := s.base.pool;
    if !s.mid.Between? {
      var j := if s.mid.i == 0 then 1 else 0;
      assert p.urbs[j].xfer.InFlight?;
    }
  }

  /** pending_cancel is exact in every run, careful or not. */
  lemma PendingStaysExact(s: State, step: Step)
    requires Enabled(s, step) && s.base.pool.pending == Owed(s)
    ensures Next(s, step).base.pool.pending == Owed(Next(s, step))
  {
    var p := s.base.pool;
    match step
    case Owner(SubmitNext(_)) =>
      var n := s.base.owner.next;
      P.CountsUpdate(p.urbs, n, p.urbs[n].(xfer := P.InFlight));
      P.CancelFirstEffect(p.(stopping := true), n);
    case Owner(WaitOver) => UnmarkCounts(p, |p.urbs|);
    case Owner(StartClose) => P.CancelFirstEffect(p.(stopping := true), |p.urbs|);
    case Owner(StartRestart) => P.CancelFirstEffect(p, |p.urbs|);
    case Finish(i, _, _) => P.CountsUpdate(p.urbs, i, p.urbs[i].(xfer := P.Idle));
    case SubmitAgain(_) => P.CountsUpdate(p.urbs, s.mid.i, p.urbs[s.mid.i].(xfer := P.InFlight));
    case _ =>
  }

  lemma {:induction false} UnmarkCounts(p: P.Pool, n: nat)
    requires n <= |p.urbs|
    ensures P.Outstanding(P.Unmark(p).urbs[..n]) == P.Outstanding(p.urbs[..n])
    ensures P.Unmark(p).urbs[..|p.urbs|] == P.Unmark(p).urbs && p.urbs[..|p.urbs|] == p.urbs
    decreases n
  {
    if 0 < n {
      UnmarkCounts(p, n - 1);
      assert p.urbs[..n][..n - 1] == p.urbs[..n - 1];
      assert P.Unmark(p).urbs[..n][..n - 1] == P.Unmark(p).urbs[..n - 1];
    }
  }

  /** The ring and its history stay in step under every interleaving, harmless or not. */
  lemma StepKeepsHistory(s: State, step: Step)
    requires R.Inv(s.base.hist) && Enabled(s, step)
    ensures R.Inv(Next(s, step).base.hist)
  {
    match step
    case Owner(ReadRing(want)) => R.ReadKeeps(s.base.hist, s.base.pool.stopping, want);
    case Push => R.PushKeeps(s.base.hist, s.mid.data);
    case _ =>
  }

  /** Bytes that the callback under way has decided to push. */
  function Decided(mid: Mid): seq<byte> {
    if mid.Pushing? then mid.data else []
  }

  /** A stopping stream receives at most what a callback that had read `stopping` in time has
      still to push. */
  lemma {:induction false} StoppingLetsOnePushIn(s: State, steps: seq<Step>, s': State)
    requires s.base.pool.stopping && Runs(s, steps, s')
    ensures s'.base.pool.stopping
    ensures s'.base.hist.pushed + Decided(s'.mid) == s.base.hist.pushed + Decided(s.mid)
    decreases |steps|
  {
    if steps != [] {
      StoppingStep(s, steps[0]);
      StoppingLetsOnePushIn(Next(s, steps[0]), steps[1..], s');
    }
  }

  lemma StoppingStep(s: State, step: Step)
    requires s.base.pool.stopping && Enabled(s, step)
    ensures var t := Next(s, step);
            t.base.pool.stopping && t.base.hist.pushed + Decided(t.mid) == s.base.hist.pushed + Decided(s.mid)
  {
    if step.Owner? {
      P.StoppingIsFinal(s.base, step.step);
    }
  }
}
