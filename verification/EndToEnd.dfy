/** From URB completions to packets on standard output: the stream machine of CallbackRace,
    with the callback in its parts, and the framer of Framer run together, the framer reading
    through usbq_stream_read. */
module EndToEnd {
  import opened Bytes
  import opened Framer
  import R = Ring
  import P = StreamProtocol
  import C = CallbackRace

  // ---- the framer on an aligned stream ----------------------------------------

  /** A sync byte at every multiple of 188. */
  ghost predicate Aligned(s: seq<byte>) {
    forall i :: 0 <= i < |s| && i % TS_PACKET == 0 ==> s[i] == SYNC
  }

  function Multiples(n: nat): seq<nat> {
    seq(n, k requires 0 <= k => TS_PACKET * k)
  }

  /** The first n packets of the stream that pass the filter. */
  function MatchingPackets(s: seq<byte>, n: nat, filter: PidFilter): seq<seq<byte>>
    requires TS_PACKET * n <= |s|
  {
    if n == 0 then []
    else
      MatchingPackets(s, n - 1, filter) + Kept(filter, Packet(s, TS_PACKET * (n - 1)))
  }

  lemma {:induction false} SelectedMultiples(s: seq<byte>, n: nat, filter: PidFilter)
    requires TS_PACKET * n <= |s|
    ensures Selected(s, Multiples(n), filter) == MatchingPackets(s, n, filter)
    decreases n
  {
    if 0 < n {
      assert Multiples(n)[..n - 1] == Multiples(n - 1);
      SelectedMultiples(s, n - 1, filter);
    }
  }

  /** With c bytes of stage consumed, exactly the packets before the read position have
      been taken and nothing was skipped. */
  ghost predicate OnTrack(s: seq<byte>, f: Framer, c: nat) {
    && f.base <= |s| && f.stage == s[f.base..] && c <= |f.stage|
    && f.badSync == 0 && f.taken == Multiples(f.total) && f.base + c == TS_PACKET * f.total
  }

  lemma EmitOnTrack(s: seq<byte>, f: Framer, filter: PidFilter, c: nat)
    requires Aligned(s) && OnTrack(s, f, c) && c + TS_PACKET <= |f.stage|
    ensures f.stage[c] == SYNC && OnTrack(s, Emit(f, filter, c), c + TS_PACKET)
  {
    assert f.stage[c] == s[f.base + c];
    assert Emit(f, filter, c).taken == Multiples(f.total + 1);
  }

  lemma {:induction false} DrainOnTrack(s: seq<byte>, f: Framer, filter: PidFilter, c: nat)
    requires Aligned(s) && OnTrack(s, f, c) && f.locked
    ensures var (g, c') := Drain(f, filter, c); OnTrack(s, g, c') && g.locked
    decreases |f.stage| - c
  {
    if c + TS_PACKET <= |f.stage| {
      EmitOnTrack(s, f, filter, c);
      DrainOnTrack(s, Emit(f, filter, c), filter, c + TS_PACKET);
    }
  }

  lemma FinishOnTrack(s: seq<byte>, f: Framer, filter: PidFilter)
    requires Aligned(s) && OnTrack(s, f, 0) && f.locked
    ensures var g := Finish(f, filter); OnTrack(s, g, 0) && g.locked && |g.stage| < TS_PACKET
  {
    DrainOnTrack(s, f, filter, 0);
  }

  /** Where the framer stands after reading all of s, s being aligned. */
  ghost predicate Settled(s: seq<byte>, f: Framer) {
    OnTrack(s, f, 0) && (if TS_PACKET < |s| then f.locked && |f.stage| < TS_PACKET else !f.locked && f.total == 0)
  }

  lemma FeedSettled(s: seq<byte>, f: Framer, filter: PidFilter, chunk: seq<byte>)
    requires Aligned(s + chunk) && Settled(s, f)
    ensures Settled(s + chunk, Feed(f, filter, chunk))
  {
    var all := s + chunk;
    if chunk == [] {
      assert all == s;
      return;
    }
    var g := f.(stage := f.stage + chunk);
    assert g.stage == all[f.base..];
    if f.locked {
      FinishOnTrack(all, g, filter);
    } else if TS_PACKET < |all| {
      assert SyncAt(g.stage, 0);
      assert FindSync(g.stage, 0) == Some(0);
      FinishOnTrack(all, Lock(g, 0), filter);
    } else {
      assert FindSync(g.stage, 0) == None;
    }
  }

  lemma {:induction false} FeedsSettled(filter: PidFilter, chunks: seq<seq<byte>>)
    requires Aligned(Concat(chunks))
    ensures Settled(Concat(chunks), Feeds(START, filter, chunks))
    decreases |chunks|
  {
    if chunks != [] {
      var n := |chunks| - 1;
      assert forall i :: 0 <= i < |Concat(chunks[..n])| ==> Concat(chunks[..n])[i] == Concat(chunks)[i];
      FeedsSettled(filter, chunks[..n]);
      FeedSettled(Concat(chunks[..n]), Feeds(START, filter, chunks[..n]), filter, chunks[n]);
    }
  }

  // ---- the two machines together -------------------------------------------------

  /** `chunks` is history: what each read_ts returned. `over`: a read failed and the
      tool has left its loop. */
  datatype Sys = Sys(stream: C.State, framer: Framer, chunks: seq<seq<byte>>, over: bool)

  /** The dump tool is the only reader; everything else is any step of the stream. */
  datatype SysStep = Stream(step: C.Step) | Dump

  function Want(f: Framer): nat {
    if |f.stage| <= STAGE_SZ then Min(STAGE_SZ - |f.stage|, READ_SZ) else 0
  }

  predicate Enabled(y: Sys, step: SysStep) {
    match step
    case Stream(t) => !(t.Owner? && t.step.ReadRing?) && C.Enabled(y.stream, t)
    case Dump => !y.over && C.Enabled(y.stream, C.Owner(P.ReadRing(Want(y.framer))))
  }

  function Next(y: Sys, filter: PidFilter, step: SysStep): Sys
    requires Enabled(y, step)
  {
    match step
    case Stream(t) => y.(stream := C.Next(y.stream, t))
    case Dump =>
      var want := Want(y.framer);
      var stream := C.Next(y.stream, C.Owner(P.ReadRing(want)));
      match R.Read(y.stream.base.hist.ring, y.stream.base.pool.stopping, want).1
      case Error(_) => y.(stream := stream, over := true)
      case Data(bytes) =>
        y.(stream := stream, framer := Feed(y.framer, filter, bytes), chunks := y.chunks + [bytes])
  }

  predicate Runs(y: Sys, filter: PidFilter, steps: seq<SysStep>, y': Sys)
    decreases |steps|
  {
    if steps == [] then y' == y
    else Enabled(y, steps[0]) && Runs(Next(y, filter, steps[0]), filter, steps[1..], y')
  }

  function Init(depth: nat, cap: nat): Sys {
    Sys(C.Opened(depth, cap), START, [], false)
  }

  ghost predicate Inv(y: Sys, filter: PidFilter) {
    && R.Inv(y.stream.base.hist)
    && Concat(y.chunks) == y.stream.base.hist.delivered
    && y.framer == Feeds(START, filter, y.chunks)
  }

  /** One more read. */
  lemma FeedsSnoc(filter: PidFilter, chunks: seq<seq<byte>>, bytes: seq<byte>)
    ensures Concat(chunks + [bytes]) == Concat(chunks) + bytes
    ensures Feeds(START, filter, chunks + [bytes]) == Feed(Feeds(START, filter, chunks), filter, bytes)
  {
    assert (chunks + [bytes])[..|chunks|] == chunks;
  }

  lemma StreamLeavesFramer(y: Sys, filter: PidFilter, t: C.Step)
    requires Enabled(y, Stream(t))
    ensures var y' := Next(y, filter, Stream(t));
            && y'.framer == y.framer && y'.chunks == y.chunks
            && y'.stream.base.hist.delivered == y.stream.base.hist.delivered
  {
  }

  lemma StepKeeps(y: Sys, filter: PidFilter, step: SysStep)
    requires Inv(y, filter) && Enabled(y, step)
    ensures Inv(Next(y, filter, step), filter)
  {
    match step
    case Stream(t) =>
      StreamLeavesFramer(y, filter, t);
      C.StepKeepsHistory(y.stream, t);
    case Dump =>
      var want := Want(y.framer);
      C.StepKeepsHistory(y.stream, C.Owner(P.ReadRing(want)));
      var res := R.Read(y.stream.base.hist.ring, y.stream.base.pool.stopping, want).1;
      if res.Data? {
        FeedsSnoc(filter, y.chunks, res.bytes);
      }
  }

  lemma {:induction false} RunKeeps(y: Sys, filter: PidFilter, steps: seq<SysStep>, y': Sys)
    requires Inv(y, filter) && Runs(y, filter, steps, y')
    ensures Inv(y', filter)
    decreases |steps|
  {
    if steps != [] {
      StepKeeps(y, filter, steps[0]);
      RunKeeps(Next(y, filter, steps[0]), filter, steps[1..], y');
    }
  }

  ghost predicate Reachable(y: Sys, filter: PidFilter) {
    exists depth: nat, cap: nat, steps :: 0 < depth && 0 < cap && Runs(Init(depth, cap), filter, steps, y)
  }

  lemma ReachableInv(y: Sys, filter: PidFilter)
    requires Reachable(y, filter)
    ensures Inv(y, filter)
  {
    var depth: nat, cap: nat, steps :| 0 < depth && 0 < cap && Runs(Init(depth, cap), filter, steps, y);
    R.InitInv(cap);
    RunKeeps(Init(depth, cap), filter, steps, y);
  }

  /** How many packets an aligned stream of r bytes yields: the lock needs one byte of
      the second packet. */
  function Expected(r: nat): nat {
    if r <= TS_PACKET then 0 else r / TS_PACKET
  }

  lemma SettledMeans(s: seq<byte>, d: seq<byte>, f: Framer, filter: PidFilter)
    requires d <= s && Settled(d, f) && Sound(d, f, filter, 0)
    ensures f.total == Expected(|d|) && TS_PACKET * f.total <= |d|
    ensures f.written == MatchingPackets(s, f.total, filter)
  {
    SelectedExtends(d, s, f.taken, filter);
    SelectedMultiples(s, f.total, filter);
  }

  /** End to end, for every interleaving of the parts of callbacks, resubmit failures, restarts,
      reads and close, and every sizing of the transfers: when nothing overflowed or was
      flushed and the device sent an aligned stream, the tool has processed exactly the
      whole packets among the bytes read and written those that match, in order. */
  lemma DumpsExactlyTheStream(y: Sys, filter: PidFilter)
    requires Reachable(y, filter)
    requires y.stream.base.hist.ring.overflow == 0 && y.stream.base.hist.flushed == 0
    requires Aligned(y.stream.base.hist.pushed)
    ensures var (s, n) := (y.stream.base.hist.pushed, Expected(|y.stream.base.hist.delivered|));
            && TS_PACKET * n <= |s|
            && y.framer.total == n && y.framer.badSync == 0 && y.framer.taken == Multiples(n)
            && y.framer.written == MatchingPackets(s, n, filter)
            && y.framer.matched == |y.framer.written|
  {
    ReachableInv(y, filter);
    R.LosslessIsPrefix(y.stream.base.hist);
    var (s, d) := (y.stream.base.hist.pushed, y.stream.base.hist.delivered);
    assert forall i :: 0 <= i < |d| ==> d[i] == s[i];
    FeedsSettled(filter, y.chunks);
    FeedsSound(filter, y.chunks);
    SettledMeans(s, d, y.framer, filter);
  }

  /** In every run, aligned or not, each read of the tool asks for at least one byte, so
      it never provokes the EINVAL answer, and what it gets fits the staging buffer. */
  lemma ReadsAlwaysFit(y: Sys, filter: PidFilter)
    requires Reachable(y, filter)
    ensures 0 < Want(y.framer) && |y.framer.stage| + Want(y.framer) <= STAGE_SZ
    ensures Want(y.framer) == if |y.framer.stage| < 188 then 49152 else 49340 - |y.framer.stage|
    ensures R.Read(y.stream.base.hist.ring, y.stream.base.pool.stopping, Want(y.framer)).1 != R.Error(EINVAL)
  {
    ReachableInv(y, filter);
    FeedsSound(filter, y.chunks);
    ReadFits(y.framer);
  }
}
