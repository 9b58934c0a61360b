/** struct usbq_stream of usbq/src/usbq.c: the array ring and the URB pool, with the
    C functions as methods. Each is proved against Ring (contents, overflow) and
    StreamProtocol (pool); `willing` and the like stand for libusb's answers. */
module UsbqStream {
  import opened Bytes
  import R = Ring
  import P = StreamProtocol

  // ---- index arithmetic of the wrapped ring ---------------------------------

  function Wrap(x: nat, cap: nat): (r: nat)
    requires x < 2 * cap
    ensures r < cap
  {
    if x < cap then x else x - cap
  }

  lemma ModIsWrap(x: nat, cap: nat)
    requires 0 < cap && x < 2 * cap
    ensures x % cap == Wrap(x, cap)
  {
    if cap <= x {
      assert x == cap * 1 + (x - cap);
      assert x / cap == 1;
    }
  }

  /** The u bytes found from index h on, wrapping at the end of a. */
  function Window(a: seq<byte>, h: nat, u: nat): (r: seq<byte>)
    requires h < |a| && u <= |a|
    ensures |r| == u && forall i :: 0 <= i < u ==> r[i] == a[Wrap(h + i, |a|)]
  {
    seq(u, i requires 0 <= i < u => a[Wrap(h + i, |a|)])
  }

  lemma WindowDrop(a: seq<byte>, h: nat, u: nat, n: nat)
    requires h < |a| && n <= u <= |a|
    ensures Window(a, Wrap(h + n, |a|), u - n) == Window(a, h, u)[n..]
  {
    var (l, r) := (Window(a, Wrap(h + n, |a|), u - n), Window(a, h, u));
    forall i | 0 <= i < u - n ensures l[i] == r[n..][i] {
      assert Wrap(Wrap(h + n, |a|) + i, |a|) == Wrap(h + (n + i), |a|);
    }
  }

  /** a after the (at most two) copies of data to the free part that starts at t. */
  ghost predicate Written(a: seq<byte>, t: nat, data: seq<byte>, a': seq<byte>) {
    && |a'| == |a| && t < |a| && |data| <= |a|
    && (forall i :: 0 <= i < |data| ==> a'[Wrap(t + i, |a|)] == data[i])
    && (forall k :: 0 <= k < |a| && !(t <= k < t + |data|) && !(k < t + |data| - |a|) ==> a'[k] == a[k])
  }

  lemma WindowAppend(a: seq<byte>, h: nat, u: nat, data: seq<byte>, a': seq<byte>)
    requires h < |a| && u + |data| <= |a| && u < |a|
    requires Written(a, Wrap(h + u, |a|), data, a')
    ensures Window(a', h, u + |data|) == Window(a, h, u) + data
  {
    var t := Wrap(h + u, |a|);
    forall i | 0 <= i < u + |data|
      ensures a'[Wrap(h + i, |a|)] == (Window(a, h, u) + data)[i]
    {
      if u <= i {
        assert Wrap(h + i, |a|) == Wrap(t + (i - u), |a|);
      }
    }
  }

  /** Trimming the source first and dropping from the head afterwards is one push. */
  lemma PushInTwoTrims(r: R.Ring, src: seq<byte>)
    requires R.Valid(r)
    ensures var data := LastN(src, r.cap);
            var drop := R.Excess(|r.q| + |data|, r.cap);
            && drop <= |r.q|
            && R.Push(r, src) ==
               R.Ring(r.cap, r.q[drop..] + data, r.overflow + R.Excess(|src|, r.cap) + drop)
  {
    if r.cap <= |src| {
      LastOfSecond(r.q, src, r.cap);
    } else {
      LastOfBoth(r.q, src, r.cap);
    }
  }

  lemma LastOfSecond(q: seq<byte>, src: seq<byte>, cap: nat)
    requires cap <= |src|
    ensures LastN(q + src, cap) == LastN(src, cap) == q[|q|..] + LastN(src, cap)
  {
    assert (q + src)[|q| + |src| - cap..] == src[|src| - cap..];
  }

  lemma LastOfBoth(q: seq<byte>, src: seq<byte>, cap: nat)
    requires |src| < cap && |q| <= cap
    ensures LastN(src, cap) == src
    ensures var drop := R.Excess(|q| + |src|, cap); drop <= |q| && LastN(q + src, cap) == q[drop..] + src
  {
    var drop := R.Excess(|q| + |src|, cap);
    assert (q + src)[drop..] == q[drop..] + src;
  }

  lemma IsPush(r: R.Ring, src: seq<byte>, data: seq<byte>, after: R.Ring)
    requires R.Valid(r) && data == LastN(src, r.cap) && R.Excess(|r.q| + |data|, r.cap) <= |r.q|
    requires var drop := R.Excess(|r.q| + |data|, r.cap);
             after == R.Ring(r.cap, r.q[drop..] + data, r.overflow + R.Excess(|src|, r.cap) + drop)
    ensures after == R.Push(r, src)
  {
    PushInTwoTrims(r, src);
  }

  /** memcpy into an array. */
  method CopyTo(dst: array<byte>, d: nat, src: seq<byte>)
    requires d + |src| <= dst.Length
    modifies dst
    ensures forall k :: 0 <= k < dst.Length ==>
              dst[k] == if d <= k < d + |src| then src[k - d] else old(dst[k])
  {
    forall k | 0 <= k < |src| {
      dst[d + k] := src[k];
    }
  }

  /** The two copies of ring_push_locked: to the tail, then what is left to the start. */
  method CopyIn(ring: array<byte>, tail: nat, data: seq<byte>)
    requires tail < ring.Length && |data| <= ring.Length
    modifies ring
    ensures Written(old(ring[..]), tail, data, ring[..])
  {
    var first := ring.Length - tail;
    if first > |data| {
      first := |data|;
    }
    CopyTo(ring, tail, data[..first]);
    if first < |data| {
      CopyTo(ring, 0, data[first..]);
    }
  }

  /** The two copies of usbq_stream_read: from the head, then from the start. */
  method CopyOut(ring: array<byte>, head: nat, want: nat, buf: array<byte>)
    requires head < ring.Length && want <= ring.Length && want <= buf.Length && buf != ring
    modifies buf
    ensures forall k :: 0 <= k < want ==> buf[k] == ring[Wrap(head + k, ring.Length)]
    ensures forall k :: want <= k < buf.Length ==> buf[k] == old(buf[k])
  {
    var first := ring.Length - head;
    if first > want {
      first := want;
    }
    CopyTo(buf, 0, ring[head..head + first]);
    if first < want {
      CopyTo(buf, first, ring[..want - first]);
    }
  }

  /** A transfer that finishes while the owner is elsewhere, and libusb's answer to its
      resubmit. */
  datatype Delivery = Delivery(i: nat, status: P.Status, data: seq<byte>, willing: bool)

  /** What callbacks push, oldest first. */
  datatype Chunks = Nothing | Then(before: Chunks, data: seq<byte>)

  function PushAll(r: R.Ring, chunks: Chunks): R.Ring {
    match chunks
    case Nothing => r
    case Then(before, data) => R.Push(PushAll(r, before), data)
  }

  /** b is a after some pushes and nothing else. */
  ghost predicate Fed(a: R.Ring, b: R.Ring) {
    exists chunks :: b == PushAll(a, chunks)
  }

  lemma FedSelf(a: R.Ring)
    ensures Fed(a, a)
  {
    assert PushAll(a, Nothing) == a;
  }

  lemma FedPush(a: R.Ring, b: R.Ring, data: seq<byte>)
    requires Fed(a, b)
    ensures Fed(a, R.Push(b, data))
  {
    var chunks :| b == PushAll(a, chunks);
    assert PushAll(a, Then(chunks, data)) == R.Push(b, data);
  }

  lemma FedOn(a: R.Ring, b: R.Ring, c: R.Ring)
    requires Fed(a, b) && Fed(b, c)
    ensures Fed(a, c)
  {
    var chunks :| c == PushAll(b, chunks);
    FedAll(a, b, chunks);
  }

  lemma {:induction false} FedAll(a: R.Ring, b: R.Ring, chunks: Chunks)
    requires Fed(a, b)
    ensures Fed(a, PushAll(b, chunks))
    decreases chunks
  {
    if chunks.Then? {
      FedAll(a, b, chunks.before);
      FedPush(a, PushAll(b, chunks.before), chunks.data);
    }
  }

  /** The ring after a transfer has brought `data`: it enters if the transfer completed or timed out
      and the stream is not stopping. */
  function Arrived(r: R.Ring, stopping: bool, status: P.Status, data: seq<byte>): R.Ring {
    if (status == P.Completed || status == P.TimedOut) && !stopping then R.Push(r, data) else r
  }

  /** Pool and ring after what has finished has been delivered, oldest first. What libusb does
      not own cannot finish. */
  function Served(p: P.Pool, r: R.Ring, round: seq<Delivery>): (P.Pool, R.Ring) {
    if round == [] then (p, r)
    else
      var (d, (q, s)) := (round[|round| - 1], Served(p, r, round[..|round| - 1]));
      if d.i < |q.urbs| && q.urbs[d.i].xfer == (if d.status.Cancelled? then P.Cancelling else P.InFlight) then
        (P.Callback(q, d.i, d.status, d.willing), Arrived(s, q.stopping, d.status, d.data))
      else (q, s)
  }

  function ServedRounds(p: P.Pool, r: R.Ring, rounds: seq<seq<Delivery>>): (P.Pool, R.Ring)
    decreases |rounds|
  {
    if rounds == [] then (p, r)
    else
      var (q, s) := Served(p, r, rounds[0]);
      ServedRounds(q, s, rounds[1..])
  }

  /** A wait from wake-up k on: how many there are in the end, and what it leaves. */
  function Waited(p: P.Pool, r: R.Ring, rounds: seq<seq<Delivery>>, k: nat): (nat, P.Pool, R.Ring)
    requires k <= |rounds|
    decreases |rounds| - k
  {
    if k == |rounds| || r.q != [] || p.stopping then (k, p, r)
    else
      var (q, s) := Served(p, r, rounds[k]);
      Waited(q, s, rounds, k + 1)
  }

  /** It ends at the first wake-up that finds bytes or a stopping stream, or else with the last. */
  lemma {:induction false} WaitedMeans(p: P.Pool, r: R.Ring, rounds: seq<seq<Delivery>>, k: nat)
    requires k <= |rounds|
    ensures var (n, q, s) := Waited(p, r, rounds, k);
            && k <= n <= |rounds| && (q, s) == ServedRounds(p, r, rounds[k..n])
            && (n < |rounds| ==> s.q != [] || q.stopping)
            && (n == k ==> q == p && s == r)
            && (r.q != [] || p.stopping ==> n == k)
            && forall j :: k <= j < n ==>
                 var (b, a) := ServedRounds(p, r, rounds[k..j]); a.q == [] && !b.stopping
    decreases |rounds| - k
  {
    if k < |rounds| && r.q == [] && !p.stopping {
      var (q, s) := Served(p, r, rounds[k]);
      WaitedMeans(q, s, rounds, k + 1);
      var n := Waited(q, s, rounds, k + 1).0;
      assert forall j :: k < j <= n ==> rounds[k..j] != [] && rounds[k..j][0] == rounds[k]
                                        && rounds[k..j][1..] == rounds[k + 1..j];
    }
  }

  /** What is served only feeds the ring. */
  lemma {:induction false} ServedFeeds(p: P.Pool, r: R.Ring, round: seq<Delivery>)
    ensures Fed(r, Served(p, r, round).1)
    decreases |round|
  {
    FedSelf(r);
    if round != [] {
      var n := |round| - 1;
      ServedFeeds(p, r, round[..n]);
      FedPush(r, Served(p, r, round[..n]).1, round[n].data);
    }
  }

  lemma {:induction false} WaitedFeeds(p: P.Pool, r: R.Ring, rounds: seq<seq<Delivery>>, k: nat)
    requires k <= |rounds|
    ensures Fed(r, Waited(p, r, rounds, k).2)
    decreases |rounds| - k
  {
    FedSelf(r);
    if k < |rounds| {
      var (q, s) := Served(p, r, rounds[k]);
      ServedFeeds(p, r, rounds[k]);
      WaitedFeeds(q, s, rounds, k + 1);
      FedOn(r, s, Waited(q, s, rounds, k + 1).2);
    }
  }

  lemma WaitedStep(p: P.Pool, r: R.Ring, rounds: seq<seq<Delivery>>, k: nat)
    requires k <= |rounds|
    ensures Waited(p, r, rounds, k) ==
            if k == |rounds| || r.q != [] || p.stopping then (k, p, r)
            else Waited(Served(p, r, rounds[k]).0, Served(p, r, rounds[k]).1, rounds, k + 1)
  {
  }

  lemma ServedNext(p: P.Pool, r: R.Ring, round: seq<Delivery>, k: nat)
    requires k < |round|
    ensures var (d, (q, s)) := (round[k], Served(p, r, round[..k]));
            Served(p, r, round[..k + 1]) ==
            if d.i < |q.urbs| && q.urbs[d.i].xfer == (if d.status.Cancelled? then P.Cancelling else P.InFlight) then
              (P.Callback(q, d.i, d.status, d.willing), Arrived(s, q.stopping, d.status, d.data))
            else (q, s)
  {
    assert round[..k + 1][..k] == round[..k];
  }

  /** What the owner has libusb do, with libusb's verdict. */
  datatype Call = Submit(i: nat, ok: bool) | Cancel(i: nat, ok: bool)

  /** A cancel loop over the first n transfers asks for each that is not marked. */
  function CancelCalls(urbs: seq<P.Urb>, n: nat): seq<Call>
    requires n <= |urbs|
  {
    if n == 0 then []
    else
      CancelCalls(urbs, n - 1) + if urbs[n - 1].marked then [] else [Cancel(n - 1, urbs[n - 1].xfer.InFlight?)]
  }

  /** In a pool without marks, for each of them in turn. */
  lemma {:induction false} CancelsEach(urbs: seq<P.Urb>, n: nat)
    requires n <= |urbs| && forall k :: 0 <= k < n ==> !urbs[k].marked
    ensures CancelCalls(urbs, n) == seq(n, k requires 0 <= k < n => Cancel(k, urbs[k].xfer == P.InFlight))
    decreases n
  {
    if 0 < n {
      CancelsEach(urbs, n - 1);
    }
  }

  /** Submits of the first n, all accepted. */
  function Accepted(n: nat): seq<Call> {
    if n == 0 then [] else Accepted(n - 1) + [Submit(n - 1, true)]
  }

  /** The first submit that is refused, or how many there are. */
  function FirstRefused(answers: seq<bool>): (n: nat)
    ensures n <= |answers| && (forall k :: 0 <= k < n ==> answers[k]) && (n < |answers| ==> !answers[n])
  {
    if answers == [] || !answers[0] then 0 else 1 + FirstRefused(answers[1..])
  }

  /** Cancels of the first n, whatever the verdict. */
  predicate CancelsInTurn(cs: seq<Call>, n: nat) {
    |cs| == n && forall k :: 0 <= k < n ==> cs[k] == Cancel(k, true) || cs[k] == Cancel(k, false)
  }

  /** A submit loop asks for each in turn, up to that one. */
  function LoopCalls(answers: seq<bool>): seq<Call> {
    Asked(FirstRefused(answers), |answers|)
  }

  function Asked(n: nat, all: nat): seq<Call> {
    Accepted(n) + if n < all then [Submit(n, false)] else []
  }

  lemma OneMore(before: seq<Call>, n: nat, all: nat)
    requires n < all
    ensures before + Accepted(n) + [Submit(n, true)] == before + Accepted(n + 1)
    ensures before + Accepted(n) + [Submit(n, false)] == before + Asked(n, all)
    ensures Asked(all, all) == Accepted(all) && before + Accepted(0) == before
  {
  }

  lemma LoopStops(answers: seq<bool>, n: nat)
    requires n <= |answers| && (forall k :: 0 <= k < n ==> answers[k]) && (n < |answers| ==> !answers[n])
    ensures n == FirstRefused(answers) && LoopCalls(answers) == Asked(n, |answers|)
  {
  }

  predicate Willing(round: seq<Delivery>) {
    forall j :: 0 <= j < |round| ==> round[j].willing
  }

  predicate AllWilling(rounds: seq<seq<Delivery>>) {
    forall k :: 0 <= k < |rounds| ==> Willing(rounds[k])
  }

  class UsbqStream {
    const urbs: array<P.Urb>
    var pendingCancel: int
    var stopping: bool
    const ring: array<byte>
    var ringHead: nat
    var ringTail: nat
    var ringUsed: nat
    var overflowBytes: nat
    var calls: seq<Call>

    ghost predicate Valid()
      reads this`ringHead, this`ringTail, this`ringUsed
    {
      && (ring as object) != (urbs as object)
      && ringHead < ring.Length
      && ringUsed <= ring.Length
      && ringTail == Wrap(ringHead + ringUsed, ring.Length)
    }

    ghost function RingState(): R.Ring
      requires Valid()
      reads this`ringHead, this`ringTail, this`ringUsed, this`overflowBytes, ring
    {
      R.Ring(ring.Length, Window(ring[..], ringHead, ringUsed), overflowBytes)
    }

    ghost function PoolState(): P.Pool
      reads this`pendingCancel, this`stopping, urbs
    {
      P.Pool(urbs[..], pendingCancel, stopping)
    }

    /** The allocations of usbq_stream_open. */
    constructor (depth: nat, cap: nat)
      requires 0 < cap
      ensures Valid() && fresh(ring) && fresh(urbs)
      ensures PoolState() == P.Init(depth, cap).pool && RingState() == P.Init(depth, cap).hist.ring && calls == []
    {
      urbs := new P.Urb[depth](_ => P.Urb(false, P.Idle));
      pendingCancel, stopping := 0, false;
      ring := new byte[cap](_ => 0);
      ringHead, ringTail, ringUsed, overflowBytes := 0, 0, 0, 0;
      calls := [];
    }

    /** The overwrite-oldest half of ring_push_locked: forget `drop` bytes at the head. */
    method DropOldest(drop: nat)
      requires Valid() && drop <= ringUsed
      modifies this`ringHead, this`ringUsed, this`overflowBytes
      ensures Valid() && ringUsed == old(ringUsed) - drop
      ensures RingState() == R.Ring(ring.Length, old(RingState()).q[drop..], old(overflowBytes) + drop)
    {
      WindowDrop(ring[..], ringHead, ringUsed, drop);
      ModIsWrap(ringHead + drop, ring.Length);
      ringHead := (ringHead + drop) % ring.Length;
      ringUsed := ringUsed - drop;
      overflowBytes := overflowBytes + drop;
    }

    /** The copying half: data fits behind the tail, wrapping at the end of the array. */
    method Append(data: seq<byte>)
      requires Valid() && data != [] && ringUsed + |data| <= ring.Length
      modifies this`ringTail, this`ringUsed, ring
      ensures Valid()
      ensures RingState() == R.Ring(ring.Length, old(RingState()).q + data, old(overflowBytes))
    {
      ghost var a := ring[..];
      CopyIn(ring, ringTail, data);
      WindowAppend(a, ringHead, ringUsed, data, ring[..]);
      ModIsWrap(ringTail + |data|, ring.Length);
      ringTail := (ringTail + |data|) % ring.Length;
      ringUsed := ringUsed + |data|;
    }

    /** The overflow branch of ring_push_locked, for `len` bytes that fit an empty ring. */
    method MakeRoom(len: nat)
      requires Valid() && len <= ring.Length
      modifies this`ringHead, this`ringUsed, this`overflowBytes
      ensures Valid() && ringUsed + len <= ring.Length
      ensures ringUsed == old(ringUsed) || ringUsed + len == ring.Length
      ensures var drop := R.Excess(old(ringUsed) + len, ring.Length);
              && drop <= old(ringUsed)
              && RingState() == R.Ring(ring.Length, old(RingState()).q[drop..], old(overflowBytes) + drop)
    {
      if ringUsed + len > ring.Length {
        var drop := ringUsed + len - ring.Length;
        if drop > ringUsed {
          drop := ringUsed;
        }
        DropOldest(drop);
      }
    }

    /** ring_push_locked once the source is no longer than the ring. */
    method PushTrimmed(data: seq<byte>)
      requires Valid() && data != [] && |data| <= ring.Length
      modifies this`ringHead, this`ringTail, this`ringUsed, this`overflowBytes, ring
      ensures Valid()
      ensures var drop := R.Excess(old(ringUsed) + |data|, ring.Length);
              && drop <= old(ringUsed)
              && RingState() == R.Ring(ring.Length, old(RingState()).q[drop..] + data, old(overflowBytes) + drop)
    {
      MakeRoom(|data|);
      Append(data);
    }

    /** ring_push_locked. */
    method RingPush(src: seq<byte>)
      requires Valid()
      modifies this`ringHead, this`ringTail, this`ringUsed, this`overflowBytes, ring
      ensures Valid() && RingState() == R.Push(old(RingState()), src)
    {
      ghost var r := RingState();
      if |src| == 0 {
        R.PushNothing(r);
        return;
      }
      var data := src;
      if |data| > ring.Length {
        overflowBytes := overflowBytes + (|data| - ring.Length);
        data := data[|data| - ring.Length..];
      }
      assert data == LastN(src, ring.Length);
      assert RingState() == R.Ring(r.cap, r.q, r.overflow + R.Excess(|src|, r.cap));
      PushTrimmed(data);
      IsPush(r, src, data, RingState());
    }

    /** usbq_stream_read, once its timed wait is over. Answers a negative errno, or the
        number of bytes copied into buf. */
    method Read(buf: array<byte>) returns (rc: int)
      requires Valid() && buf != ring
      modifies this`ringHead, this`ringUsed, buf
      ensures Valid() && RingState() == R.Read(old(RingState()), stopping, buf.Length).0
      ensures match R.Read(old(RingState()), stopping, buf.Length).1
              case Error(errno) => rc + errno == 0 && buf[..] == old(buf[..])
              case Data(bytes) => rc == |bytes| && buf[..|bytes|] == bytes && buf[|bytes|..] == old(buf[|bytes|..])
      ensures rc == if buf.Length == 0 then -EINVAL
                    else if old(ringUsed) == 0 then (if stopping then -ENODEV else 0)
                    else if buf.Length < old(ringUsed) then buf.Length else old(ringUsed)
      ensures ringUsed == old(ringUsed) - if rc < 0 then 0 else rc
    {
      if buf.Length == 0 {
        return -EINVAL;
      }
      var want := buf.Length;
      if want > ringUsed {
        want := ringUsed;
      }
      if want == 0 {
        return if stopping then -ENODEV else 0;
      }
      TakeOut(buf, want);
      return want;
    }

    /** The copying half of usbq_stream_read. */
    method TakeOut(buf: array<byte>, want: nat)
      requires Valid() && buf != ring && want <= ringUsed && want <= buf.Length
      modifies this`ringHead, this`ringUsed, buf
      ensures Valid() && ringUsed == old(ringUsed) - want
      ensures RingState() == old(RingState()).(q := old(RingState()).q[want..])
      ensures buf[..want] == old(RingState()).q[..want] && buf[want..] == old(buf[want..])
    {
      CopyOut(ring, ringHead, want, buf);
      WindowDrop(ring[..], ringHead, ringUsed, want);
      ModIsWrap(ringHead + want, ring.Length);
      ringHead := (ringHead + want) % ring.Length;
      ringUsed := ringUsed - want;
    }

    /** usbq_stream_flush. */
    method Flush()
      requires Valid()
      modifies this`ringHead, this`ringTail, this`ringUsed
      ensures Valid() && RingState() == R.Flush(old(RingState()))
      ensures ringUsed == 0 && RingState() == R.Ring(ring.Length, [], old(overflowBytes))
    {
      ringHead, ringTail, ringUsed := 0, 0, 0;
    }

    /** libusb_submit_transfer on transfer i. */
    method SubmitTransfer(i: nat, willing: bool) returns (rc: int)
      requires Valid() && i < urbs.Length
      modifies urbs
      ensures Valid() && RingState() == old(RingState())
      ensures (PoolState(), rc == 0) == P.Submit(old(PoolState()), i, willing)
      ensures rc <= 0 && (rc == 0 <==> willing && old(urbs[i].xfer) == P.Idle)
      ensures urbs[..] == if rc == 0 then old(urbs[..])[i := old(urbs[i]).(xfer := P.InFlight)] else old(urbs[..])
    {
      if willing && urbs[i].xfer.Idle? {
        urbs[i] := urbs[i].(xfer := P.InFlight);
        return 0;
      }
      return -EIO;
    }

    /** libusb_cancel_transfer on transfer i. */
    method CancelTransfer(i: nat) returns (rc: int)
      requires i < urbs.Length
      modifies this`calls, urbs
      ensures calls == old(calls) + [Cancel(i, rc == 0)]
      ensures rc == 0 <==> old(urbs[i].xfer.InFlight?)
      ensures urbs[..] == if rc == 0 then old(urbs[..])[i := old(urbs[i]).(xfer := P.Cancelling)] else old(urbs[..])
    {
      calls := calls + [Cancel(i, urbs[i].xfer.InFlight?)];
      if urbs[i].xfer.InFlight? {
        urbs[i] := urbs[i].(xfer := P.Cancelling);
        return 0;
      }
      return -EIO;
    }

    /** The cancel loop shared by open's failing path, close and restart. */
    method CancelUrbs(n: nat)
      requires n <= urbs.Length
      modifies this`pendingCancel, this`calls, urbs
      ensures PoolState() == P.CancelFirst(old(PoolState()), n)
      ensures calls == old(calls) + CancelCalls(old(urbs[..]), n)
    {
      for i := 0 to n
        invariant PoolState() == P.CancelFirst(old(PoolState()), i)
        invariant calls == old(calls) + CancelCalls(old(urbs[..]), i)
      {
        P.CancelFirstAt(old(PoolState()), i, i);
        if !urbs[i].marked {
          urbs[i] := urbs[i].(marked := true);
          var rc := CancelTransfer(i);
          if rc == 0 {
            pendingCancel := pendingCancel + 1;
          }
        }
      }
    }

    /** stream_xfer_cb: libusb has just finished transfer i with `data` in its buffer. */
    method TransferCallback(i: nat, status: P.Status, data: seq<byte>, willing: bool)
      requires Valid() && i < urbs.Length
      modifies this, ring, urbs
      ensures Valid() && calls == old(calls)
      ensures PoolState() == P.Callback(old(PoolState()), i, status, willing)
      ensures RingState() == if (status == P.Completed || status == P.TimedOut) && !old(stopping)
                             then R.Push(old(RingState()), data) else old(RingState())
    {
      Retire(i);
      if status.Cancelled? {
        CountDown();
        return;
      }
      PushAndResubmit(i, status, data, willing);
    }

    /** The rest of stream_xfer_cb for a transfer that was not cancelled. */
    method PushAndResubmit(i: nat, status: P.Status, data: seq<byte>, willing: bool)
      requires Valid() && i < urbs.Length
      modifies this`ringHead, this`ringTail, this`ringUsed, this`overflowBytes, this`stopping, ring, urbs
      ensures Valid()
      ensures RingState() == if (status == P.Completed || status == P.TimedOut) && !old(stopping)
                             then R.Push(old(RingState()), data) else old(RingState())
      ensures var (p1, accepted) := P.Submit(old(PoolState()), i, willing);
              PoolState() == if old(stopping) || old(urbs[i].marked) then old(PoolState())
                             else if accepted then p1 else p1.(stopping := true)
    {
      PushArrived(status, data);
      Resubmit(i, willing);
    }

    /** libusb is done with transfer i. */
    method Retire(i: nat)
      requires Valid() && i < urbs.Length
      modifies urbs
      ensures Valid() && RingState() == old(RingState())
      ensures PoolState() == P.SetXfer(old(PoolState()), i, P.Idle)
    {
      urbs[i] := urbs[i].(xfer := P.Idle);
    }

    /** A cancelled transfer has come back. */
    method CountDown()
      modifies this`pendingCancel
      ensures pendingCancel == if old(pendingCancel) <= 1 then 0 else old(pendingCancel) - 1
    {
      pendingCancel := pendingCancel - 1;
      if pendingCancel <= 0 {
        pendingCancel := 0;
      }
    }

    /** Its push: what a transfer that completed or timed out has brought. */
    method PushArrived(status: P.Status, data: seq<byte>)
      requires Valid()
      modifies this`ringHead, this`ringTail, this`ringUsed, this`overflowBytes, ring
      ensures Valid() && PoolState() == old(PoolState())
      ensures RingState() == if (status == P.Completed || status == P.TimedOut) && !stopping
                             then R.Push(old(RingState()), data) else old(RingState())
    {
      R.PushNothing(RingState());
      if (status.Completed? || status.TimedOut?) && |data| > 0 && !stopping {
        RingPush(data);
      }
    }

    /** The end of stream_xfer_cb: back into the pool, unless the stream is stopping or the
        transfer is marked. */
    method Resubmit(i: nat, willing: bool)
      requires Valid() && i < urbs.Length
      modifies this`stopping, urbs
      ensures Valid() && RingState() == old(RingState())
      ensures var (p1, accepted) := P.Submit(old(PoolState()), i, willing);
              PoolState() == if old(stopping) || old(urbs[i].marked) then old(PoolState())
                             else if accepted then p1 else p1.(stopping := true)
      ensures stopping == (old(stopping) || (!old(urbs[i].marked) && !(willing && old(urbs[i].xfer) == P.Idle)))
    {
      if stopping || urbs[i].marked {
        return;
      }
      var rc := SubmitTransfer(i, willing);
      if rc < 0 {
        stopping := true;
      }
    }

    ghost predicate PoolInv(o: P.Owner)
      reads this`pendingCancel, this`stopping, urbs
    {
      && 0 < urbs.Length
      && pendingCancel == P.Outstanding(urbs[..])
      && P.OwnerInv(PoolState(), o)
    }

    /** The loop on pending_cancel in close, restart and open's failing path. The event
        thread delivers the awaited callbacks in any order. */
    method WaitForCancels(ghost o: P.Owner)
      requires Valid() && PoolInv(o) && P.Waiting(o)
      modifies this, ring, urbs
      ensures Valid() && PoolInv(o) && RingState() == old(RingState()) && calls == old(calls)
      ensures pendingCancel == 0 && P.AllIdle(PoolState()) && stopping == old(stopping)
    {
      while pendingCancel > 0
        invariant Valid() && PoolInv(o) && RingState() == old(RingState()) && stopping == old(stopping)
        invariant calls == old(calls)
        decreases pendingCancel
      {
        P.OutstandingZero(urbs[..]);
        var i: nat :| i < urbs.Length && urbs[i].xfer.Cancelling?;
        P.CountsUpdate(urbs[..], i, urbs[i].(xfer := P.Idle));
        TransferCallback(i, P.Cancelled, [], false);
      }
      P.OutstandingZero(urbs[..]);
    }

    /** usbq_stream_close up to its frees: they find every transfer idle. */
    method Close()
      requires Valid() && PoolInv(P.Ready)
      modifies this, ring, urbs
      ensures Valid() && PoolInv(P.Closed) && pendingCancel == 0
      ensures calls == old(calls) + CancelCalls(old(urbs[..]), urbs.Length)
      ensures stopping && forall k :: 0 <= k < urbs.Length ==> urbs[k].xfer == P.Idle
      ensures RingState() == old(RingState())
    {
      stopping := true;
      P.CancelFirstEffect(PoolState(), urbs.Length);
      CancelUrbs(urbs.Length);
      WaitForCancels(P.CloseWait);
    }

    /** The failing path of usbq_stream_open after submit i was refused. */
    method AbandonOpen(i: nat)
      requires Valid() && PoolInv(P.Opening(i))
      modifies this, ring, urbs
      ensures Valid() && RingState() == old(RingState())
      ensures PoolInv(P.OpenFailed) && pendingCancel == 0
      ensures calls == old(calls) + CancelCalls(old(urbs[..]), i)
      ensures old(calls) <= calls && CancelsInTurn(calls[|old(calls)|..], i)
      ensures stopping && forall k :: 0 <= k < urbs.Length ==> urbs[k].xfer == P.Idle
    {
      stopping := true;
      P.CancelFirstEffect(PoolState(), i);
      CancelsEach(urbs[..], i);
      CancelUrbs(i);
      WaitForCancels(P.OpenWait);
    }

    /** The event thread delivers what has finished, wherever the owner is: transfers in flight
        in any way, cancelled ones as such. What libusb does not own cannot finish. */
    method DeliverAll(round: seq<Delivery>, ghost o: P.Owner)
      requires Valid() && PoolInv(o)
      modifies this, ring, urbs
      ensures Valid() && PoolInv(o) && Fed(old(RingState()), RingState()) && calls == old(calls)
      ensures (PoolState(), RingState()) == Served(old(PoolState()), old(RingState()), round)
      ensures old(stopping) ==> stopping
      ensures !old(stopping) && Willing(round) ==> !stopping
    {
      ghost var (p0, r0) := (PoolState(), RingState());
      ServedFeeds(p0, r0, round);
      for k := 0 to |round|
        invariant Valid() && PoolInv(o) && calls == old(calls)
        invariant (PoolState(), RingState()) == Served(p0, r0, round[..k])
        invariant old(stopping) ==> stopping
        invariant !old(stopping) && (forall j :: 0 <= j < k ==> round[j].willing) ==> !stopping
      {
        var d := round[k];
        ServedNext(p0, r0, round, k);
        if d.i < urbs.Length && urbs[d.i].xfer == (if d.status.Cancelled? then P.Cancelling else P.InFlight) {
          KeepsPool(o, d);
          TransferCallback(d.i, d.status, d.data, d.willing);
        }
      }
      assert round[..|round|] == round;
    }

    lemma KeepsPool(o: P.Owner, d: Delivery)
      requires PoolInv(o) && d.i < urbs.Length
      requires urbs[d.i].xfer == (if d.status.Cancelled? then P.Cancelling else P.InFlight)
      ensures var p := P.Callback(PoolState(), d.i, d.status, d.willing);
              p.pending == P.Outstanding(p.urbs) && P.OwnerInv(p, o)
    {
      R.InitInv(1);
      var s := P.State(PoolState(), R.Init(1), o);
      if d.status.Cancelled? {
        P.DeliverCancelledKeeps(s, d.i, d.willing);
      } else {
        P.DeliverDoneKeeps(s, d.i, d.status, d.willing);
      }
    }

    /** The timed wait of usbq_stream_read, in a stream whose owner has it open or is in the
        middle of a restart: callbacks rounds[0], rounds[1], .. each wake the reader once, and
        after the last the deadline has passed. */
    method WaitForData(rounds: seq<seq<Delivery>>, ghost o: P.Owner) returns (waits: nat)
      requires Valid() && PoolInv(o) && P.Usable(o)
      modifies this, ring, urbs
      ensures Valid() && PoolInv(o) && Fed(old(RingState()), RingState())
      ensures waits <= |rounds| && (waits < |rounds| ==> ringUsed != 0 || stopping)
      ensures old(ringUsed) != 0 || old(stopping) ==> waits == 0
      ensures waits == 0 ==> RingState() == old(RingState()) && stopping == old(stopping)
      ensures (waits, PoolState(), RingState()) == Waited(old(PoolState()), old(RingState()), rounds, 0)
    {
      ghost var (p0, r0) := (PoolState(), RingState());
      ghost var want := Waited(p0, r0, rounds, 0);
      waits := 0;
      while ringUsed == 0 && !stopping && waits < |rounds|
        invariant Valid() && PoolInv(o) && waits <= |rounds|
        invariant Waited(PoolState(), RingState(), rounds, waits) == want
        decreases |rounds| - waits
      {
        WaitedStep(PoolState(), RingState(), rounds, waits);
        DeliverAll(rounds[waits], o);
        waits := waits + 1;
      }
      WaitedStep(PoolState(), RingState(), rounds, waits);
      WaitedStep(p0, r0, rounds, 0);
      WaitedMeans(p0, r0, rounds, 0);
      WaitedFeeds(p0, r0, rounds, 0);
    }

    /** usbq_stream_read with its timed wait; `found` is the ring when the wait ends. 0 is
        answered only when the whole wait has brought nothing. */
    method ReadTimed(buf: array<byte>, rounds: seq<seq<Delivery>>, ghost o: P.Owner)
      returns (rc: int, waits: nat, ghost found: R.Ring)
      requires Valid() && PoolInv(o) && P.Usable(o) && buf != ring
      modifies this, ring, urbs, buf
      ensures Valid() && Fed(old(RingState()), found) && RingState() == R.Read(found, stopping, buf.Length).0
      ensures match R.Read(found, stopping, buf.Length).1
              case Error(errno) => rc + errno == 0 && buf[..] == old(buf[..])
              case Data(bytes) => rc == |bytes| && buf[..|bytes|] == bytes && buf[|bytes|..] == old(buf[|bytes|..])
      ensures rc == 0 ==> waits == |rounds|
      ensures old(ringUsed) != 0 || old(stopping) ==> waits == 0
      ensures waits == 0 ==> found == old(RingState())
      ensures 0 < buf.Length ==>
                var (n, _, r) := Waited(old(PoolState()), old(RingState()), rounds, 0); waits == n && found == r
      ensures rc == if buf.Length == 0 then -EINVAL
                    else if |found.q| == 0 then (if stopping then -ENODEV else 0)
                    else if buf.Length < |found.q| then buf.Length else |found.q|
    {
      if buf.Length == 0 {
        FedSelf(RingState());
        return -EINVAL, 0, RingState();
      }
      waits := WaitForData(rounds, o);
      found := RingState();
      rc := Read(buf);
    }

    /** The owner's place in its submit loop, before submit n. */
    ghost function Loop(again: bool, n: nat): P.Owner {
      if n == urbs.Length then P.Ready else if again then P.Resubmitting(n) else P.Opening(n)
    }

    lemma SubmitAdvances(p: P.Pool, again: bool, i: nat)
      requires i < urbs.Length == |p.urbs| && p.pending == P.Outstanding(p.urbs) && P.OwnerInv(p, Loop(again, i))
      ensures var (q, accepted) := P.Submit(p, i, true);
              accepted && q.pending == P.Outstanding(q.urbs) && P.OwnerInv(q, Loop(again, i + 1))
    {
      P.CountsUpdate(p.urbs, i, p.urbs[i].(xfer := P.InFlight));
    }

    /** One turn of a submit loop: what finishes in the meantime, then submit i. */
    method SubmitOne(ghost again: bool, i: nat, answer: bool, round: seq<Delivery>, ghost r0: R.Ring)
      returns (rc: int)
      requires Valid() && i < urbs.Length && PoolInv(Loop(again, i)) && Fed(r0, RingState())
      modifies this, ring, urbs
      ensures Valid() && Fed(r0, RingState())
      ensures PoolInv(Loop(again, if answer then i + 1 else i))
      ensures calls == old(calls) + [Submit(i, answer)]
      ensures rc <= 0 && (rc == 0 <==> answer)
      ensures !old(stopping) && Willing(round) ==> !stopping
    {
      DeliverAll(round, Loop(again, i));
      FedOn(r0, old(RingState()), RingState());
      SubmitAdvances(PoolState(), again, i);
      rc := SubmitTransfer(i, answer);
      calls := calls + [Submit(i, rc == 0)];
    }

    /** A submit loop. answers[i] is libusb's verdict on submit i, before which the callbacks
        rounds[i] run; n submits are accepted. */
    method SubmitEach(ghost again: bool, answers: seq<bool>, rounds: seq<seq<Delivery>>)
      returns (n: nat, rc: int)
      requires Valid() && |answers| == |rounds| == urbs.Length && PoolInv(Loop(again, 0)) && !stopping
      modifies this, ring, urbs
      ensures Valid() && Fed(old(RingState()), RingState())
      ensures n <= |answers| && (forall k :: 0 <= k < n ==> answers[k]) && (n < |answers| ==> !answers[n])
      ensures PoolInv(Loop(again, n)) && rc <= 0 && (rc == 0 <==> n == |answers|)
      ensures calls == old(calls) + Asked(n, |answers|)
      ensures AllWilling(rounds) ==> !stopping
    {
      ghost var (r0, c0, willing) := (RingState(), calls, AllWilling(rounds));
      FedSelf(r0);
      n, rc := 0, 0;
      while n < urbs.Length
        invariant n <= urbs.Length && Valid() && PoolInv(Loop(again, n))
        invariant Fed(r0, RingState())
        invariant willing ==> !stopping
        invariant calls == c0 + Accepted(n)
        invariant forall k :: 0 <= k < n ==> answers[k]
      {
        assert willing ==> Willing(rounds[n]);
        OneMore(c0, n, urbs.Length);
        rc := SubmitOne(again, n, answers[n], rounds[n], r0);
        if rc < 0 {
          return;
        }
        n := n + 1;
      }
      rc := 0;
    }

    /** The submit loop of usbq_stream_open. */
    method SubmitAll(answers: seq<bool>, rounds: seq<seq<Delivery>>) returns (ok: bool)
      requires Valid() && |answers| == |rounds| == urbs.Length && PoolInv(P.Opening(0)) && !stopping
      modifies this, ring, urbs
      ensures Valid() && Fed(old(RingState()), RingState())
      ensures ok == (forall k :: 0 <= k < |answers| ==> answers[k])
      ensures PoolInv(if ok then P.Ready else P.OpenFailed)
      ensures ok && AllWilling(rounds) ==> !stopping
      ensures var asked := old(calls) + LoopCalls(answers);
              if ok then calls == asked
              else asked <= calls && CancelsInTurn(calls[|asked|..], FirstRefused(answers))
    {
      var n, rc;
      n, rc := SubmitEach(false, answers, rounds);
      LoopStops(answers, n);
      ok := rc == 0;
      if !ok {
        AbandonOpen(n);
      }
    }

    /** usbq_stream_restart. Callbacks of transfers already resubmitted run before submit i as
        rounds[i] says; the ring gets what they push and is otherwise left alone. */
    method Restart(answers: seq<bool>, rounds: seq<seq<Delivery>>) returns (rc: int)
      requires Valid() && |answers| == |rounds| == urbs.Length && PoolInv(P.Ready)
      modifies this, ring, urbs
      ensures Valid() && PoolInv(P.Ready) && Fed(old(RingState()), RingState())
      ensures rc == 0 <==> !old(stopping) && forall k :: 0 <= k < |answers| ==> answers[k]
      ensures rc == 0 && AllWilling(rounds) ==>
                !stopping && forall k :: 0 <= k < urbs.Length ==> urbs[k] == P.Urb(false, P.InFlight)
      ensures rc != 0 ==> rc < 0 && stopping
      ensures calls == if old(stopping) then old(calls)
                       else old(calls) + CancelCalls(old(urbs[..]), urbs.Length) + LoopCalls(answers)
    {
      FedSelf(RingState());
      if stopping {
        return -EINVAL;
      }
      TakeBack();
      rc := ResubmitAll(answers, rounds);
    }

    /** Restart up to its submits: cancel, wait, reset the marks. */
    method TakeBack()
      requires Valid() && PoolInv(P.Ready) && !stopping
      modifies this, ring, urbs
      ensures Valid() && PoolInv(P.Resubmitting(0)) && !stopping && RingState() == old(RingState())
      ensures calls == old(calls) + CancelCalls(old(urbs[..]), urbs.Length)
    {
      P.CancelFirstEffect(PoolState(), urbs.Length);
      CancelUrbs(urbs.Length);
      WaitForCancels(P.RestartWait);
      UnmarkAll();
      P.OutstandingZero(urbs[..]);
    }

    /** Restart's loop that resets the cancel marks. */
    method UnmarkAll()
      modifies urbs
      ensures PoolState() == P.Unmark(old(PoolState()))
      ensures forall k :: 0 <= k < urbs.Length ==> urbs[k] == P.Urb(false, old(urbs[k].xfer))
    {
      for i := 0 to urbs.Length
        invariant forall k :: 0 <= k < urbs.Length ==>
          urbs[k] == if k < i then old(urbs[k]).(marked := false) else old(urbs[k])
      {
        urbs[i] := urbs[i].(marked := false);
      }
    }

    lemma RefusedIsReady(p: P.Pool, n: nat)
      requires P.OwnerInv(p, P.Resubmitting(n))
      ensures P.OwnerInv(p.(stopping := true), P.Ready)
    {
    }

    /** Restart's submit loop. */
    method ResubmitAll(answers: seq<bool>, rounds: seq<seq<Delivery>>) returns (rc: int)
      requires Valid() && |answers| == |rounds| == urbs.Length && PoolInv(P.Resubmitting(0)) && !stopping
      modifies this, ring, urbs
      ensures Valid() && PoolInv(P.Ready) && Fed(old(RingState()), RingState())
      ensures rc == 0 <==> forall k :: 0 <= k < |answers| ==> answers[k]
      ensures rc == 0 && AllWilling(rounds) ==> !stopping
      ensures rc != 0 ==> rc < 0 && stopping
      ensures calls == old(calls) + LoopCalls(answers)
    {
      var n;
      n, rc := SubmitEach(true, answers, rounds);
      LoopStops(answers, n);
      if rc < 0 {
        assert !answers[n];
        RefusedIsReady(PoolState(), n);
        stopping := true;
      }
    }
  }
}
