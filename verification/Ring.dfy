/** The byte ring of usbq/src/usbq.c seen as a bounded queue that forgets its
    oldest bytes, and what every run of pushes, reads and flushes keeps.
    The array implementation is in UsbqStream.dfy. */
module Ring {
  import opened Bytes

  datatype Ring = Ring(cap: nat, q: seq<byte>, overflow: nat)

  predicate Valid(r: Ring) {
    0 < r.cap && |r.q| <= r.cap
  }

  function Push(r: Ring, src: seq<byte>): Ring {
    Ring(r.cap, LastN(r.q + src, r.cap), r.overflow + Excess(|r.q| + |src|, r.cap))
  }

  function Excess(n: nat, cap: nat): nat {
    if n <= cap then 0 else n - cap
  }

  /** Outcome of usbq_stream_read: a negative errno, or the bytes copied. */
  datatype ReadResult = Error(errno: nat) | Data(bytes: seq<byte>)

  function Read(r: Ring, stopping: bool, want: nat): (Ring, ReadResult) {
    if want == 0 then (r, Error(EINVAL))
    else if r.q == [] then (r, if stopping then Error(ENODEV) else Data([]))
    else
      var n := Min(want, |r.q|);
      (r.(q := r.q[n..]), Data(r.q[..n]))
  }

  function Flush(r: Ring): Ring {
    r.(q := [])
  }

  /** A push keeps as much as fits of old and new together, the newest of it, and counts the
      rest as lost. */
  lemma PushKeepsNewest(r: Ring, src: seq<byte>)
    requires Valid(r)
    ensures var p := Push(r, src);
            && p.cap == r.cap
            && |p.q| == (if |r.q| + |src| < r.cap then |r.q| + |src| else r.cap)
            && p.q == (r.q + src)[|r.q| + |src| - |p.q|..]
            && p.overflow + |p.q| == r.overflow + |r.q| + |src|
  {
  }

  lemma PushNothing(r: Ring)
    requires Valid(r)
    ensures Push(r, []) == r
  {
    assert r.q + [] == r.q;
  }

  /** A read with room takes all that was asked for, or empties the ring; any other changes
      nothing. */
  lemma ReadTakes(r: Ring, stopping: bool, want: nat)
    ensures var (after, res) := Read(r, stopping, want);
            && after.cap == r.cap && after.overflow == r.overflow
            && (want == 0 ==> after == r && res == Error(22))
            && (want > 0 && r.q == [] ==> after == r && res == if stopping then Error(19) else Data([]))
            && (want > 0 && r.q != [] ==>
                  && res.Data? && res.bytes + after.q == r.q
                  && |res.bytes| <= want && (|res.bytes| == want || after.q == []))
  {
    if want > 0 && r.q != [] {
      var n := Min(want, |r.q|);
      assert r.q[..n] + r.q[n..] == r.q;
    }
  }

  /** A ring with its history: every byte ever pushed, every byte handed to the
      reader, the position in `pushed` each of those came from, and how many
      bytes flushes threw away. */
  datatype Hist = Hist(ring: Ring, pushed: seq<byte>, delivered: seq<byte>, at: seq<nat>, flushed: nat)

  datatype Op = PushOp(data: seq<byte>) | ReadOp(want: nat, stopping: bool) | FlushOp

  function Init(cap: nat): Hist {
    Hist(Ring(cap, [], 0), [], [], [], 0)
  }

  function Positions(start: nat, n: nat): (r: seq<nat>)
    ensures |r| == n && forall i :: 0 <= i < n ==> r[i] == start + i
  {
    seq(n, i requires 0 <= i => start + i)
  }

  function HPush(h: Hist, data: seq<byte>): Hist {
    h.(ring := Push(h.ring, data), pushed := h.pushed + data)
  }

  function HRead(h: Hist, stopping: bool, want: nat): Hist
    requires |h.ring.q| <= |h.pushed|
  {
    var (ring, res) := Read(h.ring, stopping, want);
    if res.Error? then h
    else h.(ring := ring, delivered := h.delivered + res.bytes,
            at := h.at + Positions(|h.pushed| - |h.ring.q|, |res.bytes|))
  }

  function HFlush(h: Hist): Hist {
    h.(ring := Flush(h.ring), flushed := h.flushed + |h.ring.q|)
  }

  /** What the history records: the bytes of every push, those every read returned, and how many
      a flush threw away. */
  lemma HistoryIs(h: Hist, data: seq<byte>, stopping: bool, want: nat)
    requires |h.ring.q| <= |h.pushed|
    ensures var g := HPush(h, data);
            g.ring == Push(h.ring, data) && g == h.(ring := g.ring, pushed := h.pushed + data)
    ensures var (g, (ring, res)) := (HRead(h, stopping, want), Read(h.ring, stopping, want));
            && g.ring == ring && g.pushed == h.pushed && g.flushed == h.flushed
            && g.delivered == h.delivered + match res { case Error(_) => [] case Data(bytes) => bytes }
    ensures var g := HFlush(h);
            && g.ring == h.ring.(q := [])
            && g == h.(ring := g.ring, flushed := h.flushed + |h.ring.q|)
  {
    ReadTakes(h.ring, stopping, want);
  }

  /** q ends s. */
  predicate IsTail(q: seq<byte>, s: seq<byte>) {
    |q| <= |s| && q == s[|s| - |q|..]
  }

  /** The delivered bytes are those of `pushed` at the given positions, each later than the one
      before and all before `limit`. */
  ghost predicate InOrder(at: seq<nat>, delivered: seq<byte>, pushed: seq<byte>, limit: nat) {
    && |at| == |delivered| && limit <= |pushed|
    && (forall i :: 0 <= i < |at| ==> at[i] < limit && pushed[at[i]] == delivered[i])
    && (forall i, j :: 0 <= i < j < |at| ==> at[i] < at[j])
  }

  /** What every run keeps. The reader never sees a byte twice, out of order or
      altered; the ring is the tail of what was pushed; no byte is unaccounted for. */
  ghost predicate Inv(h: Hist) {
    && Valid(h.ring)
    && |h.pushed| == |h.delivered| + h.ring.overflow + h.flushed + |h.ring.q|
    && IsTail(h.ring.q, h.pushed)
    && InOrder(h.at, h.delivered, h.pushed, |h.pushed| - |h.ring.q|)
  }

  lemma InitInv(cap: nat)
    requires 0 < cap
    ensures Inv(Init(cap))
  {
  }

  lemma TailAppend(q: seq<byte>, s: seq<byte>, data: seq<byte>)
    requires IsTail(q, s)
    ensures IsTail(q + data, s + data)
  {
  }

  lemma TailOfTail(a: seq<byte>, b: seq<byte>, c: seq<byte>)
    requires IsTail(a, b) && IsTail(b, c)
    ensures IsTail(a, c)
  {
  }

  lemma PushKeeps(h: Hist, data: seq<byte>)
    requires Inv(h)
    ensures Inv(HPush(h, data))
  {
    var h' := HPush(h, data);
    TailAppend(h.ring.q, h.pushed, data);
    TailOfTail(h'.ring.q, h.ring.q + data, h'.pushed);
    assert forall i :: 0 <= i < |h.at| ==> h'.pushed[h.at[i]] == h.pushed[h.at[i]];
  }

  /** The n bytes at the limit are delivered next. */
  lemma InOrderAppend(at: seq<nat>, delivered: seq<byte>, pushed: seq<byte>, limit: nat, n: nat)
    requires InOrder(at, delivered, pushed, limit) && limit + n <= |pushed|
    ensures InOrder(at + Positions(limit, n), delivered + pushed[limit..limit + n], pushed, limit + n)
  {
  }

  /** Taking n bytes off the front of a tail. */
  lemma TakeTail(q: seq<byte>, s: seq<byte>, n: nat)
    requires IsTail(q, s) && n <= |q|
    ensures IsTail(q[n..], s)
    ensures var start := |s| - |q|; q[..n] == s[start..start + n]
  {
  }

  lemma ReadKeeps(h: Hist, stopping: bool, want: nat)
    requires Inv(h)
    ensures Inv(HRead(h, stopping, want))
  {
    if want != 0 && h.ring.q != [] {
      var n := Min(want, |h.ring.q|);
      TakeTail(h.ring.q, h.pushed, n);
      InOrderAppend(h.at, h.delivered, h.pushed, |h.pushed| - |h.ring.q|, n);
    }
  }

  function Step(h: Hist, op: Op): Hist
    requires |h.ring.q| <= |h.pushed|
  {
    match op
    case PushOp(data) => HPush(h, data)
    case ReadOp(want, stopping) => HRead(h, stopping, want)
    case FlushOp => HFlush(h)
  }

  lemma StepKeeps(h: Hist, op: Op)
    requires Inv(h)
    ensures Inv(Step(h, op))
  {
    match op
    case PushOp(data) => PushKeeps(h, data);
    case ReadOp(want, stopping) => ReadKeeps(h, stopping, want);
    case FlushOp =>
  }

  ghost predicate Reaches(h: Hist, ops: seq<Op>, h': Hist)
    decreases |ops|
  {
    if ops == [] then h' == h
    else |h.ring.q| <= |h.pushed| && Reaches(Step(h, ops[0]), ops[1..], h')
  }

  /** The ring invariant over whole runs. */
  lemma {:induction false} RunKeeps(h: Hist, ops: seq<Op>, h': Hist)
    requires Inv(h) && Reaches(h, ops, h')
    ensures Inv(h')
    decreases |ops|
  {
    if ops != [] {
      StepKeeps(h, ops[0]);
      RunKeeps(Step(h, ops[0]), ops[1..], h');
    }
  }

  /** Nothing lost means nothing reordered either: without overflow and flushes the
      reader has received exactly a prefix of the pushed stream. */
  lemma LosslessIsPrefix(h: Hist)
    requires Inv(h) && h.ring.overflow == 0 && h.flushed == 0
    ensures h.delivered <= h.pushed
    ensures h.pushed == h.delivered + h.ring.q
  {
    forall i | 0 <= i < |h.at| ensures h.at[i] == i {
      LowerBound(h.at, i);
      UpperBound(h.at, i, |h.at|);
    }
  }

  /** n strictly increasing naturals below n are 0, 1, .., n - 1. */
  lemma {:induction false} LowerBound(s: seq<nat>, i: nat)
    requires i < |s|
    requires forall a, b :: 0 <= a < b < |s| ==> s[a] < s[b]
    ensures i <= s[i]
  {
    if 0 < i {
      LowerBound(s, i - 1);
    }
  }

  lemma {:induction false} UpperBound(s: seq<nat>, i: nat, n: nat)
    requires i < |s|
    requires forall a, b :: 0 <= a < b < |s| ==> s[a] < s[b]
    requires forall a :: 0 <= a < |s| ==> s[a] < n
    ensures s[i] <= n - |s| + i
    decreases |s| - i
  {
    if i < |s| - 1 {
      UpperBound(s, i + 1, n);
    }
  }
}
