/** The master_xfer functions of the three bridges, each against a device that decodes its
    requests and runs them on an i2c bus. */
module I2cMasters {
  import opened Bytes
  import opened I2cBus

  /** A transfer of the messages m0, now `m`, that the bus sees as `segs`, one a message, its
      history going from w0 to w: all of it done and counted, or an error after a first part. */
  ghost predicate Ran(slave: Slave, w0: seq<Seg>, segs: seq<Seg>, m0: seq<Msg>, w: seq<Seg>, m: seq<Msg>, rc: int)
    requires |segs| == |m0|
  {
    if rc < 0 then exists k :: 0 <= k <= |segs| && w == w0 + segs[..k]
    else rc == |m0| && w == w0 + segs && m == Buffers(slave, w0, segs, m0)
  }

  /** The same when the bus sees the messages as they are. */
  ghost predicate Transferred(slave: Slave, w0: seq<Seg>, m0: seq<Msg>, w: seq<Seg>, m: seq<Msg>, rc: int) {
    Ran(slave, w0, Segs(m0), m0, w, m, rc)
  }

  /** After the first i messages. */
  ghost predicate Underway(slave: Slave, w0: seq<Seg>, segs: seq<Seg>, m0: seq<Msg>, w: seq<Seg>, m: seq<Msg>, i: nat)
    requires |segs| == |m0|
  {
    && i <= |m0| && |m| == |m0|
    && w == w0 + segs[..i]
    && forall j :: 0 <= j < |m0| ==> m[j] == if j < i then Buffers(slave, w0, segs, m0)[j] else m0[j]
  }

  lemma Advance(slave: Slave, w0: seq<Seg>, segs: seq<Seg>, m0: seq<Msg>, w: seq<Seg>, m: seq<Msg>, i: nat)
    requires |segs| == |m0| && i < |m0| && Underway(slave, w0, segs, m0, w, m, i)
    ensures var w' := w + [segs[i]];
            Underway(slave, w0, segs, m0, w', m[i := Filled(slave, w', m0[i])], i + 1)
  {
    var w' := w + [segs[i]];
    assert segs[..i + 1] == segs[..i] + [segs[i]];
    assert w' == w0 + segs[..i + 1];
  }

  /** How far a bridge has got through the answers of USB and of the status register. */
  datatype Moment = Moment(count: nat, polls: nat)

  /** How a transfer of a list ends: its answer, the messages that were done, and those that
      reached the bus. */
  datatype End = End(rc: int, done: nat, seen: nat)

  /** What a bridge makes of one message begun at some moment: 0 or a negative code, whether the
      bus sees it, and the moment after it. */
  datatype Course = Course(rc: (Moment, Msg) -> int, seen: (Moment, Msg) -> bool, after: (Moment, Msg) -> Moment)

  /** How a list ends from message i on, begun at t: with the first message that fails. */
  function EndAt(c: Course, t: Moment, msgs: seq<Msg>, i: nat): (e: End)
    requires i <= |msgs|
    ensures i <= e.done <= e.seen <= |msgs|
    ensures if e.done < |msgs| then e.rc < 0 else e.rc == |msgs|
    decreases |msgs| - i
  {
    if i == |msgs| then End(|msgs|, i, i)
    else if c.rc(t, msgs[i]) < 0 then End(c.rc(t, msgs[i]), i, if c.seen(t, msgs[i]) then i + 1 else i)
    else EndAt(c, c.after(t, msgs[i]), msgs, i + 1)
  }

  lemma EndAtOne(c: Course, t: Moment, msgs: seq<Msg>, i: nat)
    requires i < |msgs|
    ensures EndAt(c, t, msgs, i) ==
            if c.rc(t, msgs[i]) < 0 then End(c.rc(t, msgs[i]), i, if c.seen(t, msgs[i]) then i + 1 else i)
            else EndAt(c, c.after(t, msgs[i]), msgs, i + 1)
  {
  }

  /** The messages begin one after the other until one fails, which gives the answer. */
  lemma {:induction false} EndAtMeans(c: Course, t: Moment, msgs: seq<Msg>, i: nat) returns (begun: seq<Moment>)
    requires i <= |msgs|
    ensures var e := EndAt(c, t, msgs, i);
            && |begun| == e.done - i + 1 && begun[0] == t
            && (forall j :: 0 <= j < e.done - i ==>
                  0 <= c.rc(begun[j], msgs[i + j]) && begun[j + 1] == c.after(begun[j], msgs[i + j]))
            && (e.done < |msgs| ==>
                  var (last, m) := (begun[e.done - i], msgs[e.done]);
                  && e.rc == c.rc(last, m) && e.rc < 0
                  && e.seen == if c.seen(last, m) then e.done + 1 else e.done)
            && (e.done == |msgs| ==> e.rc == |msgs| && e.seen == |msgs|)
    decreases |msgs| - i
  {
    begun := [t];
    if i < |msgs| && 0 <= c.rc(t, msgs[i]) {
      var rest := EndAtMeans(c, c.after(t, msgs[i]), msgs, i + 1);
      begun := [t] + rest;
    }
  }

  /** The list m0, of which the bus sees `segs`, has ended so: the answer is e's, exactly the
      first e.seen transfers are on the wire and the first e.done messages have their data. */
  ghost predicate EndedAs(slave: Slave, w0: seq<Seg>, segs: seq<Seg>, m0: seq<Msg>, w: seq<Seg>, m: seq<Msg>, rc: int,
                          e: End)
    requires |segs| == |m0|
  {
    && rc == e.rc && e.done <= e.seen <= |m0| && w == w0 + segs[..e.seen]
    && |m| == |m0|
    && forall j :: 0 <= j < |m0| ==> m[j] == if j < e.done then Buffers(slave, w0, segs, m0)[j] else m0[j]
  }

  lemma EndsHere(slave: Slave, w0: seq<Seg>, segs: seq<Seg>, m0: seq<Msg>, w: seq<Seg>, m: seq<Msg>, i: nat,
                 w': seq<Seg>, e: End)
    requires |segs| == |m0| && i < |m0| && Underway(slave, w0, segs, m0, w, m, i) && e.done == i
    requires (w' == w && e.seen == i) || (w' == w + [segs[i]] && e.seen == i + 1)
    ensures EndedAs(slave, w0, segs, m0, w', m, e.rc, e)
  {
    assert segs[..i + 1] == segs[..i] + [segs[i]];
    assert w0 + segs[..i] + [segs[i]] == w0 + (segs[..i] + [segs[i]]);
  }

  lemma EndsAtEnd(slave: Slave, w0: seq<Seg>, segs: seq<Seg>, m0: seq<Msg>, w: seq<Seg>, m: seq<Msg>, e: End)
    requires |segs| == |m0| && Underway(slave, w0, segs, m0, w, m, |m0|)
    requires e == End(|m0|, |m0|, |m0|)
    ensures EndedAs(slave, w0, segs, m0, w, m, e.rc, e)
  {
  }

  /** An end with an error before the last message is done, or without one after it. */
  lemma EndedIsRan(slave: Slave, w0: seq<Seg>, segs: seq<Seg>, m0: seq<Msg>, e: End)
    requires |segs| == |m0| && (0 <= e.rc ==> e.done == |m0| == e.rc)
    ensures forall w, m, rc :: EndedAs(slave, w0, segs, m0, w, m, rc, e) ==> Ran(slave, w0, segs, m0, w, m, rc)
  {
    assert segs[..|m0|] == segs;
  }

  /** A bridge driven by vendor control requests. The k-th request fails when usb(k) is
      negative, before it reaches the bus; otherwise an OUT is taken whole and an IN returns
      at most usb(k) bytes. */
  class ControlBridge {
    const decode: Control -> Option<Seg>
    const slave: Slave
    const usb: nat -> int
    var count: nat
    var wire: seq<Seg>

    constructor (decode: Control -> Option<Seg>, slave: Slave, usb: nat -> int)
      ensures this.decode == decode && this.slave == slave && this.usb == usb && wire == [] && count == 0
    {
      this.decode, this.slave, this.usb := decode, slave, usb;
      wire, count := [], 0;
    }

    /** usbq_control. */
    method Control(c: Control) returns (rc: int, data: seq<byte>)
      modifies this
      ensures count == old(count) + 1
      ensures if usb(old(count)) < 0 || decode(c).None? then
                wire == old(wire) && rc == if usb(old(count)) < 0 then usb(old(count)) else -EIO
              else
                && wire == old(wire) + [decode(c).value]
                && match c
                   case Out(_, _, _, payload) => rc == |payload|
                   case In(_, _, _, n) =>
                     var m := Min(n, Asked(decode(c).value));
                     rc == |data| == Min(usb(old(count)), m) && data == Reply(slave, wire, m)[..rc]
    {
      var answer := usb(count);
      count := count + 1;
      if answer < 0 || decode(c).None? {
        return if answer < 0 then answer else -EIO, [];
      }
      wire := wire + [decode(c).value];
      match c
      case Out(_, _, _, payload) => return |payload|, [];
      case In(_, _, _, n) =>
        var m := Min(n, Asked(decode(c).value));
        rc := Min(answer, m);
        data := Reply(slave, wire, m)[..rc];
    }
  }

  function Asked(seg: Seg): nat {
    if seg.ReadSeg? then seg.n else 0
  }

  /** Every request accepted and every read complete. */
  ghost predicate Reliable(usb: nat -> int) {
    forall k :: 256 <= usb(k)
  }

  // ---- em28xx ---------------------------------------------------------------------

  /** Status register 0x05: done, no acknowledge, or the register could not be read. */
  predicate Settles(status: int) {
    status <= 0 || status == 0x10
  }

  function StatusRc(status: int): (rc: int)
    ensures rc <= 0 && (rc == 0 <==> status == 0)
  {
    if status <= 0 then status
    else if status == 0x10 then -ENXIO
    else if status == 2 || status == 4 then -ETIMEDOUT
    else -EIO
  }

  /** The answer of the first poll that settles it, or of the last of n + 1. */
  function PollRc(status: nat -> int, from: nat, n: nat): (rc: int)
    ensures rc <= 0
    decreases n
  {
    if Settles(status(from)) || n == 0 then StatusRc(status(from)) else PollRc(status, from + 1, n - 1)
  }

  /** How many polls that takes. */
  function Polled(status: nat -> int, from: nat, n: nat): nat
    decreases n
  {
    if Settles(status(from)) || n == 0 then 1 else 1 + Polled(status, from + 1, n - 1)
  }

  /** Register 0x05 read by read. */
  lemma StatusMeans(status: int)
    ensures Settles(status) <==> status <= 0 || status == 0x10
    ensures status <= 0 ==> StatusRc(status) == status
    ensures status == 0x10 ==> StatusRc(status) == -6
    ensures status == 2 || status == 4 ==> StatusRc(status) == -110
    ensures 0 < status && status != 0x10 && status != 2 && status != 4 ==> StatusRc(status) == -5
  {
  }

  lemma {:induction false} PollRcMeans(status: nat -> int, from: nat, n: nat) returns (k: nat)
    ensures from <= k <= from + n && PollRc(status, from, n) == StatusRc(status(k))
    ensures forall j :: from <= j < k ==> !Settles(status(j))
    ensures Settles(status(k)) || k == from + n
    ensures Polled(status, from, n) == k - from + 1
    decreases n
  {
    k := from;
    if !Settles(status(from)) && 0 < n {
      k := PollRcMeans(status, from + 1, n - 1);
    }
  }

  class Em28xxMaster {
    const dev: ControlBridge
    /** Register 0x05 as the k-th poll finds it; polls after which the 36 ms are over. */
    const status: nat -> int
    const maxPolls: nat
    var polls: nat

    constructor (slave: Slave, usb: nat -> int, status: nat -> int, maxPolls: nat)
      ensures fresh(dev) && dev.decode == Em28xxDecode && dev.slave == slave && dev.usb == usb
      ensures this.status == status && this.maxPolls == maxPolls
      ensures dev.wire == [] && dev.count == 0 && polls == 0
    {
      dev := new ControlBridge(Em28xxDecode, slave, usb);
      this.status, this.maxPolls, polls := status, maxPolls, 0;
    }

    /** A request for a message would reach the bus now. */
    ghost predicate Takes(m: Msg)
      reads dev
    {
      1 <= |m.buf| <= 64 && 0 <= dev.usb(dev.count)
    }

    /** What em28xx_i2c_send_bytes would report now: 0 stands for all bytes. */
    ghost function SendRc(m: Msg): (rc: int)
      reads this, dev
      ensures rc <= 0
    {
      if !(1 <= |m.buf| <= 64) then -EOPNOTSUPP
      else if dev.usb(dev.count) < 0 then dev.usb(dev.count)
      else PollRc(status, polls, maxPolls)
    }

    ghost predicate Sound() {
      Reliable(dev.usb) && forall k :: status(k) == 0
    }

    ghost function Now(): Moment
      reads this, dev
    {
      Moment(dev.count, polls)
    }

    /** The bytes that a message puts into its request, a probe asking for one. */
    function Size(m: Msg): nat {
      if m.buf == [] then 1 else |m.buf|
    }

    /** What becomes of a message begun at t: 0 or a negative code. */
    ghost function RcAt(t: Moment, m: Msg): (rc: int)
      ensures rc <= 0
    {
      var (usb, poll) := (dev.usb(t.count), PollRc(status, t.polls, maxPolls));
      if 64 < Size(m) then -EOPNOTSUPP
      else if usb < 0 then usb
      else if poll < 0 then poll
      else if (m.rd || m.buf == []) && usb < Size(m) then -EIO
      else 0
    }

    ghost predicate SeenAt(t: Moment, m: Msg) {
      Size(m) <= 64 && 0 <= dev.usb(t.count)
    }

    ghost function AfterAt(t: Moment, m: Msg): Moment {
      Moment(if Size(m) <= 64 then t.count + 1 else t.count,
             if SeenAt(t, m) then t.polls + Polled(status, t.polls, maxPolls) else t.polls)
    }

    ghost function OneByOne(): Course {
      Course((t, m) => RcAt(t, m), (t, m) => SeenAt(t, m), (t, m) => AfterAt(t, m))
    }

    /** em28xx_i2c_wait_status. */
    method WaitStatus() returns (rc: int)
      modifies this
      ensures rc == PollRc(status, old(polls), maxPolls)
      ensures polls == old(polls) + Polled(status, old(polls), maxPolls)
    {
      var last := 0;
      var i := 0;
      while true
        invariant i <= maxPolls && polls == old(polls) + i
        invariant PollRc(status, polls, maxPolls - i) == PollRc(status, old(polls), maxPolls)
        invariant i + Polled(status, polls, maxPolls - i) == Polled(status, old(polls), maxPolls)
        decreases maxPolls - i
      {
        var s := status(polls);
        polls := polls + 1;
        if s < 0 {
          return s;
        }
        last := s;
        if s == 0 {
          return 0;
        }
        if s == 0x10 {
          return -ENXIO;
        }
        if i == maxPolls {
          break;
        }
        i := i + 1;
      }
      return if last == 2 || last == 4 then -ETIMEDOUT else -EIO;
    }

    /** em28xx_i2c_send_bytes. A write that the bridge has taken can still be reported as
        failed, by the status that follows. */
    method SendBytes(m: Msg, stop: bool) returns (rc: int)
      requires dev.decode == Em28xxDecode && !m.rd
      modifies this, dev
      ensures dev.wire == if old(Takes(m)) then old(dev.wire) + [Em28xxSeg(m, stop)] else old(dev.wire)
      ensures rc == if old(SendRc(m)) == 0 then |m.buf| else old(SendRc(m))
      ensures rc == if !(1 <= |m.buf| <= 64) then -EOPNOTSUPP
                    else if dev.usb(old(dev.count)) < 0 then dev.usb(old(dev.count))
                    else if PollRc(status, old(polls), maxPolls) < 0 then PollRc(status, old(polls), maxPolls)
                    else |m.buf|
      ensures m.buf != [] ==> Now() == AfterAt(old(Now()), m)
      ensures rc >= 0 ==> dev.count == old(dev.count) + 1
      ensures Sound() && 1 <= |m.buf| <= 64 ==> rc == |m.buf|
    {
      if |m.buf| < 1 || |m.buf| > 64 {
        return -EOPNOTSUPP;
      }
      Em28xxDecodes(m, stop);
      var ret, _ := dev.Control(Em28xxEncode(m, stop));
      if ret < 0 {
        return ret;
      }
      if ret != |m.buf| {
        return -EIO;
      }
      var s := WaitStatus();
      if s < 0 {
        return s;
      }
      return |m.buf|;
    }

    /** em28xx_i2c_recv_bytes, for n bytes. */
    method RecvBytes(addr: nat, n: nat) returns (rc: int, data: seq<byte>)
      requires dev.decode == Em28xxDecode
      modifies this, dev
      ensures rc < 0 || rc == |data| <= n
      ensures dev.wire == old(dev.wire) || dev.wire == old(dev.wire) + [ReadSeg(addr, n, true)]
      ensures rc == n && 0 < n ==>
                dev.wire == old(dev.wire) + [ReadSeg(addr, n, true)] && data == Reply(dev.slave, dev.wire, n)
      ensures n < 1 || n > 64 ==> rc == -EOPNOTSUPP
      ensures rc == if !(1 <= n <= 64) then -EOPNOTSUPP
                    else if dev.usb(old(dev.count)) < 0 then dev.usb(old(dev.count))
                    else if PollRc(status, old(polls), maxPolls) < 0 then PollRc(status, old(polls), maxPolls)
                    else Min(dev.usb(old(dev.count)), n)
      ensures dev.wire == if 1 <= n <= 64 && 0 <= dev.usb(old(dev.count)) then old(dev.wire) + [ReadSeg(addr, n, true)]
                          else old(dev.wire)
      ensures rc >= 0 ==> data == Reply(dev.slave, dev.wire, n)[..rc]
      ensures dev.count == old(dev.count) + (if 1 <= n <= 64 then 1 else 0)
      ensures polls == old(polls) + if 1 <= n <= 64 && 0 <= dev.usb(old(dev.count))
                                    then Polled(status, old(polls), maxPolls) else 0
      ensures rc >= 0 ==> dev.count == old(dev.count) + 1
      ensures Sound() && 1 <= n <= 64 ==> rc == n
    {
      if n < 1 || n > 64 {
        return -EOPNOTSUPP, [];
      }
      var ret;
      var c := In(2, 0, 2 * addr, n);
      assert Em28xxDecode(c) == Some(ReadSeg(addr, n, true));
      ret, data := dev.Control(c);
      if ret < 0 {
        return ret, [];
      }
      var s := WaitStatus();
      if s < 0 {
        return s, [];
      }
      return ret, data;
    }

    /** em28xx_i2c_check_for_device. */
    method CheckForDevice(addr: nat) returns (rc: int)
      requires dev.decode == Em28xxDecode
      modifies this, dev
      ensures rc <= 0
      ensures dev.wire == old(dev.wire) || dev.wire == old(dev.wire) + [ReadSeg(addr, 1, true)]
      ensures rc == 0 ==> dev.wire == old(dev.wire) + [ReadSeg(addr, 1, true)] && dev.count == old(dev.count) + 1
      ensures rc == if dev.usb(old(dev.count)) < 0 then dev.usb(old(dev.count))
                    else if PollRc(status, old(polls), maxPolls) < 0 then PollRc(status, old(polls), maxPolls)
                    else if dev.usb(old(dev.count)) == 0 then -EIO else 0
      ensures dev.wire == if 0 <= dev.usb(old(dev.count)) then old(dev.wire) + [ReadSeg(addr, 1, true)]
                          else old(dev.wire)
      ensures dev.count == old(dev.count) + 1
      ensures polls == old(polls) + if 0 <= dev.usb(old(dev.count)) then Polled(status, old(polls), maxPolls) else 0
      ensures Sound() ==> rc == 0
    {
      var ret, _ := RecvBytes(addr, 1);
      if ret == 1 {
        return 0;
      }
      return if ret < 0 then ret else -EIO;
    }

    /** One turn of the message loop: 0 or a negative code, and the message afterwards. */
    method OneMessage(m: Msg, last: bool) returns (rc: int, out: Msg)
      requires dev.decode == Em28xxDecode
      modifies this, dev
      ensures rc <= 0
      ensures dev.wire == old(dev.wire) || dev.wire == old(dev.wire) + [Em28xxSeg(m, last)]
      ensures rc == 0 ==> dev.wire == old(dev.wire) + [Em28xxSeg(m, last)] && out == Filled(dev.slave, dev.wire, m)
      ensures rc == 0 ==> dev.count == old(dev.count) + 1
      ensures m.buf != [] && !m.rd ==>
                rc == old(SendRc(m))
                && dev.wire == if old(Takes(m)) then old(dev.wire) + [Em28xxSeg(m, last)] else old(dev.wire)
      ensures var n := if m.buf == [] then 1 else |m.buf|;
              var (usb, poll) := (dev.usb(old(dev.count)), PollRc(status, old(polls), maxPolls));
              && rc == (if 64 < n then -EOPNOTSUPP else if usb < 0 then usb else if poll < 0 then poll
                        else if (m.rd || m.buf == []) && usb < n then -EIO else 0)
              && dev.wire == (if n <= 64 && 0 <= usb then old(dev.wire) + [Em28xxSeg(m, last)] else old(dev.wire))
              && dev.count == old(dev.count) + (if n <= 64 then 1 else 0)
              && polls == old(polls) + if n <= 64 && 0 <= usb then Polled(status, old(polls), maxPolls) else 0
      ensures rc == RcAt(old(Now()), m) && Now() == AfterAt(old(Now()), m)
      ensures Sound() && |m.buf| <= 64 ==> rc == 0
    {
      out := m;
      if |m.buf| == 0 {
        rc := CheckForDevice(m.addr);
      } else if m.rd {
        var data;
        rc, data := RecvBytes(m.addr, |m.buf|);
        if rc >= 0 && rc != |m.buf| {
          rc := -EIO;
        } else if rc == |m.buf| {
          out := m.(buf := data);
          rc := 0;
        }
      } else {
        rc := SendBytes(m, last);
        if rc == |m.buf| {
          rc := 0;
        } else if rc >= 0 {
          rc := -EIO;
        }
      }
    }

    /** em28xx_i2c_xfer, its bus being selected. */
    method Xfer(msgs: array<Msg>) returns (rc: int)
      requires dev.decode == Em28xxDecode
      modifies this, dev, msgs
      ensures Ran(dev.slave, old(dev.wire), Em28xxSegs(old(msgs[..])), old(msgs[..]), dev.wire, msgs[..], rc)
      ensures EndedAs(dev.slave, old(dev.wire), Em28xxSegs(old(msgs[..])), old(msgs[..]), dev.wire, msgs[..], rc,
                      EndAt(OneByOne(), old(Now()), old(msgs[..]), 0))
      ensures rc >= 0 ==> dev.count == old(dev.count) + msgs.Length
      ensures Sound() && AtMost(old(msgs[..]), 64) ==> rc == msgs.Length
      ensures msgs.Length == 1 && old(msgs[0].buf) != [] && !old(msgs[0].rd) ==>
                var m := old(msgs[0]);
                && rc == (if old(SendRc(m)) == 0 then 1 else old(SendRc(m)))
                && dev.wire == if old(Takes(m)) then old(dev.wire) + [SegOf(m, true)] else old(dev.wire)
    {
      ghost var (w0, m0, segs) := (dev.wire, msgs[..], Em28xxSegs(msgs[..]));
      ghost var end := EndAt(OneByOne(), Now(), m0, 0);
      EndedIsRan(dev.slave, w0, segs, m0, end);
      EndsWhenSound(Now(), m0, 0);
      EndOfOne(m0);
      for i := 0 to msgs.Length
        invariant Underway(dev.slave, w0, segs, m0, dev.wire, msgs[..], i)
        invariant EndAt(OneByOne(), Now(), m0, i) == end && dev.count == old(dev.count) + i
      {
        var m := msgs[i];
        ghost var (w, before) := (dev.wire, msgs[..]);
        EndAtOne(OneByOne(), Now(), m0, i);
        var out;
        rc, out := OneMessage(m, i == msgs.Length - 1);
        if rc < 0 {
          EndsHere(dev.slave, w0, segs, m0, w, before, i, dev.wire, end);
          return;
        }
        Advance(dev.slave, w0, segs, m0, w, before, i);
        msgs[i] := out;
        assert msgs[..] == before[i := out];
      }
      EndsAtEnd(dev.slave, w0, segs, m0, dev.wire, msgs[..], end);
      return msgs.Length;
    }

    lemma {:induction false} EndsWhenSound(t: Moment, msgs: seq<Msg>, i: nat)
      requires i <= |msgs|
      ensures Sound() && AtMost(msgs, 64) ==> EndAt(OneByOne(), t, msgs, i).rc == |msgs|
      decreases |msgs| - i
    {
      if i < |msgs| && Sound() && AtMost(msgs, 64) {
        var k := t.polls;
        assert status(k) == 0 && 256 <= dev.usb(t.count);
        EndsWhenSound(AfterAt(t, msgs[i]), msgs, i + 1);
      }
    }

    /** A list of one write. */
    lemma EndOfOne(msgs: seq<Msg>)
      ensures |msgs| == 1 && msgs[0].buf != [] && !msgs[0].rd ==>
                var (m, e) := (msgs[0], EndAt(OneByOne(), Now(), msgs, 0));
                && e.rc == (if SendRc(m) == 0 then 1 else SendRc(m)) && e.seen == (if Takes(m) then 1 else 0)
                && Em28xxSegs(msgs)[..e.seen] == if Takes(m) then [SegOf(m, true)] else []
    {
      if |msgs| == 1 {
        EndAtOne(OneByOne(), Now(), msgs, 0);
      }
    }
  }

  // ---- dib0700 --------------------------------------------------------------------

  class Dib0700Master {
    const dev: ControlBridge
    const buf: array<byte>

    constructor (slave: Slave, usb: nat -> int)
      ensures fresh(dev) && dev.decode == Dib0700Decode && dev.slave == slave && dev.usb == usb
      ensures fresh(buf) && buf.Length == 256 && dev.wire == []
    {
      dev := new ControlBridge(Dib0700Decode, slave, usb);
      buf := new byte[256](_ => 0);
    }

    ghost predicate Takes(m: Msg)
      reads dev
    {
      |m.buf| <= 252 && 0 <= dev.usb(dev.count)
    }

    ghost function Now(): Moment
      reads dev
    {
      Moment(dev.count, 0)
    }

    /** What becomes of a message begun at t: 0 or a negative code. */
    ghost function RcAt(t: Moment, m: Msg): (rc: int)
      ensures rc <= 0
    {
      var usb := dev.usb(t.count);
      if !m.rd && 252 < |m.buf| then -EOPNOTSUPP
      else if usb < 0 then usb
      else if m.rd && (64 <= |m.buf| || usb < |m.buf|) then -EIO
      else 0
    }

    ghost predicate SeenAt(t: Moment, m: Msg) {
      (m.rd || |m.buf| <= 252) && 0 <= dev.usb(t.count)
    }

    ghost function OneByOne(): Course {
      Course((t, m) => RcAt(t, m), (t, m) => SeenAt(t, m),
             (t: Moment, m: Msg) => if !m.rd && 252 < |m.buf| then t else Moment(t.count + 1, 0))
    }

    /** dib0700_i2c_xfer_one_read. A read of 64 bytes or more never succeeds: the header asks
        for fewer. */
    method OneRead(m: Msg, stop: bool) returns (rc: int, data: seq<byte>)
      requires dev.decode == Dib0700Decode && buf.Length == 256
      requires m.rd && m.addr < 128
      modifies dev, buf
      ensures rc <= 0
      ensures dev.wire == old(dev.wire) || dev.wire == old(dev.wire) + [Dib0700Seg(m, stop)]
      ensures rc == 0 ==>
                && |m.buf| < 64 && dev.wire == old(dev.wire) + [SegOf(m, stop)]
                && data == Reply(dev.slave, dev.wire, |m.buf|)
      ensures dev.count == old(dev.count) + 1
      ensures var usb := dev.usb(old(dev.count));
              && rc == (if usb < 0 then usb else if 64 <= |m.buf| || usb < |m.buf| then -EIO else 0)
              && dev.wire == if usb < 0 then old(dev.wire) else old(dev.wire) + [Dib0700Seg(m, stop)]
      ensures Reliable(dev.usb) ==> (rc == 0 <==> |m.buf| < 64)
    {
      Dib0700Decodes(m, stop);
      var got;
      rc, got := dev.Control(Dib0700Encode(m, stop));
      if rc < 0 {
        return rc, [];
      }
      forall k | 0 <= k < |got| {
        buf[k] := got[k];
      }
      if rc < |m.buf| {
        return -EIO, [];
      }
      return 0, buf[..|m.buf|];
    }

    /** dib0700_i2c_xfer_one_write; the request is built in the shared scratch buffer. A
        write of 64 to 252 bytes is reported as done when the bus has seen fewer bytes. */
    method OneWrite(m: Msg, stop: bool) returns (rc: int)
      requires dev.decode == Dib0700Decode && buf.Length == 256
      requires !m.rd && m.addr < 128
      modifies dev, buf
      ensures rc == if |m.buf| > 252 then -EOPNOTSUPP else if old(Takes(m)) then 0 else dev.usb(old(dev.count))
      ensures dev.count == old(dev.count) + if |m.buf| <= 252 then 1 else 0
      ensures dev.wire == if old(Takes(m)) then old(dev.wire) + [Dib0700Seg(m, stop)] else old(dev.wire)
      ensures rc <= 0
    {
      if |m.buf| > buf.Length - 4 {
        return -EOPNOTSUPP;
      }
      buf[0] := 0x13;
      buf[1] := 2 * m.addr;
      buf[2] := Flags(stop, |m.buf|);
      buf[3] := 0x10;
      forall k | 0 <= k < |m.buf| {
        buf[4 + k] := m.buf[k];
      }
      Dib0700Decodes(m, stop);
      var c := Out(0x13, 0, 0, buf[..|m.buf| + 4]);
      assert c == Dib0700Encode(m, stop);
      var ret, _ := dev.Control(c);
      return if ret < 0 then ret else 0;
    }

    /** One turn of the message loop. */
    method OneMessage(m: Msg, last: bool) returns (rc: int, out: Msg)
      requires dev.decode == Dib0700Decode && buf.Length == 256 && m.addr < 128
      modifies dev, buf
      ensures rc <= 0
      ensures dev.wire == old(dev.wire) || dev.wire == old(dev.wire) + [Dib0700Seg(m, last)]
      ensures rc == 0 ==>
                && dev.wire == old(dev.wire) + [Dib0700Seg(m, last)] && out == Filled(dev.slave, dev.wire, m)
                && (m.rd ==> |m.buf| < 64) && dev.count == old(dev.count) + 1
      ensures !m.rd ==>
                (rc == 0 <==> old(Takes(m)))
                && dev.wire == if old(Takes(m)) then old(dev.wire) + [Dib0700Seg(m, last)] else old(dev.wire)
      ensures var usb := dev.usb(old(dev.count));
              && rc == (if !m.rd && 252 < |m.buf| then -EOPNOTSUPP else if usb < 0 then usb
                        else if m.rd && (64 <= |m.buf| || usb < |m.buf|) then -EIO else 0)
              && dev.wire == (if (m.rd || |m.buf| <= 252) && 0 <= usb then old(dev.wire) + [Dib0700Seg(m, last)]
                              else old(dev.wire))
              && dev.count == old(dev.count) + if !m.rd && 252 < |m.buf| then 0 else 1
      ensures rc == RcAt(old(Now()), m) && Now() == OneByOne().after(old(Now()), m)
      ensures Reliable(dev.usb) && |m.buf| < 64 ==> rc == 0
    {
      out := m;
      if m.rd {
        Dib0700Decodes(m, last);
        var data;
        rc, data := OneRead(m, last);
        if rc == 0 {
          out := m.(buf := data);
        }
      } else {
        rc := OneWrite(m, last);
      }
    }

    /** dib0700_i2c_master_xfer, no message asking for I2C_M_NOSTART. */
    method Xfer(msgs: array<Msg>) returns (rc: int)
      requires dev.decode == Dib0700Decode && buf.Length == 256
      requires Addressable(msgs[..])
      modifies dev, buf, msgs
      ensures Ran(dev.slave, old(dev.wire), Dib0700Segs(old(msgs[..])), old(msgs[..]), dev.wire, msgs[..], rc)
      ensures EndedAs(dev.slave, old(dev.wire), Dib0700Segs(old(msgs[..])), old(msgs[..]), dev.wire, msgs[..], rc,
                      EndAt(OneByOne(), old(Now()), old(msgs[..]), 0))
      ensures rc >= 0 ==> forall i :: 0 <= i < msgs.Length && old(msgs[..])[i].rd ==> |old(msgs[..])[i].buf| < 64
      ensures rc >= 0 ==> dev.count == old(dev.count) + msgs.Length
      ensures Reliable(dev.usb) && AtMost(old(msgs[..]), 63) ==> rc == msgs.Length
      ensures msgs.Length == 1 && !old(msgs[0].rd) ==>
                var m := old(msgs[0]);
                && (rc == 1 <==> old(Takes(m))) && (rc < 0 <==> rc != 1)
                && dev.wire == if old(Takes(m)) then old(dev.wire) + [Dib0700Seg(m, true)] else old(dev.wire)
    {
      ghost var (w0, m0, segs) := (dev.wire, msgs[..], Dib0700Segs(msgs[..]));
      ghost var end := EndAt(OneByOne(), Now(), m0, 0);
      EndedIsRan(dev.slave, w0, segs, m0, end);
      EndsWhenReliable(Now(), m0, 0);
      EndsWellOnlyIf(Now(), m0, 0);
      EndOfOne(m0);
      rc := 0;
      for i := 0 to msgs.Length
        invariant Underway(dev.slave, w0, segs, m0, dev.wire, msgs[..], i)
        invariant EndAt(OneByOne(), Now(), m0, i) == end && dev.count == old(dev.count) + i
      {
        var m := msgs[i];
        ghost var (w, before) := (dev.wire, msgs[..]);
        EndAtOne(OneByOne(), Now(), m0, i);
        var out;
        rc, out := OneMessage(m, i == msgs.Length - 1);
        if rc < 0 {
          EndsHere(dev.slave, w0, segs, m0, w, before, i, dev.wire, end);
          return;
        }
        Advance(dev.slave, w0, segs, m0, w, before, i);
        msgs[i] := out;
        assert msgs[..] == before[i := out];
      }
      EndsAtEnd(dev.slave, w0, segs, m0, dev.wire, msgs[..], end);
      return msgs.Length;
    }

    lemma {:induction false} EndsWhenReliable(t: Moment, msgs: seq<Msg>, i: nat)
      requires i <= |msgs|
      ensures Reliable(dev.usb) && AtMost(msgs, 63) ==> EndAt(OneByOne(), t, msgs, i).rc == |msgs|
      decreases |msgs| - i
    {
      if i < |msgs| && Reliable(dev.usb) && AtMost(msgs, 63) {
        assert 256 <= dev.usb(t.count);
        EndsWhenReliable(OneByOne().after(t, msgs[i]), msgs, i + 1);
      }
    }

    lemma {:induction false} EndsWellOnlyIf(t: Moment, msgs: seq<Msg>, i: nat)
      requires i <= |msgs|
      ensures 0 <= EndAt(OneByOne(), t, msgs, i).rc ==> forall j :: i <= j < |msgs| && msgs[j].rd ==> |msgs[j].buf| < 64
      decreases |msgs| - i
    {
      if i < |msgs| && 0 <= RcAt(t, msgs[i]) {
        EndsWellOnlyIf(OneByOne().after(t, msgs[i]), msgs, i + 1);
      }
    }

    /** A list of one write. */
    lemma EndOfOne(msgs: seq<Msg>)
      ensures |msgs| == 1 && !msgs[0].rd ==>
                var (m, e) := (msgs[0], EndAt(OneByOne(), Now(), msgs, 0));
                && (e.rc == 1 <==> Takes(m)) && (e.rc < 0 <==> e.rc != 1)
                && Dib0700Segs(msgs)[..e.seen] == if Takes(m) then [Dib0700Seg(m, true)] else []
    {
      if |msgs| == 1 {
        EndAtOne(OneByOne(), Now(), msgs, 0);
      }
    }
  }

  // ---- dvbsky ---------------------------------------------------------------------

  /** The bulk endpoints. A frame written whole is run at once, its reply replacing one that
      was not read: a status byte and the bytes read for an i2c frame, a status byte for any
      other. The reply waits for the IN transfer. usb(k) is negative or bounds the bytes the
      k-th transfer moves. */
  class FrameBridge {
    const slave: Slave
    const usb: nat -> int
    var count: nat
    var wire: seq<Seg>
    var reply: seq<byte>

    constructor (slave: Slave, usb: nat -> int)
      ensures this.slave == slave && this.usb == usb && wire == [] && count == 0
    {
      this.slave, this.usb := slave, usb;
      count, wire, reply := 0, [], [];
    }

    /** The reply to a frame whose transfers are segs, the last of them in `wire`. */
    function ReplyTo(segs: seq<Seg>, wire: seq<Seg>): seq<byte> {
      if segs != [] && segs[|segs| - 1].ReadSeg? then [1] + Reply(slave, wire, segs[|segs| - 1].n) else [1]
    }

    /** usbq_bulk_write on endpoint 0x01. */
    method BulkWrite(frame: seq<byte>) returns (rc: int)
      modifies this
      ensures count == old(count) + 1
      ensures rc == if usb(old(count)) < 0 then usb(old(count)) else Min(usb(old(count)), |frame|)
      ensures if rc == |frame| then wire == old(wire) + OnBus(frame) && reply == ReplyTo(OnBus(frame), wire)
              else wire == old(wire) && reply == old(reply)
    {
      rc := usb(count);
      count := count + 1;
      if rc < 0 {
        return;
      }
      rc := Min(rc, |frame|);
      if rc == |frame| {
        wire := wire + OnBus(frame);
        reply := ReplyTo(OnBus(frame), wire);
      }
    }

    /** usbq_bulk_read on endpoint 0x81. */
    method BulkRead(n: nat) returns (rc: int, data: seq<byte>)
      modifies this
      ensures wire == old(wire) && count == old(count) + 1
      ensures if usb(old(count)) < 0 then rc == usb(old(count))
              else rc == |data| == Min(Min(usb(old(count)), n), |old(reply)|) && data <= old(reply)
    {
      var answer := usb(count);
      count := count + 1;
      if answer < 0 {
        return answer, [];
      }
      data := reply[..Min(Min(answer, n), |reply|)];
      reply := reply[|data|..];
      rc := |data|;
    }
  }

  /** The bus transfers of a command frame. */
  function OnBus(frame: seq<byte>): seq<Seg> {
    match DvbskyDecode(frame) { case None => [] case Some(segs) => segs }
  }

  /** Only the last message of a supported transaction can bring data. */
  lemma BuffersShaped(slave: Slave, w0: seq<Seg>, segs: seq<Seg>, m0: seq<Msg>)
    requires Shaped(m0) && |segs| == |m0|
    ensures var n := |m0| - 1;
            Buffers(slave, w0, segs, m0) == m0[n := Filled(slave, w0 + segs, m0[n])]
  {
    assert segs[..|m0|] == segs;
  }

  /** What a supported list leaves: only its last message can bring data. */
  function LastFilled(slave: Slave, wire: seq<Seg>, m0: seq<Msg>): seq<Msg>
    requires m0 != []
  {
    m0[|m0| - 1 := Filled(slave, wire, m0[|m0| - 1])]
  }

  class DvbskyMaster {
    const dev: FrameBridge

    constructor (slave: Slave, usb: nat -> int)
      ensures fresh(dev) && dev.slave == slave && dev.usb == usb && dev.wire == [] && dev.count == 0
    {
      dev := new FrameBridge(slave, usb);
    }

    ghost predicate Takes(m: Msg)
      reads dev
    {
      |m.buf| <= 60 && |m.buf| + 3 <= dev.usb(dev.count)
    }

    /** dvbsky_bulk_rw_locked. A failure after the frame was written leaves its transfers
        done. */
    method BulkRw(frame: seq<byte>, rlen: nat) returns (rc: int, rbuf: seq<byte>)
      modifies dev
      ensures rc <= 0
      ensures |frame| > 64 || rlen > 64 ==> rc == -EINVAL && dev.wire == old(dev.wire)
      ensures var taken := |frame| <= 64 && rlen <= 64 && (frame == [] || |frame| <= dev.usb(old(dev.count)));
              var reply := if frame == [] then old(dev.reply) else dev.ReplyTo(OnBus(frame), dev.wire);
              var readAt := old(dev.count) + if frame == [] then 0 else 1;
              && dev.wire == (if taken && frame != [] then old(dev.wire) + OnBus(frame) else old(dev.wire))
              && (rc == 0 <==> taken && (rlen == 0 || rlen <= Min(|reply|, MaxZero(dev.usb(readAt)))))
              && (rc == 0 ==> |rbuf| == rlen && rbuf <= reply
                              && dev.count == readAt + if rlen == 0 then 0 else 1)
      ensures |frame| <= 64 && rlen <= 64 ==>
                var (u, reply) := (dev.usb(old(dev.count)),
                                   if frame == [] then old(dev.reply) else dev.ReplyTo(OnBus(frame), dev.wire));
                var v := if frame == [] then u else dev.usb(old(dev.count) + 1);
                rc == if frame != [] && u < 0 then u
                      else if frame != [] && u < |frame| then -EIO
                      else if rlen == 0 then 0
                      else if v < 0 then v
                      else if v < rlen || |reply| < rlen then -EIO else 0
    {
      if |frame| > 64 || rlen > 64 {
        return -EINVAL, [];
      }
      rbuf := [];
      if |frame| > 0 {
        var n := dev.BulkWrite(frame);
        if n < 0 {
          return n, [];
        }
        if n != |frame| {
          return -EIO, [];
        }
      }
      if rlen > 0 {
        var n;
        n, rbuf := dev.BulkRead(rlen);
        if n < 0 {
          return n, [];
        }
        if n < rlen {
          return -EIO, [];
        }
      }
      return 0, rbuf;
    }

    /** The frame of a list and its reply; `data` is what the last message reads. */
    method Exchange(msgs: seq<Msg>) returns (rc: int, data: seq<byte>)
      requires Shaped(msgs) && Addressable(msgs)
      modifies dev
      ensures dev.wire == if old(Runs(msgs)) then old(dev.wire) + DvbskySegs(msgs) else old(dev.wire)
      ensures rc <= 0 && (rc == 0 <==> old(Done(msgs)))
      ensures rc == RcAt(old(dev.count), msgs)
      ensures rc == 0 ==>
                && dev.wire == old(dev.wire) + DvbskySegs(msgs) && dev.count == old(dev.count) + 2
                && var m := msgs[|msgs| - 1]; (m.rd ==> data == Reply(dev.slave, dev.wire, |m.buf|))
    {
      var last := msgs[|msgs| - 1];
      DvbskyDecodes(msgs);
      LastSeg(msgs);
      var frame := DvbskyEncode(msgs);
      var rlen := if last.rd then |last.buf| + 1 else 1;
      var rbuf;
      rc, rbuf := BulkRw(frame, rlen);
      data := [];
      if rc == 0 && last.rd {
        assert rbuf == [1] + Reply(dev.slave, dev.wire, |last.buf|);
        data := rbuf[1..];
      }
    }

    /** one_write, one_read and write_then_read: the list runs whole or not at all. */
    method Carry(msgs: array<Msg>) returns (rc: int)
      requires Shaped(msgs[..]) && Addressable(msgs[..])
      modifies dev, msgs
      ensures var w := old(dev.wire) + DvbskySegs(old(msgs[..]));
              && dev.wire == (if old(Runs(msgs[..])) then w else old(dev.wire))
              && rc <= 0 && (rc == 0 <==> old(Done(msgs[..])))
              && rc == RcAt(old(dev.count), old(msgs[..]))
              && (rc == 0 ==> dev.wire == w && msgs[..] == LastFilled(dev.slave, w, old(msgs[..])))
              && (rc == 0 ==> dev.count == old(dev.count) + 2)
    {
      ghost var m0 := msgs[..];
      var last := msgs.Length - 1;
      var data;
      rc, data := Exchange(msgs[..]);
      if rc == 0 && msgs[last].rd {
        msgs[last] := msgs[last].(buf := data);
        assert msgs[..] == m0[last := m0[last].(buf := data)];
      }
    }

    /** dvbsky_i2c_master_xfer. Message lists the bridge cannot carry are refused without
        touching the bus. */
    method Xfer(msgs: array<Msg>) returns (rc: int)
      requires Addressable(msgs[..])
      modifies dev, msgs
      ensures !Shaped(old(msgs[..])) ==> rc == -EOPNOTSUPP && dev.wire == old(dev.wire) && msgs[..] == old(msgs[..])
      ensures Shaped(old(msgs[..])) ==>
                var w := old(dev.wire) + DvbskySegs(old(msgs[..]));
                && dev.wire == (if old(Runs(msgs[..])) then w else old(dev.wire))
                && (if old(Done(msgs[..])) then rc == msgs.Length && msgs[..] == LastFilled(dev.slave, w, old(msgs[..]))
                    else rc < 0)
                && (rc >= 0 ==> dev.count == old(dev.count) + 2)
      ensures Shaped(old(msgs[..])) ==>
                var code := RcAt(old(dev.count), old(msgs[..])); rc == if code < 0 then code else msgs.Length
      ensures Shaped(old(msgs[..])) ==>
                var (u, v) := (dev.usb(old(dev.count)), dev.usb(old(dev.count) + 1));
                var m := old(msgs[..])[msgs.Length - 1];
                var out := if m.rd then 4 + (if msgs.Length == 2 then |old(msgs[..])[0].buf| else 0) else 3 + |m.buf|;
                rc == if u < 0 then u
                      else if u < out then -EIO
                      else if v < 0 then v
                      else if v < (if m.rd then |m.buf| + 1 else 1) then -EIO
                      else msgs.Length
      ensures Reliable(dev.usb) && Shaped(old(msgs[..])) ==> rc == msgs.Length
    {
      var num := msgs.Length;
      if num <= 0 || num > 2 {
        return -EOPNOTSUPP;
      }
      if num == 2 && (msgs[0].rd || !msgs[1].rd) {
        return -EOPNOTSUPP;
      }
      if |msgs[0].buf| > 60 || |msgs[num - 1].buf| > 60 {
        return -EOPNOTSUPP;
      }
      rc := Carry(msgs);
      return if rc < 0 then rc else num;
    }

    /** What becomes of a supported list whose frame is the k-th transfer: 0 or a negative code. */
    ghost function RcAt(k: nat, msgs: seq<Msg>): (rc: int)
      requires Shaped(msgs) && Addressable(msgs)
    {
      var (u, v, m) := (dev.usb(k), dev.usb(k + 1), msgs[|msgs| - 1]);
      if u < 0 then u
      else if u < |DvbskyEncode(msgs)| then -EIO
      else if v < 0 then v
      else if v < (if m.rd then |m.buf| + 1 else 1) then -EIO
      else 0
    }

    /** The frame of the list would be taken whole now. */
    ghost predicate Runs(msgs: seq<Msg>)
      requires Shaped(msgs) && Addressable(msgs)
      reads dev
    {
      |DvbskyEncode(msgs)| <= dev.usb(dev.count)
    }

    /** Both bulk transfers of the list would go through now. */
    ghost predicate Done(msgs: seq<Msg>)
      requires Shaped(msgs) && Addressable(msgs)
      reads dev
    {
      var m := msgs[|msgs| - 1];
      && Runs(msgs)
      && (if m.rd then |m.buf| + 1 else 1) <= dev.usb(dev.count + 1)
    }
  }

  function MaxZero(n: int): nat {
    if n < 0 then 0 else n
  }

  lemma LastSeg(msgs: seq<Msg>)
    requires Shaped(msgs)
    ensures var segs := DvbskySegs(msgs);
            var m := msgs[|msgs| - 1];
            && segs != []
            && segs[|segs| - 1] == (if m.rd then ReadSeg(msgs[0].addr, |m.buf|, true) else SegOf(m, true))
            && (|msgs| == 1 ==> segs == [SegOf(m, true)])
  {
    var same := Readdressed(msgs);
    if |msgs| == 1 {
      assert same == msgs;
      assert Segs(msgs) == [SegOf(msgs[0], true)];
    } else {
      assert Segs(same)[1] == ReadSeg(msgs[0].addr, |msgs[1].buf|, true);
    }
  }
}
