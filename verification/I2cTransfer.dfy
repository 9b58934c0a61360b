/** i2c_transfer of linuxdvbkpi/src/i2c.c: the adapter of any of the three bridges. */
module I2cTransfer {
  import opened Bytes
  import opened I2cBus
  import opened I2cMasters

  datatype Adapter = Em28xx(em: Em28xxMaster) | Dib0700(dib: Dib0700Master) | Dvbsky(sky: DvbskyMaster) {
    ghost function Objects(): set<object> {
      match this
      case Em28xx(em) => {em, em.dev}
      case Dib0700(dib) => {dib.dev, dib.buf}
      case Dvbsky(sky) => {sky.dev}
    }

    ghost predicate Valid() {
      match this
      case Em28xx(em) => em.dev.decode == Em28xxDecode
      case Dib0700(dib) => dib.dev.decode == Dib0700Decode && dib.buf.Length == 256
      case Dvbsky(_) => true
    }

    ghost function Slave(): Slave {
      match this
      case Em28xx(em) => em.dev.slave
      case Dib0700(dib) => dib.dev.slave
      case Dvbsky(sky) => sky.dev.slave
    }

    /** The history of the bus behind the bridge. */
    ghost function Wire(): seq<Seg>
      reads Objects()
    {
      match this
      case Em28xx(em) => em.dev.wire
      case Dib0700(dib) => dib.dev.wire
      case Dvbsky(sky) => sky.dev.wire
    }

    /** Neither USB nor the bus fails. */
    ghost predicate Sound() {
      match this
      case Em28xx(em) => em.Sound()
      case Dib0700(dib) => Reliable(dib.dev.usb)
      case Dvbsky(sky) => Reliable(sky.dev.usb)
    }

    /** The longest message the bridge carries as it is. */
    function MaxLen(): nat {
      match this
      case Em28xx(_) => 64
      case Dib0700(_) => 63
      case Dvbsky(_) => 60
    }

    /** How far the bridge has got through the answers of USB and of the status register. */
    ghost function Now(): Moment
      reads Objects()
    {
      match this
      case Em28xx(em) => Moment(em.dev.count, em.polls)
      case Dib0700(dib) => Moment(dib.dev.count, 0)
      case Dvbsky(sky) => Moment(sky.dev.count, 0)
    }

    /** The bus would see a write of m begun at t. */
    ghost predicate TakesAt(t: Moment, m: Msg) {
      match this
      case Em28xx(em) => 1 <= |m.buf| <= 64 && 0 <= em.dev.usb(t.count)
      case Dib0700(dib) => |m.buf| <= 252 && 0 <= dib.dev.usb(t.count)
      case Dvbsky(sky) => |m.buf| <= 60 && |m.buf| + 3 <= sky.dev.usb(t.count)
    }

    /** A write of m begun at t would be reported as done. */
    ghost predicate AcksAt(t: Moment, m: Msg) {
      && TakesAt(t, m)
      && match this
         case Em28xx(em) => PollRc(em.status, t.polls, em.maxPolls) == 0
         case Dib0700(_) => true
         case Dvbsky(sky) => 1 <= sky.dev.usb(t.count + 1)
    }

    /** What a transfer of msgs begun at t answers. */
    ghost function RcAt(t: Moment, msgs: seq<Msg>): int
      requires Addressable(msgs)
    {
      match this
      case Em28xx(em) => EndAt(em.OneByOne(), t, msgs, 0).rc
      case Dib0700(dib) => EndAt(dib.OneByOne(), t, msgs, 0).rc
      case Dvbsky(sky) =>
        if !Shaped(msgs) then -EOPNOTSUPP
        else if sky.RcAt(t.count, msgs) < 0 then sky.RcAt(t.count, msgs)
        else |msgs|
    }

    ghost predicate Takes(m: Msg)
      reads Objects()
    {
      TakesAt(Now(), m)
    }

    ghost predicate Acks(m: Msg)
      reads Objects()
    {
      AcksAt(Now(), m)
    }

    /** What the bus sees of a write of m that is taken. */
    function Written(m: Msg): Seg {
      if Dib0700? then Dib0700Seg(m, true) else SegOf(m, true)
    }
  }

  /** For the transactions that all three bridges support, each bridge shows the bus the
      messages themselves, and what dvbsky copies back is all that a read can bring. */
  lemma SameTransfers(slave: Slave, w0: seq<Seg>, m0: seq<Msg>)
    requires Simple(m0)
    ensures Em28xxSegs(m0) == Dib0700Segs(m0) == DvbskySegs(m0) == Segs(m0)
    ensures LastFilled(slave, w0 + Segs(m0), m0) == Direct(slave, w0, m0)
  {
    Em28xxSegsAre(m0);
    Dib0700SegsAre(m0);
    DvbskyDecodes(m0);
    BuffersShaped(slave, w0, Segs(m0), m0);
  }

  /** What each bridge does with any message list. */
  ghost predicate Carried(a: Adapter, w0: seq<Seg>, m0: seq<Msg>, w: seq<Seg>, m: seq<Msg>, rc: int) {
    match a
    case Em28xx(em) => Ran(em.dev.slave, w0, Em28xxSegs(m0), m0, w, m, rc)
    case Dib0700(dib) =>
      && Ran(dib.dev.slave, w0, Dib0700Segs(m0), m0, w, m, rc)
      && (rc >= 0 ==> forall i :: 0 <= i < |m0| && m0[i].rd ==> |m0[i].buf| < 64)
    case Dvbsky(sky) =>
      if !Shaped(m0) then rc == -EOPNOTSUPP && w == w0 && m == m0
      else if rc < 0 then w == w0 || w == w0 + DvbskySegs(m0)
      else rc == |m0| && w == w0 + DvbskySegs(m0) && m == LastFilled(sky.dev.slave, w, m0)
  }

  /** i2c_transfer: whichever bridge carries it, a transaction that all three support has the
      bus see, the buffers hold and the caller told what running the messages directly would;
      or it fails after a first part. */
  method Transfer(a: Adapter, msgs: array<Msg>) returns (rc: int)
    requires a.Valid() && Addressable(msgs[..])
    modifies a.Objects(), msgs
    ensures Carried(a, old(a.Wire()), old(msgs[..]), a.Wire(), msgs[..], rc)
    ensures rc == a.RcAt(old(a.Now()), old(msgs[..]))
    ensures rc >= 0 ==> a.Now().count == old(a.Now().count) + if a.Dvbsky? then 2 else msgs.Length
    ensures Simple(old(msgs[..])) ==>
              && Transferred(a.Slave(), old(a.Wire()), old(msgs[..]), a.Wire(), msgs[..], rc)
              && (a.Sound() ==> rc == msgs.Length)
  {
    ghost var (w0, m0) := (a.Wire(), msgs[..]);
    match a {
      case Em28xx(em) => rc := em.Xfer(msgs);
      case Dib0700(dib) => rc := dib.Xfer(msgs);
      case Dvbsky(sky) => rc := sky.Xfer(msgs);
    }
    if Simple(m0) {
      CarriedIsTransferred(a, w0, m0, a.Wire(), msgs[..], rc);
    }
  }

  lemma CarriedIsTransferred(a: Adapter, w0: seq<Seg>, m0: seq<Msg>, w: seq<Seg>, m: seq<Msg>, rc: int)
    requires Simple(m0) && Carried(a, w0, m0, w, m, rc)
    ensures Transferred(a.Slave(), w0, m0, w, m, rc)
  {
    SameTransfers(a.Slave(), w0, m0);
    assert Segs(m0)[..0] == [] && Segs(m0)[..|m0|] == Segs(m0) && w0 + [] == w0;
  }

  /** A write that is reported as done has been taken. The other way round fails on em28xx,
      when the status after the request is bad, and on dvbsky, when the reply is lost. */
  lemma AcksMeansTaken(a: Adapter, m: Msg)
    ensures a.Acks(m) ==> a.Takes(m)
    ensures a.Takes(m) && !a.Acks(m) <==>
              match a
              case Em28xx(em) => em.Takes(m) && PollRc(em.status, em.polls, em.maxPolls) < 0
              case Dib0700(_) => false
              case Dvbsky(sky) => sky.Takes(m) && sky.dev.usb(sky.dev.count + 1) < 1
  {
  }

  /** i2c_transfer of one write. */
  method Write(a: Adapter, m: Msg) returns (rc: int)
    requires a.Valid() && m.addr < 128 && !m.rd && m.buf != []
    modifies a.Objects()
    ensures a.Wire() == if old(a.Takes(m)) then old(a.Wire()) + [a.Written(m)] else old(a.Wire())
    ensures (rc == 1 <==> old(a.Acks(m))) && (rc < 0 <==> rc != 1)
    ensures rc == a.RcAt(old(a.Now()), [m])
    ensures a.Sound() && |m.buf| <= a.MaxLen() ==> rc == 1
  {
    var msgs := new Msg[1](_ => m);
    assert msgs[..] == [m];
    match a {
      case Em28xx(em) => rc := em.Xfer(msgs);
      case Dib0700(dib) => rc := dib.Xfer(msgs);
      case Dvbsky(sky) => rc := OneDvbskyWrite(sky, msgs, m);
    }
  }

  method OneDvbskyWrite(sky: DvbskyMaster, msgs: array<Msg>, m: Msg) returns (rc: int)
    requires msgs[..] == [m] && m.addr < 128 && !m.rd && m.buf != []
    modifies sky.dev, msgs
    ensures sky.dev.wire == if old(sky.Takes(m)) then old(sky.dev.wire) + [SegOf(m, true)] else old(sky.dev.wire)
    ensures rc == 1 <==> old(sky.Takes(m)) && 1 <= sky.dev.usb(old(sky.dev.count) + 1)
    ensures rc < 0 <==> rc != 1
    ensures rc == Dvbsky(sky).RcAt(Moment(old(sky.dev.count), 0), [m])
    ensures Reliable(sky.dev.usb) && |m.buf| <= 60 ==> rc == 1
  {
    if |m.buf| <= 60 {
      LastSeg([m]);
      assert |DvbskyEncode([m])| == |m.buf| + 3;
    }
    rc := sky.Xfer(msgs);
  }

  /** Any part of a [write; read] to one address on the bus: nothing, the write, or both, the
      read possibly shortened or ended early. */
  ghost predicate PartOf(w: seq<Seg>, w0: seq<Seg>, addr: nat, data: seq<byte>) {
    || w == w0
    || w == w0 + [WriteSeg(addr, data, false)]
    || exists k: nat :: w == w0 + [WriteSeg(addr, data, false), ReadSeg(addr, k, true)]
  }

  /** [write; read] to one address. */
  function Pair(addr: nat, data: seq<byte>, n: nat): (msgs: seq<Msg>)
    requires addr < 128
    ensures |msgs| == 2 && Addressable(msgs)
  {
    [Msg(addr, false, data), Msg(addr, true, seq(n, _ => 0))]
  }

  /** What such a transfer of one byte each answers on em28xx: the first to fail of the write's
      request, its status, the read's request, its status, and the byte that has to come. */
  lemma PairOnEm28xx(em: Em28xxMaster, t: Moment, addr: nat, reg: byte)
    requires addr < 128
    ensures var (u, p) := (em.dev.usb(t.count), PollRc(em.status, t.polls, em.maxPolls));
            var (v, q) := (em.dev.usb(t.count + 1),
                           PollRc(em.status, t.polls + Polled(em.status, t.polls, em.maxPolls), em.maxPolls));
            Em28xx(em).RcAt(t, Pair(addr, [reg], 1)) ==
            if u < 0 then u else if p < 0 then p else if v < 0 then v else if q < 0 then q
            else if v == 0 then -EIO else 2
  {
    var m := Pair(addr, [reg], 1);
    EndAtOne(em.OneByOne(), t, m, 0);
    EndAtOne(em.OneByOne(), em.AfterAt(t, m[0]), m, 1);
  }

  /** On the other bridges there is no status. */
  lemma PairOnDib0700(dib: Dib0700Master, t: Moment, addr: nat, reg: byte)
    requires addr < 128
    ensures var (u, v) := (dib.dev.usb(t.count), dib.dev.usb(t.count + 1));
            Dib0700(dib).RcAt(t, Pair(addr, [reg], 1)) ==
            if u < 0 then u else if v < 0 then v else if v == 0 then -EIO else 2
  {
    var m := Pair(addr, [reg], 1);
    EndAtOne(dib.OneByOne(), t, m, 0);
    EndAtOne(dib.OneByOne(), Moment(t.count + 1, 0), m, 1);
  }

  /** A dvbsky frame of five bytes and a reply of two. */
  lemma PairOnDvbsky(sky: DvbskyMaster, t: Moment, addr: nat, reg: byte)
    requires addr < 128
    ensures var (u, v) := (sky.dev.usb(t.count), sky.dev.usb(t.count + 1));
            Dvbsky(sky).RcAt(t, Pair(addr, [reg], 1)) ==
            if u < 0 then u else if u < 5 then -EIO else if v < 0 then v else if v < 2 then -EIO else 2
  {
    assert |DvbskyEncode(Pair(addr, [reg], 1))| == 5;
  }

  /** i2c_transfer of [write; read] to one address. */
  method WriteRead(a: Adapter, addr: nat, data: seq<byte>, n: nat) returns (rc: int, buf: seq<byte>)
    requires a.Valid() && addr < 128 && 1 <= |data| <= 60
    modifies a.Objects()
    ensures PartOf(a.Wire(), old(a.Wire()), addr, data)
    ensures rc < 0 || rc == 2
    ensures rc == a.RcAt(old(a.Now()), Pair(addr, data, n))
    ensures rc == 2 && 0 < n ==>
              a.Wire() == old(a.Wire()) + [WriteSeg(addr, data, false), ReadSeg(addr, n, true)]
              && buf == Reply(a.Slave(), a.Wire(), n)
    ensures rc == 2 ==> |buf| == n && a.Now().count == old(a.Now().count) + 2
    ensures a.Sound() && 1 <= n <= Min(60, a.MaxLen()) ==> rc == 2
  {
    var m0 := Pair(addr, data, n);
    var msgs := new Msg[2](i requires 0 <= i < 2 => m0[i]);
    assert msgs[..] == m0;
    ghost var w0 := a.Wire();
    rc := Transfer(a, msgs);
    PairCarried(a, w0, a.Wire(), msgs[..], rc, addr, data, n);
    buf := msgs[1].buf;
  }

  /** What a pair leaves, whichever bridge has carried it. */
  lemma PairCarried(a: Adapter, w0: seq<Seg>, w: seq<Seg>, m: seq<Msg>, rc: int, addr: nat, data: seq<byte>, n: nat)
    requires addr < 128 && 1 <= |data| <= 60 && Carried(a, w0, Pair(addr, data, n), w, m, rc)
    ensures PartOf(w, w0, addr, data) && (rc < 0 || rc == 2)
    ensures rc == 2 ==> |m| == 2 && |m[1].buf| == n
    ensures rc == 2 && 0 < n ==>
              w == w0 + [WriteSeg(addr, data, false), ReadSeg(addr, n, true)] && m[1].buf == Reply(a.Slave(), w, n)
  {
    var m0 := Pair(addr, data, n);
    TwoSegs(addr, data, n);
    match a
    case Em28xx(em) => RanTwo(em.dev.slave, w0, Em28xxSegs(m0), m0, w, m, rc, addr, data);
    case Dib0700(dib) => RanTwo(dib.dev.slave, w0, Dib0700Segs(m0), m0, w, m, rc, addr, data);
    case Dvbsky(sky) => assert w0 + [] == w0;
  }

  lemma RanTwo(slave: Slave, w0: seq<Seg>, segs: seq<Seg>, m0: seq<Msg>, w: seq<Seg>, m: seq<Msg>, rc: int,
               addr: nat, data: seq<byte>)
    requires |segs| == |m0| == 2 && m0[1].rd && Ran(slave, w0, segs, m0, w, m, rc)
    requires segs[0] == WriteSeg(addr, data, false) && segs[1].ReadSeg? && segs[1].addr == addr && segs[1].stop
    ensures PartOf(w, w0, addr, data)
    ensures rc < 0 || (rc == 2 && |m| == 2 && w == w0 + segs && m[1].buf == Reply(slave, w, |m0[1].buf|))
  {
    assert segs[..0] == [] && segs[..1] == [segs[0]] && segs[..2] == segs == [segs[0], segs[1]];
    assert w0 + [] == w0;
  }

  lemma TwoSegs(addr: nat, data: seq<byte>, n: nat)
    requires addr < 128 && 1 <= |data| <= 60
    ensures var m0 := Pair(addr, data, n);
            var w := WriteSeg(addr, data, false);
            && Segs(m0) == [w, ReadSeg(addr, n, true)] == DvbskySegs(m0)
            && Em28xxSegs(m0) == [w, ReadSeg(addr, if n == 0 then 1 else n, true)]
            && Dib0700Segs(m0) == [w, ReadSeg(addr, n % 64, true)]
  {
    assert data[..|data| % 64] == data;
  }
}
