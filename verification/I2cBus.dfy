/** Message lists as the chip drivers write them, what they mean on an i2c bus (addressing
    as in section 3.1.10 of NXP UM10204), and what the three bridges make of them. */
module I2cBus {
  import opened Bytes

  /** struct i2c_msg; the length is that of buf. */
  datatype Msg = Msg(addr: nat, rd: bool, buf: seq<byte>)

  /** One addressed transfer on the bus, opened by a (repeated) START. */
  datatype Seg = WriteSeg(addr: nat, data: seq<byte>, stop: bool) | ReadSeg(addr: nat, n: nat, stop: bool)

  /** Whatever answers on the bus: the bytes it drives in the last transfer of a history. */
  type Slave = seq<Seg> -> seq<byte>

  /** What the master reads: n bytes, the bus floating low where the slave drives none. */
  function Reply(slave: Slave, wire: seq<Seg>, n: nat): (r: seq<byte>)
    ensures |r| == n
  {
    var driven := slave(wire);
    seq(n, i requires 0 <= i => if i < |driven| then driven[i] else 0)
  }

  function SegOf(m: Msg, stop: bool): Seg {
    if m.rd then ReadSeg(m.addr, |m.buf|, stop) else WriteSeg(m.addr, m.buf, stop)
  }

  /** The transfers of a message list: a STOP only at the very end. */
  function Segs(msgs: seq<Msg>): (s: seq<Seg>)
    ensures |s| == |msgs|
  {
    seq(|msgs|, i requires 0 <= i < |msgs| => SegOf(msgs[i], i == |msgs| - 1))
  }

  /** The message after its transfer, `wire` being the bus history up to and with it. */
  function Filled(slave: Slave, wire: seq<Seg>, m: Msg): Msg {
    if m.rd then m.(buf := Reply(slave, wire, |m.buf|)) else m
  }

  /** The buffers after transfers segs, one a message, on a bus whose history was `wire`. */
  function Buffers(slave: Slave, wire: seq<Seg>, segs: seq<Seg>, msgs: seq<Msg>): (r: seq<Msg>)
    requires |segs| == |msgs|
    ensures |r| == |msgs|
  {
    seq(|msgs|, i requires 0 <= i < |msgs| => Filled(slave, wire + segs[..i + 1], msgs[i]))
  }

  /** Running the messages directly: the buffers afterwards. */
  function Direct(slave: Slave, wire: seq<Seg>, msgs: seq<Msg>): (r: seq<Msg>)
    ensures |r| == |msgs|
  {
    Buffers(slave, wire, Segs(msgs), msgs)
  }

  predicate Addressable(msgs: seq<Msg>) {
    forall i :: 0 <= i < |msgs| ==> msgs[i].addr < 128
  }

  predicate NonEmpty(msgs: seq<Msg>) {
    forall i :: 0 <= i < |msgs| ==> msgs[i].buf != []
  }

  predicate AtMost(msgs: seq<Msg>, n: nat) {
    forall i :: 0 <= i < |msgs| ==> |msgs[i].buf| <= n
  }

  /** [write], [read] or [write; read], of at most 60 bytes each. */
  predicate Shaped(msgs: seq<Msg>) {
    1 <= |msgs| <= 2 && AtMost(msgs, 60) && (|msgs| == 2 ==> !msgs[0].rd && msgs[1].rd)
  }

  predicate OneAddress(msgs: seq<Msg>) {
    forall i :: 0 < i < |msgs| ==> msgs[i].addr == msgs[0].addr
  }

  /** The messages with the first one's address on all of them. */
  function Readdressed(msgs: seq<Msg>): (r: seq<Msg>)
    ensures |r| == |msgs| && OneAddress(r)
    ensures OneAddress(msgs) ==> r == msgs
  {
    seq(|msgs|, i requires 0 <= i < |msgs| => msgs[i].(addr := msgs[0].addr))
  }

  /** The transactions all three bridges support: 1 to 60 bytes each, one 7-bit address. */
  predicate Simple(msgs: seq<Msg>) {
    Shaped(msgs) && Addressable(msgs) && NonEmpty(msgs) && OneAddress(msgs)
  }

  // ---- em28xx: vendor control requests ----------------------------------------------

  /** A control request: IN with the number of bytes wanted, or OUT with a payload. */
  datatype Control =
    | In(bRequest: nat, wValue: nat, wIndex: nat, wLength: nat)
    | Out(bRequest: nat, wValue: nat, wIndex: nat, payload: seq<byte>)

  /** An empty message is sent as a probe: one byte is read and thrown away. */
  function Em28xxEncode(m: Msg, last: bool): Control {
    if m.buf == [] then In(2, 0, 2 * m.addr, 1)
    else if m.rd then In(2, 0, 2 * m.addr, |m.buf|)
    else Out(if last then 2 else 3, 0, 2 * m.addr, m.buf)
  }

  /** Request 3 keeps the bus after a write, request 2 ends with a STOP; the address stands one bit
      to the left, as on the wire. */
  lemma Em28xxRequest(m: Msg, last: bool)
    ensures var c := Em28xxEncode(m, last);
            && c.bRequest == (if m.buf != [] && !m.rd && !last then 3 else 2)
            && c.wValue == 0 && c.wIndex / 2 == m.addr && c.wIndex % 2 == 0
            && (c.Out? <==> m.buf != [] && !m.rd)
            && (c.Out? ==> c.payload == m.buf)
            && (c.In? ==> c.wLength == if |m.buf| == 0 then 1 else |m.buf|)
  {
  }

  function Em28xxDecode(c: Control): Option<Seg> {
    match c
    case In(2, _, index, n) => Some(ReadSeg(index / 2, n, true))
    case Out(2, _, index, data) => Some(WriteSeg(index / 2, data, true))
    case Out(3, _, index, data) => Some(WriteSeg(index / 2, data, false))
    case _ => None
  }

  /** What the bus sees of a message sent through em28xx. */
  function Em28xxSeg(m: Msg, last: bool): Seg {
    if m.buf == [] then ReadSeg(m.addr, 1, true)
    else if m.rd then ReadSeg(m.addr, |m.buf|, true)
    else WriteSeg(m.addr, m.buf, last)
  }

  function Em28xxSegs(msgs: seq<Msg>): (s: seq<Seg>)
    ensures |s| == |msgs|
  {
    seq(|msgs|, i requires 0 <= i < |msgs| => Em28xxSeg(msgs[i], i == |msgs| - 1))
  }

  /** The em28xx algorithm cannot hold the bus after a read, and probes with a read. */
  lemma Em28xxDecodes(m: Msg, last: bool)
    ensures Em28xxDecode(Em28xxEncode(m, last)) == Some(Em28xxSeg(m, last))
    ensures Em28xxSeg(m, last) == SegOf(m, last) <==> m.buf != [] && (last || !m.rd)
  {
  }

  lemma Em28xxSegsAre(msgs: seq<Msg>)
    ensures Em28xxSegs(msgs) == Segs(msgs) <==>
              forall i :: 0 <= i < |msgs| ==> msgs[i].buf != [] && (i == |msgs| - 1 || !msgs[i].rd)
  {
    forall i | 0 <= i < |msgs|
      ensures Em28xxSegs(msgs)[i] == Segs(msgs)[i] <==> msgs[i].buf != [] && (i == |msgs| - 1 || !msgs[i].rd)
    {
      Em28xxDecodes(msgs[i], i == |msgs| - 1);
    }
    if Em28xxSegs(msgs) == Segs(msgs) {
      assert forall i :: 0 <= i < |msgs| ==> Em28xxSegs(msgs)[i] == Segs(msgs)[i];
    }
  }

  // ---- dib0700: NEW_I2C_READ and NEW_I2C_WRITE ---------------------------------------

  function Flags(stop: bool, len: nat): (r: byte) {
    128 + (if stop then 64 else 0) + len % 64
  }

  function Dib0700Encode(m: Msg, last: bool): Control
    requires m.addr < 128
  {
    if m.rd then In(0x12, Flags(last, |m.buf|) * 256 + 2 * m.addr, 0x10, |m.buf|)
    else Out(0x13, 0, 0, [0x13, 2 * m.addr, Flags(last, |m.buf|), 0x10] + m.buf)
  }

  /** Start bit, stop bit and six length bits in one byte, the address one bit to the left: in the
      value of a read, and in the four bytes ahead of what a write sends. */
  lemma Dib0700Request(m: Msg, last: bool)
    requires m.addr < 128
    ensures var flags: nat := (if last then 192 else 128) + |m.buf| % 64;
            Dib0700Encode(m, last) ==
            if m.rd then In(0x12, 256 * flags + 2 * m.addr, 0x10, |m.buf|)
            else Out(0x13, 0, 0, [0x13, 2 * m.addr, flags, 0x10] + m.buf)
  {
  }

  /** The bridge goes by the length in the header. */
  function Dib0700Decode(c: Control): Option<Seg> {
    match c
    case In(0x12, value, _, _) =>
      if value / 256 / 128 == 1
      then Some(ReadSeg(value % 256 / 2, value / 256 % 64, value / 256 / 64 % 2 == 1)) else None
    case Out(0x13, _, _, p) =>
      if 4 <= |p| && p[2] / 128 == 1 && p[2] % 64 <= |p| - 4
      then Some(WriteSeg(p[1] / 2, p[4..4 + p[2] % 64], p[2] / 64 % 2 == 1)) else None
    case _ => None
  }

  /** What the bus sees of a message sent through dib0700. */
  function Dib0700Seg(m: Msg, stop: bool): Seg {
    var n := |m.buf| % 64;
    if m.rd then ReadSeg(m.addr, n, stop) else WriteSeg(m.addr, m.buf[..n], stop)
  }

  function Dib0700Segs(msgs: seq<Msg>): (s: seq<Seg>)
    ensures |s| == |msgs|
  {
    seq(|msgs|, i requires 0 <= i < |msgs| => Dib0700Seg(msgs[i], i == |msgs| - 1))
  }

  lemma FlagsMean(stop: bool, len: nat)
    ensures var f := Flags(stop, len); f / 128 == 1 && f % 64 == len % 64 && (f / 64 % 2 == 1 <==> stop)
  {
  }

  /** Six length bits: the header describes the message exactly up to 63 bytes. */
  lemma Dib0700Decodes(m: Msg, last: bool)
    requires m.addr < 128
    ensures Dib0700Decode(Dib0700Encode(m, last)) == Some(Dib0700Seg(m, last))
    ensures Dib0700Seg(m, last) == SegOf(m, last) <==> |m.buf| < 64
  {
    var f := Flags(last, |m.buf|);
    FlagsMean(last, |m.buf|);
    if m.rd {
      var value := f * 256 + 2 * m.addr;
      assert value / 256 == f && value % 256 == 2 * m.addr;
    } else {
      var p := Dib0700Encode(m, last).payload;
      assert p[4..] == m.buf;
      assert p[4..4 + |m.buf| % 64] == m.buf[..|m.buf| % 64];
    }
  }

  lemma Dib0700SegsAre(msgs: seq<Msg>)
    requires Addressable(msgs)
    ensures Dib0700Segs(msgs) == Segs(msgs) <==> AtMost(msgs, 63)
  {
    forall i | 0 <= i < |msgs| ensures Dib0700Segs(msgs)[i] == Segs(msgs)[i] <==> |msgs[i].buf| < 64 {
      Dib0700Decodes(msgs[i], i == |msgs| - 1);
    }
    if Dib0700Segs(msgs) == Segs(msgs) {
      assert forall i :: 0 <= i < |msgs| ==> Dib0700Segs(msgs)[i] == Segs(msgs)[i];
    }
  }

  // ---- dvbsky: command frames ----------------------------------------------------------

  function DvbskyEncode(msgs: seq<Msg>): (frame: seq<byte>)
    requires Shaped(msgs) && Addressable(msgs)
  {
    var m := msgs[0];
    if |msgs| == 2 then [0x09, |m.buf|, |msgs[1].buf|, m.addr] + m.buf
    else if m.rd then [0x09, 0, |m.buf|, m.addr]
    else [0x08, m.addr, |m.buf|] + m.buf
  }

  /** Opcode 8: address, length, bytes. Opcode 9: bytes to write, bytes to read, address, bytes. */
  lemma DvbskyFrame(msgs: seq<Msg>)
    requires Shaped(msgs) && Addressable(msgs)
    ensures var (f, m) := (DvbskyEncode(msgs), msgs[|msgs| - 1]);
            if m.rd then
              var w: seq<byte> := if |msgs| == 2 then msgs[0].buf else [];
              && |f| == 4 + |w| && f[0] == 9 && f[1] == |w| && f[2] == |m.buf| && f[3] == msgs[0].addr && f[4..] == w
            else |f| == 3 + |m.buf| && f[0] == 8 && f[1] == m.addr && f[2] == |m.buf| && f[3..] == m.buf
  {
  }

  /** The frame's transfers, oldest first. */
  function DvbskyDecode(f: seq<byte>): Option<seq<Seg>> {
    if 3 <= |f| && f[0] == 0x08 && |f| - 3 == f[2] then Some([WriteSeg(f[1], f[3..], true)])
    else if 4 <= |f| && f[0] == 0x09 && |f| - 4 == f[1] then
      if f[1] == 0 then Some([ReadSeg(f[3], f[2], true)])
      else Some([WriteSeg(f[3], f[4..], false), ReadSeg(f[3], f[2], true)])
    else None
  }

  /** What the bus sees of a message list sent through dvbsky: all of it under the address of
      the first message, and nothing of an empty write before a read. */
  function DvbskySegs(msgs: seq<Msg>): seq<Seg> {
    if |msgs| == 2 && msgs[0].buf == [] then [ReadSeg(msgs[0].addr, |msgs[1].buf|, true)]
    else Segs(Readdressed(msgs))
  }

  /** The frame has room for one address, and a write length of 0 means there is no write. */
  lemma DvbskyDecodes(msgs: seq<Msg>)
    requires Shaped(msgs) && Addressable(msgs)
    ensures DvbskyDecode(DvbskyEncode(msgs)) == Some(DvbskySegs(msgs))
    ensures DvbskySegs(msgs) == Segs(msgs) <==> OneAddress(msgs) && (|msgs| == 2 ==> msgs[0].buf != [])
  {
    var m := msgs[0];
    var f := DvbskyEncode(msgs);
    if |msgs| == 2 {
      assert f[4..] == m.buf;
      var same := Segs(Readdressed(msgs));
      assert same == [SegOf(m, false), ReadSeg(m.addr, |msgs[1].buf|, true)];
      assert Segs(msgs) == [SegOf(m, false), SegOf(msgs[1], true)];
      assert same == Segs(msgs) <==> same[1] == Segs(msgs)[1];
    } else {
      assert Readdressed(msgs) == msgs == [m];
      assert m.rd || f[3..] == m.buf;
      assert Segs(msgs) == [SegOf(m, true)];
    }
  }

  /** Control requests one after the other, as a slave sees them. */
  function DecodeAll(decode: Control -> Option<Seg>, cs: seq<Control>): Option<seq<Seg>> {
    if cs == [] then Some([])
    else
      match decode(cs[0])
      case None => None
      case Some(seg) =>
        match DecodeAll(decode, cs[1..])
        case None => None
        case Some(rest) => Some([seg] + rest)
  }

  lemma {:induction false} DecodeEach(decode: Control -> Option<Seg>, cs: seq<Control>, segs: seq<Seg>)
    requires |cs| == |segs| && forall i :: 0 <= i < |cs| ==> decode(cs[i]) == Some(segs[i])
    ensures DecodeAll(decode, cs) == Some(segs)
    decreases |cs|
  {
    if cs != [] {
      DecodeEach(decode, cs[1..], segs[1..]);
      assert segs == [segs[0]] + segs[1..];
    }
  }

  function Em28xxRequests(msgs: seq<Msg>): seq<Control> {
    seq(|msgs|, i requires 0 <= i < |msgs| => Em28xxEncode(msgs[i], i == |msgs| - 1))
  }

  function Dib0700Requests(msgs: seq<Msg>): seq<Control>
    requires forall i :: 0 <= i < |msgs| ==> msgs[i].addr < 128
  {
    seq(|msgs|, i requires 0 <= i < |msgs| && msgs[i].addr < 128 => Dib0700Encode(msgs[i], i == |msgs| - 1))
  }

  /** Three encodings, one meaning: for every supported transaction the requests of each
      bridge decode to the same bus transfers, those of the messages themselves. */
  lemma OneMeaning(msgs: seq<Msg>)
    requires Simple(msgs)
    ensures DecodeAll(Em28xxDecode, Em28xxRequests(msgs)) == Some(Segs(msgs))
    ensures DecodeAll(Dib0700Decode, Dib0700Requests(msgs)) == Some(Segs(msgs))
    ensures DvbskyDecode(DvbskyEncode(msgs)) == Some(Segs(msgs))
  {
    forall i | 0 <= i < |msgs|
      ensures Em28xxDecode(Em28xxRequests(msgs)[i]) == Some(Segs(msgs)[i])
      ensures Dib0700Decode(Dib0700Requests(msgs)[i]) == Some(Segs(msgs)[i])
    {
      Em28xxDecodes(msgs[i], i == |msgs| - 1);
      Dib0700Decodes(msgs[i], i == |msgs| - 1);
    }
    DecodeEach(Em28xxDecode, Em28xxRequests(msgs), Segs(msgs));
    DecodeEach(Dib0700Decode, Dib0700Requests(msgs), Segs(msgs));
    DvbskyDecodes(msgs);
  }
}
