/** The firmware upload of bridges/dib0700/bridge/src/dib0700_fw.c: a blob of
    variable-length records, each repackaged and written to the bridge, then a jump. */
module Firmware {
  import opened Bytes

  const HEADER: nat := 4
  const PKT_SZ: nat := 260

  /** len, two address bytes, type, payload, checksum. */
  datatype Record = Record(a1: byte, a2: byte, kind: byte, payload: seq<byte>, checksum: byte)

  predicate WellFormed(r: Record) {
    |r.payload| < 256
  }

  function Encode(r: Record): (s: seq<byte>)
    requires WellFormed(r)
    ensures |s| == |r.payload| + 5
  {
    [|r.payload|, r.a1, r.a2, r.kind] + r.payload + [r.checksum]
  }

  function Concat(rs: seq<Record>): seq<byte>
    requires forall r :: r in rs ==> WellFormed(r)
  {
    if rs == [] then [] else Encode(rs[0]) + Concat(rs[1..])
  }

  /** The bounds checks of the walk at pos. */
  predicate RecordAt(fw: seq<byte>, pos: nat) {
    pos + HEADER <= |fw| && pos + fw[pos] + HEADER + 1 <= |fw|
  }

  function Extent(fw: seq<byte>, pos: nat): nat
    requires pos < |fw|
  {
    fw[pos] + HEADER + 1
  }

  function Decode(fw: seq<byte>, pos: nat): (r: Record)
    requires RecordAt(fw, pos)
    ensures WellFormed(r)
  {
    var n := fw[pos];
    Record(fw[pos + 1], fw[pos + 2], fw[pos + 3], fw[pos + 4..pos + 4 + n], fw[pos + 4 + n])
  }

  /** The records from pos to the end, if the rest of the blob consists of records. */
  function Records(fw: seq<byte>, pos: nat): (o: Option<seq<Record>>)
    requires pos <= |fw|
    ensures o.Some? ==> forall r :: r in o.value ==> WellFormed(r)
    decreases |fw| - pos
  {
    if pos == |fw| then Some([])
    else if !RecordAt(fw, pos) then None
    else
      match Records(fw, pos + Extent(fw, pos))
      case None => None
      case Some(rest) => Some([Decode(fw, pos)] + rest)
  }

  lemma DecodeEncode(fw: seq<byte>, pos: nat)
    requires RecordAt(fw, pos)
    ensures Encode(Decode(fw, pos)) == fw[pos..pos + Extent(fw, pos)]
  {
  }

  lemma {:induction false} RecordsConcat(fw: seq<byte>, pos: nat)
    requires pos <= |fw|
    ensures Records(fw, pos).Some? ==> Concat(Records(fw, pos).value) == fw[pos..]
    decreases |fw| - pos
  {
    if pos < |fw| && RecordAt(fw, pos) {
      var next := pos + Extent(fw, pos);
      DecodeEncode(fw, pos);
      RecordsConcat(fw, next);
      if Records(fw, pos).Some? {
        var rest := Records(fw, next).value;
        assert ([Decode(fw, pos)] + rest)[1..] == rest;
        assert fw[pos..] == fw[pos..next] + fw[next..];
      }
    }
  }

  lemma EncodeDecode(fw: seq<byte>, pos: nat, r: Record)
    requires WellFormed(r) && pos <= |fw| && Encode(r) <= fw[pos..]
    ensures RecordAt(fw, pos) && Decode(fw, pos) == r && Extent(fw, pos) == |Encode(r)|
  {
    var e := Encode(r);
    assert forall i :: 0 <= i < |e| ==> fw[pos + i] == fw[pos..][i] == e[i];
    assert e[4..4 + |r.payload|] == r.payload;
    assert fw[pos + 4..pos + 4 + |r.payload|] == r.payload;
  }

  lemma {:induction false} ConcatRecords(fw: seq<byte>, pos: nat, rs: seq<Record>)
    requires pos <= |fw| && (forall r :: r in rs ==> WellFormed(r)) && Concat(rs) == fw[pos..]
    ensures Records(fw, pos) == Some(rs)
    decreases |rs|
  {
    if rs != [] {
      EncodeDecode(fw, pos, rs[0]);
      var next := pos + |Encode(rs[0])|;
      assert fw[next..] == fw[pos..][|Encode(rs[0])|..] == Concat(rs[1..]);
      ConcatRecords(fw, next, rs[1..]);
      assert [rs[0]] + rs[1..] == rs;
    } else {
      assert |fw[pos..]| == 0;
    }
  }

  /** A blob is accepted exactly when it is a concatenation of records, and then they are
      the only ones it can be cut into. */
  lemma AcceptedIffRecords(fw: seq<byte>)
    ensures forall rs: seq<Record> :: (forall r :: r in rs ==> WellFormed(r)) ==>
              (Concat(rs) == fw <==> Records(fw, 0) == Some(rs))
  {
    assert fw[0..] == fw;
    forall rs: seq<Record> | forall r :: r in rs ==> WellFormed(r)
      ensures Concat(rs) == fw <==> Records(fw, 0) == Some(rs)
    {
      if Concat(rs) == fw {
        ConcatRecords(fw, 0, rs);
      }
      RecordsConcat(fw, 0);
    }
  }

  // ---- the packets ------------------------------------------------------------

  /** The packet sent for a record. The two address bytes are read low byte first and
      written high byte first, so they change places. */
  function PacketOf(r: Record): seq<byte>
    requires WellFormed(r)
  {
    [|r.payload|, r.a2, r.a1, r.kind] + r.payload + [r.checksum]
  }

  function Packets(rs: seq<Record>): seq<seq<byte>>
    requires forall r :: r in rs ==> WellFormed(r)
  {
    seq(|rs|, i requires 0 <= i < |rs| && WellFormed(rs[i]) => PacketOf(rs[i]))
  }

  function SwapBack(pkt: seq<byte>): seq<byte>
    requires 3 <= |pkt|
  {
    pkt[1 := pkt[2]][2 := pkt[1]]
  }

  function Restore(pkts: seq<seq<byte>>): seq<byte>
    requires forall p :: p in pkts ==> 3 <= |p|
  {
    if pkts == [] then [] else SwapBack(pkts[0]) + Restore(pkts[1..])
  }

  /** With bytes 1 and 2 of each put back, the packets concatenate to the blob. */
  lemma {:induction false} PacketsRestore(rs: seq<Record>)
    requires forall r :: r in rs ==> WellFormed(r)
    ensures forall p :: p in Packets(rs) ==> 3 <= |p|
    ensures Restore(Packets(rs)) == Concat(rs)
    decreases |rs|
  {
    if rs != [] {
      PacketsRestore(rs[1..]);
      assert Packets(rs)[1..] == Packets(rs[1..]);
      assert SwapBack(PacketOf(rs[0])) == Encode(rs[0]);
    }
  }

  /** Every packet fits the 260-byte buffer, and a 255-byte payload fills it. */
  lemma PacketFits(r: Record)
    requires WellFormed(r)
    ensures |PacketOf(r)| <= PKT_SZ && (|PacketOf(r)| == PKT_SZ <==> |r.payload| == 255)
  {
  }

  // ---- the upload -----------------------------------------------------------------

  /** How a download ended. FormatError is the walk's own -EINVAL. */
  datatype Outcome = FormatError | WriteFailed(rc: int) | ShortWrite | JumpFailed(rc: int) | Booted

  /** usbq_bulk_write's answer to the k-th packet: bytes written, or negative. The last
      answer is for the jump command. */
  type Usb = nat -> int

  /** The bulk writes attempted, in order, and whether the jump was among them. */
  datatype Report = Report(writes: seq<seq<byte>>, jumped: bool, outcome: Outcome)

  const ENTRY: nat := 0x7000_0000
  const JUMP_SZ := 8

  /** Big-endian value of a byte string. */
  function BigEndian(s: seq<byte>): nat {
    if s == [] then 0 else BigEndian(s[..|s| - 1]) * 256 + s[|s| - 1]
  }

  function JumpCommand(address: nat): (cmd: seq<byte>)
    ensures |cmd| == JUMP_SZ
  {
    [0x08, 0, 0, 0, address / 0x100_0000 % 256, address / 0x1_0000 % 256, address / 0x100 % 256, address % 256]
  }

  lemma BigEndianSnoc(s: seq<byte>, b: byte)
    ensures BigEndian(s + [b]) == BigEndian(s) * 256 + b
  {
    assert (s + [b])[..|s|] == s;
  }

  lemma FourBytes(a: byte, b: byte, c: byte, d: byte)
    ensures BigEndian([a, b, c, d]) == 0x100_0000 * a + 0x1_0000 * b + 0x100 * c + d
  {
    BigEndianSnoc([], a);
    BigEndianSnoc([a], b);
    BigEndianSnoc([a, b], c);
    BigEndianSnoc([a, b, c], d);
    assert [] + [a] == [a] && [a] + [b] == [a, b] && [a, b] + [c] == [a, b, c] && [a, b, c] + [d] == [a, b, c, d];
  }

  lemma HighBytes(x: nat)
    requires x < 0x1_0000_0000
    ensures x / 0x100_0000 < 256
    ensures x == 0x100 * (x / 0x100) + x % 0x100
    ensures x / 0x100 == 0x100 * (x / 0x1_0000) + x / 0x100 % 0x100
    ensures x / 0x1_0000 == 0x100 * (x / 0x100_0000) + x / 0x1_0000 % 0x100
  {
  }

  lemma JumpCommandCarries(address: nat)
    requires address < 0x1_0000_0000
    ensures BigEndian(JumpCommand(address)[4..]) == address
  {
    var t := JumpCommand(address)[4..];
    FourBytes(t[0], t[1], t[2], t[3]);
    HighBytes(address);
    assert t == [t[0], t[1], t[2], t[3]];
  }

  /** The jump that ends an upload. */
  lemma EntryJump()
    ensures JumpCommand(ENTRY) == [0x08, 0, 0, 0, 0x70, 0, 0, 0]
  {
  }

  /** No record is sent as a packet that could be taken for the jump: a packet announces
      five bytes fewer than it has. */
  lemma NoPacketIsAJump(r: Record, address: nat)
    requires WellFormed(r)
    ensures PacketOf(r) != JumpCommand(address)
  {
    assert PacketOf(r)[0] == |r.payload| == |PacketOf(r)| - 5;
    assert JumpCommand(address)[0] == 8 == |JumpCommand(address)|;
  }

  /** How many of the packets, the first being usb's k-th write, go out before one that is
      not fully written. */
  function Delivered(pkts: seq<seq<byte>>, usb: Usb, k: nat): (n: nat)
    ensures n <= |pkts|
    ensures forall j :: 0 <= j < n ==> usb(k + j) == |pkts[j]|
    ensures n < |pkts| ==> usb(k + n) != |pkts[n]|
    decreases |pkts|
  {
    if pkts != [] && usb(k) == |pkts[0]| then 1 + Delivered(pkts[1..], usb, k + 1) else 0
  }

  /** The longest run of records at pos, well-formed blob or not. */
  function Prefix(fw: seq<byte>, pos: nat): (rs: seq<Record>)
    requires pos <= |fw|
    ensures forall r :: r in rs ==> WellFormed(r)
    decreases |fw| - pos
  {
    if pos == |fw| || !RecordAt(fw, pos) then [] else [Decode(fw, pos)] + Prefix(fw, pos + Extent(fw, pos))
  }

  lemma {:induction false} PrefixOfRecords(fw: seq<byte>, pos: nat)
    requires pos <= |fw|
    ensures Records(fw, pos).Some? ==> Prefix(fw, pos) == Records(fw, pos).value
    decreases |fw| - pos
  {
    if pos < |fw| && RecordAt(fw, pos) {
      PrefixOfRecords(fw, pos + Extent(fw, pos));
    }
  }

  /** Where that run ends: at the end of the blob, or at something that is no record. */
  function RunEnd(fw: seq<byte>, pos: nat): (end: nat)
    requires pos <= |fw|
    ensures pos <= end <= |fw| && (end == |fw| || !RecordAt(fw, end))
    decreases |fw| - pos
  {
    if pos == |fw| || !RecordAt(fw, pos) then pos else RunEnd(fw, pos + Extent(fw, pos))
  }

  /** It is the part of the blob up to there, and the blob is well-formed if that is all of it. */
  lemma {:induction false} PrefixIsLongest(fw: seq<byte>, pos: nat)
    requires pos <= |fw|
    ensures Concat(Prefix(fw, pos)) == fw[pos..RunEnd(fw, pos)]
    ensures RunEnd(fw, pos) == |fw| <==> Records(fw, pos).Some?
    decreases |fw| - pos
  {
    if pos < |fw| && RecordAt(fw, pos) {
      var next := pos + Extent(fw, pos);
      DecodeEncode(fw, pos);
      PrefixIsLongest(fw, next);
      ConcatCons(Decode(fw, pos), Prefix(fw, next));
      JoinSlices(fw, pos, next, RunEnd(fw, next));
    }
  }

  lemma JoinSlices<T>(s: seq<T>, a: nat, b: nat, c: nat)
    requires a <= b <= c <= |s|
    ensures s[a..b] + s[b..c] == s[a..c]
  {
  }

  lemma ConcatCons(r: Record, rs: seq<Record>)
    requires WellFormed(r) && forall q :: q in rs ==> WellFormed(q)
    ensures Concat([r] + rs) == Encode(r) + Concat(rs)
  {
    assert ([r] + rs)[1..] == rs;
  }

  function JumpOutcome(rc: int): Outcome {
    if rc == JUMP_SZ then Booted else JumpFailed(if rc < 0 then rc else -EIO)
  }

  /** What a download must do: send the packets of the records, in order, up to and
      including the first that is not fully written; then, exactly when the blob is
      well-formed and every one was, the jump. */
  ghost predicate Correct(fw: seq<byte>, usb: Usb, report: Report) {
    var pkts := Packets(Prefix(fw, 0));
    var n := Delivered(pkts, usb, 0);
    && report.writes == pkts[..Min(n + 1, |pkts|)] + Jump(report.jumped)
    && (report.jumped <==> n == |pkts| && Records(fw, 0).Some?)
    && report.outcome == EndOf(pkts, n, Records(fw, 0).Some?, usb, n)
  }

  function Jump(jumped: bool): seq<seq<byte>> {
    if jumped then [JumpCommand(ENTRY)] else []
  }

  /** The end of a download that gets n packets across; the next answer is the k-th. */
  function EndOf(pkts: seq<seq<byte>>, n: nat, wellFormed: bool, usb: Usb, k: nat): Outcome {
    if n < |pkts| then (if usb(k) < 0 then WriteFailed(usb(k)) else ShortWrite)
    else if wellFormed then JumpOutcome(usb(k))
    else FormatError
  }

  /** The walk from pos on, `sent` having been sent. */
  function Walk(fw: seq<byte>, pos: nat, sent: seq<seq<byte>>, usb: Usb): Report
    requires pos <= |fw|
    decreases |fw| - pos
  {
    if pos == |fw| then Report(sent + Jump(true), true, JumpOutcome(usb(|sent|)))
    else if !RecordAt(fw, pos) then Report(sent, false, FormatError)
    else
      var pkt := PacketOf(Decode(fw, pos));
      var wr := usb(|sent|);
      if wr < 0 then Report(sent + [pkt], false, WriteFailed(wr))
      else if wr != |pkt| then Report(sent + [pkt], false, ShortWrite)
      else Walk(fw, pos + Extent(fw, pos), sent + [pkt], usb)
  }

  /** The packets sent, as the walk sends them. */
  function SentFrom(pkts: seq<seq<byte>>, usb: Usb, k: nat): seq<seq<byte>>
    decreases |pkts|
  {
    if pkts == [] then []
    else [pkts[0]] + if usb(k) == |pkts[0]| then SentFrom(pkts[1..], usb, k + 1) else []
  }

  lemma TakeCons<T>(s: seq<T>, n: nat)
    requires s != [] && n < |s|
    ensures s[..n + 1] == [s[0]] + s[1..][..n]
  {
  }

  lemma {:induction false} SentIsPrefix(pkts: seq<seq<byte>>, usb: Usb, k: nat)
    ensures SentFrom(pkts, usb, k) == pkts[..Min(Delivered(pkts, usb, k) + 1, |pkts|)]
    decreases |pkts|
  {
    if pkts != [] {
      var rest := pkts[1..];
      if usb(k) == |pkts[0]| {
        var n := Delivered(rest, usb, k + 1);
        SentIsPrefix(rest, usb, k + 1);
        assert Delivered(pkts, usb, k) == 1 + n;
        TakeCons(pkts, Min(n + 1, |rest|));
      } else {
        assert Delivered(pkts, usb, k) == 0;
        TakeCons(pkts, 0);
      }
    }
  }

  lemma PacketsFrom(fw: seq<byte>, pos: nat)
    requires pos <= |fw|
    ensures pos < |fw| && RecordAt(fw, pos) ==>
              Packets(Prefix(fw, pos)) == [PacketOf(Decode(fw, pos))] + Packets(Prefix(fw, pos + Extent(fw, pos)))
  {
  }

  lemma DeliveredCons(pkt: seq<byte>, rest: seq<seq<byte>>, usb: Usb, k: nat)
    ensures Delivered([pkt] + rest, usb, k) == if usb(k) == |pkt| then 1 + Delivered(rest, usb, k + 1) else 0
  {
    assert ([pkt] + rest)[1..] == rest;
  }

  ghost predicate EndsAs(pkts: seq<seq<byte>>, wellFormed: bool, usb: Usb, k: nat, r: Report) {
    var n := Delivered(pkts, usb, k);
    (r.jumped <==> n == |pkts| && wellFormed) && r.outcome == EndOf(pkts, n, wellFormed, usb, k + n)
  }

  lemma EndsAsCons(pkt: seq<byte>, rest: seq<seq<byte>>, wellFormed: bool, usb: Usb, k: nat, r: Report)
    requires if usb(k) == |pkt| then EndsAs(rest, wellFormed, usb, k + 1, r)
             else !r.jumped && r.outcome == if usb(k) < 0 then WriteFailed(usb(k)) else ShortWrite
    ensures EndsAs([pkt] + rest, wellFormed, usb, k, r)
  {
    DeliveredCons(pkt, rest, usb, k);
  }

  /** One turn of the loop. */
  lemma WalkStep(fw: seq<byte>, pos: nat, sent: seq<seq<byte>>, usb: Usb, pkt: seq<byte>)
    requires pos <= |fw| && RecordAt(fw, pos) && pkt == PacketOf(Decode(fw, pos))
    ensures var wr := usb(|sent|);
            Walk(fw, pos, sent, usb) ==
            if wr < 0 then Report(sent + [pkt], false, WriteFailed(wr))
            else if wr != |pkt| then Report(sent + [pkt], false, ShortWrite)
            else Walk(fw, pos + Extent(fw, pos), sent + [pkt], usb)
  {
  }

  /** What a walk from pos writes after `sent`. */
  ghost predicate SendsFrom(fw: seq<byte>, pos: nat, sent: seq<seq<byte>>, usb: Usb, r: Report)
    requires pos <= |fw|
  {
    r.writes == sent + SentFrom(Packets(Prefix(fw, pos)), usb, |sent|) + Jump(r.jumped)
  }

  lemma SentFromCons(pkt: seq<byte>, rest: seq<seq<byte>>, usb: Usb, k: nat)
    ensures SentFrom([pkt] + rest, usb, k) == [pkt] + if usb(k) == |pkt| then SentFrom(rest, usb, k + 1) else []
  {
    assert ([pkt] + rest)[1..] == rest;
  }

  lemma SendsFromCons(fw: seq<byte>, pos: nat, sent: seq<seq<byte>>, usb: Usb, r: Report)
    requires pos <= |fw| && RecordAt(fw, pos)
    requires var pkt := PacketOf(Decode(fw, pos));
             if usb(|sent|) == |pkt| then SendsFrom(fw, pos + Extent(fw, pos), sent + [pkt], usb, r)
             else r.writes == sent + [pkt] && !r.jumped
    ensures SendsFrom(fw, pos, sent, usb, r)
  {
    var (pkt, rest) := (PacketOf(Decode(fw, pos)), Packets(Prefix(fw, pos + Extent(fw, pos))));
    var tail := if usb(|sent|) == |pkt| then SentFrom(rest, usb, |sent| + 1) else [];
    PacketsFrom(fw, pos);
    SentFromCons(pkt, rest, usb, |sent|);
    Regroup(sent, [pkt], tail, Jump(r.jumped));
  }

  lemma Regroup<T>(a: seq<T>, b: seq<T>, c: seq<T>, d: seq<T>)
    ensures a + b + c + d == a + (b + c) + d
    ensures c == [] && d == [] ==> a + b + c + d == a + b
  {
    assert a + b + c == a + (b + c);
  }

  lemma WalkStopsSending(fw: seq<byte>, pos: nat, sent: seq<seq<byte>>, usb: Usb)
    requires pos <= |fw| && (pos == |fw| || !RecordAt(fw, pos))
    ensures SendsFrom(fw, pos, sent, usb, Walk(fw, pos, sent, usb))
  {
    assert Packets(Prefix(fw, pos)) == [];
    assert sent + [] == sent && sent + [] + [] == sent;
  }

  lemma {:induction false} WalkSends(fw: seq<byte>, pos: nat, sent: seq<seq<byte>>, usb: Usb)
    requires pos <= |fw|
    ensures SendsFrom(fw, pos, sent, usb, Walk(fw, pos, sent, usb))
    decreases |fw| - pos
  {
    if pos == |fw| || !RecordAt(fw, pos) {
      WalkStopsSending(fw, pos, sent, usb);
    } else {
      var pkt := PacketOf(Decode(fw, pos));
      WalkStep(fw, pos, sent, usb, pkt);
      if usb(|sent|) == |pkt| {
        WalkSends(fw, pos + Extent(fw, pos), sent + [pkt], usb);
      }
      SendsFromCons(fw, pos, sent, usb, Walk(fw, pos, sent, usb));
    }
  }

  lemma WalkStops(fw: seq<byte>, pos: nat, sent: seq<seq<byte>>, usb: Usb)
    requires pos <= |fw| && (pos == |fw| || !RecordAt(fw, pos))
    ensures EndsAs(Packets(Prefix(fw, pos)), Records(fw, pos).Some?, usb, |sent|, Walk(fw, pos, sent, usb))
  {
    assert Packets(Prefix(fw, pos)) == [];
  }

  /** What a walk from pos has to end as. */
  ghost predicate EndsFrom(fw: seq<byte>, pos: nat, usb: Usb, k: nat, r: Report)
    requires pos <= |fw|
  {
    EndsAs(Packets(Prefix(fw, pos)), Records(fw, pos).Some?, usb, k, r)
  }

  lemma EndsFromCons(fw: seq<byte>, pos: nat, usb: Usb, k: nat, r: Report)
    requires pos <= |fw| && RecordAt(fw, pos)
    requires var pkt := PacketOf(Decode(fw, pos));
             if usb(k) == |pkt| then EndsFrom(fw, pos + Extent(fw, pos), usb, k + 1, r)
             else !r.jumped && r.outcome == if usb(k) < 0 then WriteFailed(usb(k)) else ShortWrite
    ensures EndsFrom(fw, pos, usb, k, r)
  {
    var (pkt, next) := (PacketOf(Decode(fw, pos)), pos + Extent(fw, pos));
    PacketsFrom(fw, pos);
    EndsAsCons(pkt, Packets(Prefix(fw, next)), Records(fw, next).Some?, usb, k, r);
    assert Records(fw, pos).Some? == Records(fw, next).Some?;
  }

  lemma {:induction false} WalkEnds(fw: seq<byte>, pos: nat, sent: seq<seq<byte>>, usb: Usb)
    requires pos <= |fw|
    ensures EndsFrom(fw, pos, usb, |sent|, Walk(fw, pos, sent, usb))
    decreases |fw| - pos
  {
    if pos == |fw| || !RecordAt(fw, pos) {
      WalkStops(fw, pos, sent, usb);
    } else {
      var pkt := PacketOf(Decode(fw, pos));
      WalkStep(fw, pos, sent, usb, pkt);
      if usb(|sent|) == |pkt| {
        WalkEnds(fw, pos + Extent(fw, pos), sent + [pkt], usb);
      }
      EndsFromCons(fw, pos, usb, |sent|, Walk(fw, pos, sent, usb));
    }
  }

  lemma CorrectIf(fw: seq<byte>, usb: Usb, pkts: seq<seq<byte>>, wellFormed: bool, r: Report)
    requires pkts == Packets(Prefix(fw, 0)) && wellFormed == Records(fw, 0).Some?
    requires r.writes == pkts[..Min(Delivered(pkts, usb, 0) + 1, |pkts|)] + Jump(r.jumped)
    requires EndsAs(pkts, wellFormed, usb, 0, r)
    ensures Correct(fw, usb, r)
  {
  }

  lemma WalkCorrect(fw: seq<byte>, usb: Usb)
    ensures Correct(fw, usb, Walk(fw, 0, [], usb))
  {
    var (pkts, r) := (Packets(Prefix(fw, 0)), Walk(fw, 0, [], usb));
    WalkSends(fw, 0, [], usb);
    WalkEnds(fw, 0, [], usb);
    assert [] + SentFrom(pkts, usb, 0) == SentFrom(pkts, usb, 0);
    SentIsPrefix(pkts, usb, 0);
    CorrectIf(fw, usb, pkts, Records(fw, 0).Some?, r);
  }

  /** dib0700_jumpram, `sent` having been written before: one command that names the jump
      request and the address, and success exactly when all of it was written. */
  method JumpRam(usb: Usb, sent: seq<seq<byte>>, address: nat) returns (outcome: Outcome, writes: seq<seq<byte>>)
    requires address < 0x1_0000_0000
    ensures |writes| == |sent| + 1 && writes[..|sent|] == sent
    ensures var cmd := writes[|sent|];
            && |cmd| == JUMP_SZ && cmd[..4] == [0x08, 0, 0, 0]
            && BigEndian(cmd[4..]) == address && cmd == JumpCommand(address)
    ensures outcome == Booted <==> usb(|sent|) == JUMP_SZ
    ensures outcome != Booted ==> outcome == JumpFailed(if usb(|sent|) < 0 then usb(|sent|) else -EIO)
  {
    JumpCommandCarries(address);
    var cmd := JumpCommand(address);
    var rc := usb(|sent|);
    writes := sent + [cmd];
    outcome := if rc == |cmd| then Booted else if rc < 0 then JumpFailed(rc) else JumpFailed(-EIO);
  }

  /** The body of the walk that fills pkt. */
  method Repack(fw: seq<byte>, pos: nat, pkt: array<byte>)
    requires RecordAt(fw, pos) && pkt.Length == PKT_SZ
    modifies pkt
    ensures pkt[..fw[pos] + 5] == PacketOf(Decode(fw, pos))
    ensures var n: int := fw[pos];
            && pkt[0] == n && pkt[1] == fw[pos + 2] && pkt[2] == fw[pos + 1]
            && forall k :: 3 <= k < n + 5 ==> pkt[k] == fw[pos + k]
  {
    var n := fw[pos];
    pkt[0] := n;
    pkt[1] := fw[pos + 2];
    pkt[2] := fw[pos + 1];
    pkt[3] := fw[pos + 3];
    forall i | 0 <= i < n {
      pkt[4 + i] := fw[pos + HEADER + i];
    }
    pkt[4 + n] := fw[pos + n + HEADER];
  }

  /** dib0700_download_firmware on the blob read from the file. */
  method Download(fw: seq<byte>, usb: Usb) returns (report: Report)
    ensures Correct(fw, usb, report)
  {
    report := WalkLoop(fw, usb);
    WalkCorrect(fw, usb);
  }

  /** Repack the record at pos and write the packet. */
  method SendRecord(fw: seq<byte>, pos: nat, pkt: array<byte>, usb: Usb, sent: seq<seq<byte>>)
    returns (wr: int, now: seq<seq<byte>>)
    requires RecordAt(fw, pos) && pkt.Length == PKT_SZ
    modifies pkt
    ensures wr == usb(|sent|) && now == sent + [PacketOf(Decode(fw, pos))]
  {
    Repack(fw, pos, pkt);
    wr := usb(|sent|);
    now := sent + [pkt[..fw[pos] + 5]];
  }

  method WalkLoop(fw: seq<byte>, usb: Usb) returns (report: Report)
    ensures report == Walk(fw, 0, [], usb)
  {
    var pkt := new byte[PKT_SZ](_ => 0);
    var sent: seq<seq<byte>> := [];
    var pos: nat := 0;
    ghost var want := Walk(fw, 0, [], usb);
    while pos < |fw|
      invariant pos <= |fw| && Walk(fw, pos, sent, usb) == want
      decreases |fw| - pos
    {
      if !RecordAt(fw, pos) {
        return Report(sent, false, FormatError);
      }
      var n: nat := fw[pos];
      WalkStep(fw, pos, sent, usb, PacketOf(Decode(fw, pos)));
      var wr;
      wr, sent := SendRecord(fw, pos, pkt, usb, sent);
      if wr < 0 {
        return Report(sent, false, WriteFailed(wr));
      }
      if wr != n + 5 {
        return Report(sent, false, ShortWrite);
      }
      pos := pos + n + HEADER + 1;
    }
    var outcome, writes := JumpRam(usb, sent, ENTRY);
    assert writes == sent + Jump(true);
    return Report(writes, true, outcome);
  }

  /** The upload inverts: when the jump is sent, it is the last write, and what the bridge
      received before it, put back in order, is the blob. */
  lemma BootedMeansWholeBlob(fw: seq<byte>, usb: Usb, report: Report)
    requires Correct(fw, usb, report) && report.jumped
    ensures report.writes != [] && report.writes[|report.writes| - 1] == JumpCommand(ENTRY)
    ensures var pkts := report.writes[..|report.writes| - 1];
            && (forall p :: p in pkts ==> 3 <= |p| <= PKT_SZ) && Restore(pkts) == fw
            && forall k :: 0 <= k < |pkts| ==> usb(k) == |pkts[k]|
  {
    PrefixOfRecords(fw, 0);
    RecordsConcat(fw, 0);
    assert fw[0..] == fw;
    var rs := Prefix(fw, 0);
    PacketsRestore(rs);
    assert report.writes == Packets(rs) + Jump(true);
    assert report.writes[..|report.writes| - 1] == Packets(rs);
  }

  /** Every write but the last went through, and so did the last unless it is the jump or the one
      that ended the walk. */
  lemma WritesWentThrough(fw: seq<byte>, usb: Usb, report: Report)
    requires Correct(fw, usb, report)
    ensures forall k :: 0 <= k < |report.writes| - 1 ==> usb(k) == |report.writes[k]|
    ensures var (pkts, n) := (Packets(Prefix(fw, 0)), |report.writes| - 1);
            var d := Delivered(pkts, usb, 0);
            if report.jumped || d < |pkts| then n == d && (!report.jumped ==> usb(n) != |report.writes[n]|)
            else n == d - 1 && (0 <= n ==> usb(n) == |report.writes[n]|)
  {
    var pkts := Packets(Prefix(fw, 0));
    var d := Delivered(pkts, usb, 0);
    assert forall j :: 0 <= j < d ==> usb(0 + j) == |pkts[j]|;
    assert d < |pkts| ==> usb(0 + d) != |pkts[d]|;
  }

  /** The last answer says how a download ends: booted when it was the jump's and that went
      through, a format error when nothing failed and the rest of the blob is no record. */
  lemma OutcomeMeans(fw: seq<byte>, usb: Usb, report: Report)
    requires Correct(fw, usb, report)
    ensures var (n, writes, outcome) := (|report.writes| - 1, report.writes, report.outcome);
            && (outcome == Booted <==> report.jumped && usb(n) == 8)
            && (report.jumped && usb(n) != 8 ==> outcome == JumpFailed(if usb(n) < 0 then usb(n) else -5))
            && (!report.jumped && 0 <= n && usb(n) != |writes[n]| ==>
                  outcome == if usb(n) < 0 then WriteFailed(usb(n)) else ShortWrite)
            && (!report.jumped && (0 <= n ==> usb(n) == |writes[n]|) ==>
                  outcome == FormatError && RunEnd(fw, 0) < |fw|)
  {
    PrefixIsLongest(fw, 0);
    WritesWentThrough(fw, usb, report);
  }

  /** Seen from the bridge: the jump command is the last thing written exactly when the walk
      jumped, and no packet is mistaken for it. */
  lemma JumpIsLastWriteIff(fw: seq<byte>, usb: Usb, report: Report)
    requires Correct(fw, usb, report)
    ensures report.jumped <==> report.writes != [] && report.writes[|report.writes| - 1] == JumpCommand(ENTRY)
    ensures report.outcome.Booted? ==> report.jumped
    ensures forall k :: 0 <= k < |report.writes| - 1 ==> report.writes[k] != JumpCommand(ENTRY)
  {
    var rs := Prefix(fw, 0);
    forall k | 0 <= k < |Packets(rs)| ensures Packets(rs)[k] != JumpCommand(ENTRY) {
      NoPacketIsAJump(rs[k], ENTRY);
    }
  }
}
