/** em28xx registers and the fields in which the driver remembers what it wrote to them:
    the i2c bus and speed behind register 0x06 (em28xx_i2c.c) and the two transport-stream
    captures behind register 0x5f (em28xx_ts.c, dvb_em28xx.c). Any register access may
    fail; a failed write is taken to leave the register as it was. */
module Em28xxShadow {
  import opened Bytes

  const BUS_SELECT: bv8 := 0x04

  /** EM2874_TSn_CAPTURE_ENABLE, and the same with FILTER_ENABLE and NULL_DISCARD. */
  function CaptureBit(ts: bool): bv8 {
    if ts then 0x10 else 0x01
  }

  function TsMask(ts: bool): bv8 {
    if ts then 0x70 else 0x07
  }

  /** A message as it goes out: the bus asked for and register 0x06 at that moment. */
  datatype Sent = Sent(bus: int, clk: bv8)

  /** The bridges with the em2874 block of transport-stream registers. */
  predicate Em2874Family(chip: int) {
    chip == 65 || chip == 68 || chip == 113 || chip == 114
  }

  /** chip, r06 and r5f are hardware; speed, curBus, on0 and on1 are the driver's fields.
      History: whether a speed has been set, and the messages sent. ts is false for TS1 and
      frontend 0, true for TS2 and frontend 1. */
  datatype Em = Em(chip: int, r06: bv8, r5f: bv8, speed: bv8, curBus: int, on0: bool, on1: bool,
                   speedSet: bool, sent: seq<Sent>)

  /** em28xx_write_reg_bits. */
  function Merge(cur: bv8, val: bv8, mask: bv8): bv8 {
    (cur & !mask) | (val & mask)
  }

  /** Answers to the register accesses of one call. */
  datatype Usb = Usb(pkt: bool, read: bool, write: bool)

  predicate AllOk(u: Usb) {
    u.pkt && u.read && u.write
  }

  /** In I2cXfer, n messages go out: all of them, or those up to and including one that
      fails. */
  datatype Op =
    | SetSpeed(val: bv8, writeOk: bool)
    | I2cXfer(bus: int, n: nat, usb: Usb)
    | Tune(ts: bool, setOk: bool, usb: Usb)
    | CaptureStop(ts: bool, usb: Usb)
    | Teardown(ts: bool, usb: Usb)

  function On(e: Em, ts: bool): bool {
    if ts then e.on1 else e.on0
  }

  function SetOn(e: Em, ts: bool, on: bool): Em {
    if ts then e.(on1 := on) else e.(on0 := on)
  }

  /** em28xx_capture_start, and whether it succeeded. */
  function CaptureStart(e: Em, ts: bool, enable: bool, usb: Usb): (Em, bool) {
    if !Em2874Family(e.chip) || !AllOk(usb) then (e, false)
    else (e.(r5f := Merge(e.r5f, if enable then CaptureBit(ts) else 0, TsMask(ts))), true)
  }

  function SwitchBus(e: Em, bus: int, usb: Usb): (Em, bool) {
    if bus == e.curBus then (e, true)
    else if !(usb.read && usb.write) then (e, false)
    else (e.(r06 := Merge(e.r06, if bus == 1 then BUS_SELECT else 0, BUS_SELECT), curBus := bus), true)
  }

  function SendAll(bus: int, clk: bv8, n: nat): seq<Sent> {
    seq(n, _ => Sent(bus, clk))
  }

  /** Of the messages with these outcomes, how many go out. */
  function GoOut(answers: seq<int>): (n: nat)
    ensures n <= |answers| && (n < |answers| ==> 0 < n && answers[n - 1] < 0)
  {
    if answers == [] then 0 else if answers[0] < 0 then 1 else 1 + GoOut(answers[1..])
  }

  /** The outcome of the first message that fails, or how many there are. */
  function FirstError(answers: seq<int>): int {
    if GoOut(answers) == 0 then 0
    else if answers[GoOut(answers) - 1] < 0 then answers[GoOut(answers) - 1] else |answers|
  }

  lemma {:induction false} FirstErrorAt(answers: seq<int>, i: nat)
    requires i < |answers| && answers[i] < 0 && forall j :: 0 <= j < i ==> 0 <= answers[j]
    ensures GoOut(answers) == i + 1 && FirstError(answers) == answers[i]
    decreases i
  {
    if 0 < i {
      FirstErrorAt(answers[1..], i - 1);
    }
  }

  lemma {:induction false} NoError(answers: seq<int>)
    requires forall j :: 0 <= j < |answers| ==> 0 <= answers[j]
    ensures GoOut(answers) == |answers| == FirstError(answers)
    decreases |answers|
  {
    if answers != [] {
      NoError(answers[1..]);
    }
  }

  function Step(e: Em, op: Op): Em {
    match op
    case SetSpeed(val, writeOk) =>
      if !writeOk then e
      else
        e.(r06 := val, speed := val & !BUS_SELECT, curBus := if val & BUS_SELECT != 0 then 1 else 0, speedSet := true)
    case I2cXfer(bus, n, usb) =>
      if bus != 0 && bus != 1 then e
      else
        var (f, ok) := SwitchBus(e, bus, usb);
        if ok then f.(sent := f.sent + SendAll(bus, f.r06, n)) else f
    case Tune(ts, setOk, usb) =>
      if !setOk || On(e, ts) then e
      else
        var (f, ok) := CaptureStart(e, ts, true, usb);
        if ok then SetOn(f, ts, true) else f
    case CaptureStop(ts, usb) =>
      if !On(e, ts) then e
      else
        var (f, ok) := CaptureStart(e, ts, false, usb);
        if ok then SetOn(f, ts, false) else f
    case Teardown(ts, usb) =>
      if !On(e, ts) then e else SetOn(CaptureStart(e, ts, false, usb).0, ts, false)
  }

  // ---- agreement ------------------------------------------------------------------

  predicate BusBit(clk: bv8, bus: int) {
    (clk & BUS_SELECT != 0) == (bus == 1)
  }

  predicate ClkAgrees(e: Em) {
    && (e.curBus == -1 || e.curBus == 0 || e.curBus == 1)
    && (e.curBus != -1 ==> BusBit(e.r06, e.curBus))
    && (e.speedSet ==> e.speed == e.r06 & !BUS_SELECT)
    && SentRight(e.sent)
  }

  /** Each message went out on the bus it was meant for. */
  predicate SentRight(sent: seq<Sent>) {
    forall k :: 0 <= k < |sent| ==> BusBit(sent[k].clk, sent[k].bus)
  }

  /** The six TS control bits: capture as the flags say, filter and null discard off. */
  function TsBits(on0: bool, on1: bool): bv8 {
    (if on0 then 0x01 else 0) | (if on1 then 0x10 else 0)
  }

  predicate TsAgrees(e: Em) {
    e.r5f & 0x77 == TsBits(e.on0, e.on1)
  }

  lemma MergeBus(cur: bv8, bus: int)
    requires bus == 0 || bus == 1
    ensures var r := Merge(cur, if bus == 1 then BUS_SELECT else 0, BUS_SELECT);
            BusBit(r, bus) && r & !BUS_SELECT == cur & !BUS_SELECT
  {
  }

  lemma MergeCapture(cur: bv8, ts: bool, enable: bool)
    ensures var r := Merge(cur, if enable then CaptureBit(ts) else 0, TsMask(ts));
            && r & TsMask(ts) == (if enable then CaptureBit(ts) else 0)
            && r & TsMask(!ts) == cur & TsMask(!ts)
  {
  }

  /** A capture toggle of one frontend sets its own bits as the flag says and leaves the
      other's. */
  lemma ToggleAgrees(r5f: bv8, on0: bool, on1: bool, ts: bool, enable: bool)
    requires r5f & 0x77 == TsBits(on0, on1)
    ensures Merge(r5f, if enable then CaptureBit(ts) else 0, TsMask(ts)) & 0x77
            == TsBits(if ts then on0 else enable, if ts then enable else on1)
  {
  }

  /** A bus switch that succeeds selects the bus and keeps the speed; one that fails
      changes nothing. */
  lemma SwitchBusSelects(e: Em, bus: int, usb: Usb)
    requires (bus == 0 || bus == 1) && (bus == e.curBus ==> BusBit(e.r06, bus))
    ensures var (f, ok) := SwitchBus(e, bus, usb);
            && (ok <==> bus == e.curBus || (usb.read && usb.write))
            && (ok ==> f == e.(r06 := f.r06, curBus := bus) && BusBit(f.r06, bus))
            && f.r06 & !BUS_SELECT == e.r06 & !BUS_SELECT
            && (!ok ==> f == e)
  {
    if bus != e.curBus && usb.read && usb.write {
      MergeBus(e.r06, bus);
    }
  }

  lemma SendKeepsRight(sent: seq<Sent>, bus: int, clk: bv8, n: nat)
    requires SentRight(sent) && BusBit(clk, bus)
    ensures SentRight(sent + SendAll(bus, clk, n))
  {
  }

  lemma XferKeepsClk(e: Em, bus: int, n: nat, usb: Usb)
    requires ClkAgrees(e)
    ensures ClkAgrees(Step(e, I2cXfer(bus, n, usb)))
  {
    if bus == 0 || bus == 1 {
      SwitchBusSelects(e, bus, usb);
      var (f, ok) := SwitchBus(e, bus, usb);
      if ok {
        SendKeepsRight(f.sent, bus, f.r06, n);
      }
    }
  }

  lemma SetSpeedKeepsClk(e: Em, val: bv8, ok: bool)
    requires ClkAgrees(e)
    ensures ClkAgrees(Step(e, SetSpeed(val, ok)))
  {
  }

  /** The two agree on everything that register 0x06 has to do with. */
  predicate SameClk(e: Em, f: Em) {
    && f.chip == e.chip && f.r06 == e.r06 && f.speed == e.speed && f.curBus == e.curBus
    && f.speedSet == e.speedSet && f.sent == e.sent
  }

  lemma SameClkAgrees(e: Em, f: Em)
    requires SameClk(e, f) && ClkAgrees(e)
    ensures ClkAgrees(f)
  {
  }

  lemma StartLeavesClk(e: Em, ts: bool, enable: bool, usb: Usb, on: bool)
    ensures SameClk(e, CaptureStart(e, ts, enable, usb).0)
    ensures SameClk(e, SetOn(CaptureStart(e, ts, enable, usb).0, ts, on))
  {
  }

  lemma CaptureLeavesClk(e: Em, op: Op)
    requires op.Tune? || op.CaptureStop? || op.Teardown?
    ensures SameClk(e, Step(e, op))
  {
    StartLeavesClk(e, op.ts, op.Tune?, op.usb, op.Tune?);
  }

  lemma StepKeepsClk(e: Em, op: Op)
    requires ClkAgrees(e)
    ensures ClkAgrees(Step(e, op))
  {
    if op.I2cXfer? {
      XferKeepsClk(e, op.bus, op.n, op.usb);
    } else if op.SetSpeed? {
      SetSpeedKeepsClk(e, op.val, op.writeOk);
    } else {
      CaptureLeavesClk(e, op);
      SameClkAgrees(e, Step(e, op));
    }
  }

  /** The calls after which flag and register part: a teardown ignores the answer of its
      capture_start, so it is the one that can. */
  predicate LosesTs(e: Em, op: Op) {
    op.Teardown? && On(e, op.ts) && !(Em2874Family(e.chip) && AllOk(op.usb))
  }

  lemma StepTsAgreesIff(e: Em, op: Op)
    requires TsAgrees(e)
    ensures TsAgrees(Step(e, op)) <==> !LosesTs(e, op)
  {
    match op
    case Tune(ts, _, _) => ToggleAgrees(e.r5f, e.on0, e.on1, ts, true);
    case CaptureStop(ts, _) => ToggleAgrees(e.r5f, e.on0, e.on1, ts, false);
    case Teardown(ts, _) => ToggleAgrees(e.r5f, e.on0, e.on1, ts, false);
    case _ =>
  }

  /** Setting the speed sets register, cached speed and cached bus, or nothing. */
  lemma SetSpeedIs(e: Em, val: bv8, ok: bool)
    ensures var f := Step(e, SetSpeed(val, ok));
            if ok then
              && f.r06 == val && f.speed == val & 0xfb && f.speedSet && f.sent == e.sent
              && f.curBus == (if val & 0x04 == 0 then 0 else 1)
            else f == e
  {
    LowBits(val);
  }

  lemma LowBits(val: bv8)
    ensures val & !0x04 == val & 0xfb
  {
  }

  /** A transfer sends its messages with the bus selected and the speed as it was, or nothing. */
  lemma XferIs(e: Em, bus: int, n: nat, usb: Usb)
    requires ClkAgrees(e)
    ensures var f := Step(e, I2cXfer(bus, n, usb));
            if (bus == 0 || bus == 1) && (bus == e.curBus || (usb.read && usb.write)) then
              && f.curBus == bus && (f.r06 & 0x04 == 0 <==> bus == 0) && f.r06 & 0xfb == e.r06 & 0xfb
              && f.sent == e.sent + seq(n, _ => Sent(bus, f.r06))
            else f == e
  {
    if bus == 0 || bus == 1 {
      SwitchBusSelects(e, bus, usb);
      var (f, ok) := SwitchBus(e, bus, usb);
      LowBits(f.r06);
      LowBits(e.r06);
    }
  }

  /** What a call on one frontend does to its flag. */
  lemma FlagIs(e: Em, op: Op)
    requires op.Tune? || op.CaptureStop? || op.Teardown?
    ensures var on := On(Step(e, op), op.ts);
            var works := (e.chip == 65 || e.chip == 68 || e.chip == 113 || e.chip == 114)
                         && op.usb.pkt && op.usb.read && op.usb.write;
            && (op.Tune? ==> on == (On(e, op.ts) || (op.setOk && works)))
            && (op.CaptureStop? ==> on == (On(e, op.ts) && !works))
            && (op.Teardown? ==> !on)
  {
  }

  lemma MergeSets(cur: bv8, ts: bool, enable: bool)
    ensures Merge(cur, if enable then CaptureBit(ts) else 0, TsMask(ts)) & (if ts then 0x70 else 0x07)
            == if !enable then 0 else if ts then 0x10 else 0x01
  {
  }

  /** And to the register: its bits are switched when the call needs it and every access works. */
  lemma BitsAre(e: Em, op: Op)
    requires op.Tune? || op.CaptureStop? || op.Teardown?
    ensures var f := Step(e, op);
            var works := (e.chip == 65 || e.chip == 68 || e.chip == 113 || e.chip == 114)
                         && op.usb.pkt && op.usb.read && op.usb.write;
            var mask := if op.ts then 0x70 else 0x07;
            if works && (if op.Tune? then !On(e, op.ts) && op.setOk else On(e, op.ts)) then
              f.r5f & mask == if !op.Tune? then 0 else if op.ts then 0x10 else 0x01
            else f.r5f == e.r5f
  {
    if op.Tune? {
      MergeSets(e.r5f, op.ts, true);
    } else {
      MergeSets(e.r5f, op.ts, false);
    }
  }

  function Run(e: Em, ops: seq<Op>): Em
    decreases |ops|
  {
    if ops == [] then e else Run(Step(e, ops[0]), ops[1..])
  }

  /** Over any run, with any accesses failing: every message went out with register 0x06
      selecting the bus it was meant for, the cached bus is the selected one, and the speed
      bits are those last set, through all bus switches. */
  lemma {:induction false} MessagesUseTheirBus(e: Em, ops: seq<Op>)
    requires ClkAgrees(e)
    ensures ClkAgrees(Run(e, ops))
    decreases |ops|
  {
    if ops != [] {
      StepKeepsClk(e, ops[0]);
      MessagesUseTheirBus(Step(e, ops[0]), ops[1..]);
    }
  }

  /** A run in which no teardown finds a running capture and fails to stop it. */
  predicate NeverLosesTs(e: Em, ops: seq<Op>)
    decreases |ops|
  {
    ops == [] || (!LosesTs(e, ops[0]) && NeverLosesTs(Step(e, ops[0]), ops[1..]))
  }

  /** Over a run, the two capture bits of register 0x5f are the two capture_on flags after
      every call exactly when no teardown finds a running capture and fails to stop it. */
  lemma {:induction false} CaptureBitsAreTheFlags(e: Em, ops: seq<Op>)
    requires TsAgrees(e)
    ensures (forall n :: 0 <= n <= |ops| ==> TsAgrees(Run(e, ops[..n]))) <==> NeverLosesTs(e, ops)
    decreases |ops|
  {
    if ops == [] {
      assert ops[..0] == [];
      return;
    }
    var f := Step(e, ops[0]);
    StepTsAgreesIff(e, ops[0]);
    forall n | 0 < n <= |ops| ensures Run(e, ops[..n]) == Run(f, ops[1..][..n - 1]) {
      assert ops[..n][1..] == ops[1..][..n - 1];
    }
    assert ops[1..][..0] == [];
    if TsAgrees(f) {
      CaptureBitsAreTheFlags(f, ops[1..]);
      if forall n :: 0 <= n <= |ops| ==> TsAgrees(Run(e, ops[..n])) {
        forall n | 0 <= n <= |ops[1..]| ensures TsAgrees(Run(f, ops[1..][..n])) {
          assert TsAgrees(Run(e, ops[..n + 1]));
        }
      }
    } else {
      assert !TsAgrees(Run(e, ops[..1]));
    }
  }

  /** The condition, call by call. */
  lemma {:induction false} NeverLosesTsMeans(e: Em, ops: seq<Op>)
    ensures NeverLosesTs(e, ops) <==> forall k :: 0 <= k < |ops| ==> !LosesTs(Run(e, ops[..k]), ops[k])
    decreases |ops|
  {
    if ops == [] {
      return;
    }
    var f := Step(e, ops[0]);
    NeverLosesTsMeans(f, ops[1..]);
    assert ops[..0] == [];
    forall k | 0 < k < |ops| ensures Run(e, ops[..k]) == Run(f, ops[1..][..k - 1]) && ops[k] == ops[1..][k - 1] {
      assert ops[..k][1..] == ops[1..][..k - 1];
    }
    if forall k :: 0 <= k < |ops| ==> !LosesTs(Run(e, ops[..k]), ops[k]) {
      assert !LosesTs(Run(e, ops[..0]), ops[0]);
      forall k | 0 <= k < |ops[1..]| ensures !LosesTs(Run(f, ops[1..][..k]), ops[1..][k]) {
        assert !LosesTs(Run(e, ops[..k + 1]), ops[k + 1]);
      }
    }
  }

  /** It does happen: a capture is started, and the teardown's register write fails. The bit
      stays set behind a cleared flag. */
  lemma TeardownCanLoseTs(e: Em, ts: bool)
    requires TsAgrees(e) && Em2874Family(e.chip) && !On(e, ts)
    ensures var ok := Usb(true, true, true);
            var f := Run(e, [Tune(ts, true, ok), Teardown(ts, ok.(write := false))]);
            !On(f, ts) && f.r5f & CaptureBit(ts) != 0 && !TsAgrees(f)
  {
    var ok := Usb(true, true, true);
    var ops := [Tune(ts, true, ok), Teardown(ts, ok.(write := false))];
    var g := Step(e, ops[0]);
    assert ops[1..] == [ops[1]] && ops[1..][1..] == [];
    assert Run(e, ops) == Run(g, ops[1..]) == Step(g, ops[1]);
    ToggleAgrees(e.r5f, e.on0, e.on1, ts, true);
    TuneSetsBit(e.r5f, ts);
    StepTsAgreesIff(g, ops[1]);
  }

  lemma TuneSetsBit(r5f: bv8, ts: bool)
    ensures Merge(r5f, CaptureBit(ts), TsMask(ts)) & CaptureBit(ts) != 0
  {
  }

  lemma CaptureStartLeavesOther(e: Em, ts: bool, enable: bool, usb: Usb)
    ensures var f := CaptureStart(e, ts, enable, usb).0;
            f.r5f & TsMask(!ts) == e.r5f & TsMask(!ts) && f.on0 == e.on0 && f.on1 == e.on1
  {
    MergeCapture(e.r5f, ts, enable);
  }

  /** Calls on one frontend do not touch the other's bits, agreement or not. */
  lemma OtherFrontendUndisturbed(e: Em, op: Op)
    requires op.Tune? || op.CaptureStop? || op.Teardown?
    ensures var f := Step(e, op);
            f.r5f & TsMask(!op.ts) == e.r5f & TsMask(!op.ts) && On(f, !op.ts) == On(e, !op.ts)
  {
    CaptureStartLeavesOther(e, op.ts, op.Tune?, op.usb);
  }
}

/** struct em28xx_dev and the bridge's register file, accessed as the C code does. */
module Em28xxDevice {
  import opened Bytes
  import E = Em28xxShadow

  const R06: nat := 0x06
  const R5D: nat := 0x5d
  const R5E: nat := 0x5e
  const R5F: nat := 0x5f

  class Em28xxDevice {
    const chip: int
    const regs: array<bv8>
    var i2cSpeed: bv8
    var curI2cBus: int
    var captureOn: seq<bool>
    ghost var speedSet: bool
    var sent: seq<E.Sent>

    ghost predicate Valid()
      reads this
    {
      regs.Length == 256 && |captureOn| == 2
    }

    ghost function State(): E.Em
      requires Valid()
      reads this, regs
    {
      E.Em(chip, regs[R06], regs[R5F], i2cSpeed, curI2cBus, captureOn[0], captureOn[1], speedSet, sent)
    }

    /** em28xx_open, on a bridge whose registers hold anything but has 0x5f cleared. */
    constructor (chip: int, clk: bv8)
      ensures Valid() && fresh(regs) && this.chip == chip
      ensures E.ClkAgrees(State()) && E.TsAgrees(State()) && State().r06 == clk
    {
      this.chip := chip;
      regs := new bv8[256](i => if i == R06 then clk else 0);
      i2cSpeed, curI2cBus, captureOn, speedSet, sent := 0, -1, [false, false], false, [];
    }

    method WriteReg(reg: nat, val: bv8, ok: bool) returns (rc: int)
      requires Valid() && reg < 256
      modifies regs
      ensures rc == (if ok then 0 else -EIO)
      ensures regs[..] == if ok then old(regs[..])[reg := val] else old(regs[..])
    {
      if !ok {
        return -EIO;
      }
      regs[reg] := val;
      return 0;
    }

    method WriteRegBits(reg: nat, val: bv8, mask: bv8, usb: E.Usb) returns (rc: int)
      requires Valid() && reg < 256
      modifies regs
      ensures rc == (if usb.read && usb.write then 0 else -EIO)
      ensures regs[..] == if rc == 0 then old(regs[..])[reg := E.Merge(old(regs[reg]), val, mask)] else old(regs[..])
    {
      if !usb.read {
        return -EIO;
      }
      var oldVal := regs[reg];
      rc := WriteReg(reg, (oldVal & !mask) | (val & mask), usb.write);
    }

    method SetSpeed(val: bv8, ok: bool) returns (rc: int)
      requires Valid()
      modifies this, regs
      ensures Valid() && State() == E.Step(old(State()), E.SetSpeed(val, ok))
      ensures rc == (if ok then 0 else -EIO)
      ensures forall k :: 0 <= k < 256 && k != 0x06 ==> regs[k] == old(regs[k])
    {
      rc := WriteReg(R06, val, ok);
      if rc < 0 {
        return;
      }
      i2cSpeed := val & !E.BUS_SELECT;
      curI2cBus := if val & E.BUS_SELECT != 0 then 1 else 0;
      speedSet := true;
    }

    /** The message loop of em28xx_i2c_xfer; answers[i] is the outcome of message i. */
    method SendMessages(bus: int, answers: seq<int>) returns (rc: int)
      requires Valid()
      modifies this`sent
      ensures sent == old(sent) + E.SendAll(bus, regs[R06], E.GoOut(answers))
      ensures rc == E.FirstError(answers)
    {
      for i := 0 to |answers|
        invariant sent == old(sent) + E.SendAll(bus, regs[R06], i)
        invariant forall j :: 0 <= j < i ==> 0 <= answers[j]
      {
        sent := sent + [E.Sent(bus, regs[R06])];
        if answers[i] < 0 {
          E.FirstErrorAt(answers, i);
          return answers[i];
        }
      }
      E.NoError(answers);
      return |answers|;
    }

    /** em28xx_i2c_xfer as far as the bus is concerned. */
    method I2cXfer(bus: int, answers: seq<int>, usb: E.Usb) returns (rc: int)
      requires Valid()
      modifies this, regs
      ensures Valid() && State() == E.Step(old(State()), E.I2cXfer(bus, E.GoOut(answers), usb))
      ensures rc == if bus != 0 && bus != 1 then -EINVAL
                    else if E.SwitchBus(old(State()), bus, usb).1 then E.FirstError(answers) else -EIO
      ensures forall k :: 0 <= k < 256 && k != 0x06 ==> regs[k] == old(regs[k])
    {
      if bus != 0 && bus != 1 {
        return -EINVAL;
      }
      if bus != curI2cBus {
        var bit := if bus == 1 then E.BUS_SELECT else 0;
        rc := WriteRegBits(R06, bit, E.BUS_SELECT, usb);
        if rc < 0 {
          return;
        }
        curI2cBus := bus;
      }
      rc := SendMessages(bus, answers);
    }

    /** A toggle of one capture has first set that stream's packet size, if the access works; of the
        rest only register 0x5f may have changed. */
    ghost predicate OthersAre(before: seq<bv8>, ts: bool, pkt: bool)
      requires |before| == 256 == regs.Length
      reads regs
    {
      forall k :: 0 <= k < 256 && k != 0x5f ==>
        regs[k] == if k == (if ts then 0x5e else 0x5d) && E.Em2874Family(chip) && pkt then 0xff else before[k]
    }

    /** em28xx_capture_start. */
    method CaptureStart(ts: bool, enable: bool, usb: E.Usb) returns (rc: int)
      requires Valid()
      modifies regs
      ensures Valid() && (State(), rc == 0) == E.CaptureStart(old(State()), ts, enable, usb)
      ensures rc <= 0 && (rc == -ENOTSUP <==> !E.Em2874Family(chip))
      ensures rc == 0 <==> E.Em2874Family(chip) && usb.pkt && usb.read && usb.write
      ensures OthersAre(old(regs[..]), ts, usb.pkt)
    {
      if !E.Em2874Family(chip) {
        return -ENOTSUP;
      }
      rc := WriteReg(if ts then R5E else R5D, 0xff, usb.pkt);
      if rc < 0 {
        return;
      }
      rc := WriteRegBits(R5F, if enable then E.CaptureBit(ts) else 0, E.TsMask(ts), usb);
    }

    /** The capture side of em28xx_v_tune. */
    method Tune(ts: bool, setOk: bool, usb: E.Usb) returns (rc: int)
      requires Valid()
      modifies this, regs
      ensures Valid() && State() == E.Step(old(State()), E.Tune(ts, setOk, usb))
      ensures rc == 0 <==> setOk && captureOn[if ts then 1 else 0]
      ensures OthersAre(old(regs[..]), ts, usb.pkt && setOk && !old(captureOn[if ts then 1 else 0]))
    {
      if !setOk {
        return -EIO;
      }
      var fn := if ts then 1 else 0;
      if !captureOn[fn] {
        rc := CaptureStart(ts, true, usb);
        if rc < 0 {
          return;
        }
        captureOn := captureOn[fn := true];
      }
      return 0;
    }

    /** em28xx_v_capture_stop. */
    method CaptureStop(ts: bool, usb: E.Usb) returns (rc: int)
      requires Valid()
      modifies this, regs
      ensures Valid() && State() == E.Step(old(State()), E.CaptureStop(ts, usb))
      ensures rc == 0 <==> !captureOn[if ts then 1 else 0]
      ensures OthersAre(old(regs[..]), ts, usb.pkt && old(captureOn[if ts then 1 else 0]))
    {
      var fn := if ts then 1 else 0;
      if !captureOn[fn] {
        return 0;
      }
      rc := CaptureStart(ts, false, usb);
      if rc < 0 {
        return;
      }
      captureOn := captureOn[fn := false];
      return 0;
    }

    /** The capture side of frontend_teardown. */
    method Teardown(ts: bool, usb: E.Usb)
      requires Valid()
      modifies this, regs
      ensures Valid() && State() == E.Step(old(State()), E.Teardown(ts, usb))
      ensures OthersAre(old(regs[..]), ts, usb.pkt && old(captureOn[if ts then 1 else 0]))
    {
      var fn := if ts then 1 else 0;
      if captureOn[fn] {
        var _ := CaptureStart(ts, false, usb);
        captureOn := captureOn[fn := false];
      }
    }
  }
}
