/** regmap over i2c (linuxdvbkpi/src/regmap.c), through any of the three bridges, on a chip
    with 256 one-byte registers: what the calls do to the chip's register file. */
module RegisterChip {
  import opened Bytes
  import opened I2cBus
  import opened I2cTransfer

  /** Registers and the address pointer a write sets and every access advances. */
  datatype Chip = Chip(regs: seq<byte>, ptr: byte)

  predicate ValidChip(c: Chip) {
    |c.regs| == 256
  }

  function Store(regs: seq<byte>, at: byte, data: seq<byte>): (r: seq<byte>)
    requires |regs| == 256
    ensures |r| == 256
    decreases |data|
  {
    if data == [] then regs else Store(regs[at := data[0]], Plus(at, 1), data[1..])
  }

  function Plus(at: byte, n: nat): byte {
    var a: int := at;
    (a + n) % 256
  }

  function Fetch(regs: seq<byte>, at: byte, n: nat): (r: seq<byte>)
    requires |regs| == 256
    ensures |r| == n
  {
    seq(n, i requires 0 <= i => regs[Plus(at, i)])
  }

  function After(c: Chip, addr: nat, seg: Seg): (r: Chip)
    requires ValidChip(c)
    ensures ValidChip(r)
  {
    if seg.addr != addr then c
    else
      match seg
      case ReadSeg(_, n, _) => c.(ptr := Plus(c.ptr, n))
      case WriteSeg(_, data, _) =>
        if data == [] then c
        else Chip(Store(c.regs, data[0], data[1..]), Plus(data[0], |data| - 1))
  }

  /** The chip that held c0 before the first transfer of the history. */
  function ChipAt(c0: Chip, addr: nat, wire: seq<Seg>): (r: Chip)
    requires ValidChip(c0)
    ensures ValidChip(r)
    decreases |wire|
  {
    if wire == [] then c0 else After(ChipAt(c0, addr, wire[..|wire| - 1]), addr, wire[|wire| - 1])
  }

  lemma ChipStep(c0: Chip, addr: nat, wire: seq<Seg>, seg: Seg)
    requires ValidChip(c0)
    ensures ChipAt(c0, addr, wire + [seg]) == After(ChipAt(c0, addr, wire), addr, seg)
  {
    assert (wire + [seg])[..|wire|] == wire;
  }

  /** The chip as a slave: what it drives in the last transfer of a history. */
  function Drives(c0: Chip, addr: nat, wire: seq<Seg>): seq<byte>
    requires ValidChip(c0)
  {
    if wire == [] || !wire[|wire| - 1].ReadSeg? || wire[|wire| - 1].addr != addr then []
    else
      var c := ChipAt(c0, addr, wire[..|wire| - 1]);
      Fetch(c.regs, c.ptr, wire[|wire| - 1].n)
  }

  ghost predicate IsChip(slave: Slave, c0: Chip, addr: nat)
    requires ValidChip(c0)
  {
    forall wire :: slave(wire) == Drives(c0, addr, wire)
  }

  lemma FetchOne(regs: seq<byte>, at: byte)
    requires |regs| == 256
    ensures Fetch(regs, at, 1) == [regs[at]]
  {
  }

  /** What the master reads in a transfer addressed to the chip. */
  lemma ChipReplies(slave: Slave, c0: Chip, addr: nat, w: seq<Seg>, n: nat)
    requires ValidChip(c0) && IsChip(slave, c0, addr)
    ensures var c := ChipAt(c0, addr, w);
            Reply(slave, w + [ReadSeg(addr, n, true)], n) == Fetch(c.regs, c.ptr, n)
  {
    var wire := w + [ReadSeg(addr, n, true)];
    assert wire[..|wire| - 1] == w;
    assert slave(wire) == Drives(c0, addr, wire);
  }

  lemma PointAt(c0: Chip, addr: nat, w: seq<Seg>, reg: byte)
    requires ValidChip(c0)
    ensures ChipAt(c0, addr, w + [WriteSeg(addr, [reg], false)]) == Chip(ChipAt(c0, addr, w).regs, reg)
  {
    ChipStep(c0, addr, w, WriteSeg(addr, [reg], false));
  }

  /** Neither [reg] written nor a read after it changes a register. */
  lemma ReadBackKeeps(c0: Chip, addr: nat, w0: seq<Seg>, w: seq<Seg>, reg: byte)
    requires ValidChip(c0) && PartOf(w, w0, addr, [reg])
    ensures ChipAt(c0, addr, w).regs == ChipAt(c0, addr, w0).regs
  {
    var s0 := WriteSeg(addr, [reg], false);
    PointAt(c0, addr, w0, reg);
    if w != w0 && w != w0 + [s0] {
      var k: nat :| w == w0 + [s0, ReadSeg(addr, k, true)];
      assert w == w0 + [s0] + [ReadSeg(addr, k, true)];
      ChipStep(c0, addr, w0 + [s0], ReadSeg(addr, k, true));
    }
  }

  /** [reg] written, then n bytes read: the registers from reg on. */
  lemma ReadBack(slave: Slave, c0: Chip, addr: nat, w0: seq<Seg>, reg: byte, n: nat)
    requires ValidChip(c0) && IsChip(slave, c0, addr)
    ensures Reply(slave, w0 + [WriteSeg(addr, [reg], false), ReadSeg(addr, n, true)], n)
            == Fetch(ChipAt(c0, addr, w0).regs, reg, n)
  {
    var (s0, s1) := (WriteSeg(addr, [reg], false), ReadSeg(addr, n, true));
    assert w0 + [s0, s1] == w0 + [s0] + [s1];
    PointAt(c0, addr, w0, reg);
    ChipReplies(slave, c0, addr, w0 + [s0], n);
  }

  /** [reg, data..] written. */
  lemma WriteThrough(c0: Chip, addr: nat, w: seq<Seg>, reg: byte, data: seq<byte>)
    requires ValidChip(c0)
    ensures ChipAt(c0, addr, w + [WriteSeg(addr, [reg] + data, true)]).regs
            == Store(ChipAt(c0, addr, w).regs, reg, data)
  {
    ChipStep(c0, addr, w, WriteSeg(addr, [reg] + data, true));
    assert ([reg] + data)[1..] == data;
  }

  /** A block written to consecutive registers reads back, the addresses wrapping at 256. */
  lemma {:induction false} StoreFetch(regs: seq<byte>, at: byte, data: seq<byte>, i: nat)
    requires |regs| == 256 && |data| <= 256 && i < |data|
    ensures Store(regs, at, data)[Plus(at, i)] == data[i]
    decreases |data|
  {
    if i == 0 {
      StoreFrame(regs[at := data[0]], Plus(at, 1), data[1..], at);
    } else {
      PlusPlus(at, i - 1);
      StoreFetch(regs[at := data[0]], Plus(at, 1), data[1..], i - 1);
    }
  }

  lemma PlusPlus(at: byte, i: nat)
    ensures Plus(Plus(at, 1), i) == Plus(at, i + 1)
  {
  }

  /** A block write leaves the other registers alone. */
  lemma {:induction false} StoreFrame(regs: seq<byte>, at: byte, data: seq<byte>, k: byte)
    requires |regs| == 256 && |data| <= 256
    requires forall i :: 0 <= i < |data| ==> Plus(at, i) != k
    ensures Store(regs, at, data)[k] == regs[k]
    decreases |data|
  {
    if data != [] {
      assert Plus(at, 0) == at;
      forall i | 0 <= i < |data| - 1 ensures Plus(Plus(at, 1), i) != k {
        PlusPlus(at, i);
      }
      StoreFrame(regs[at := data[0]], Plus(at, 1), data[1..], k);
    }
  }
}

/** Masked updates of unsigned integers, bit by bit, and what a cut to a byte keeps. */
module Bits {
  import opened Bytes

  type u32 = x: int | 0 <= x < 0x1_0000_0000

  /** (u8)x for an unsigned int. */
  function U8(x: nat): byte {
    x % 256
  }

  /** (cur & ~mask) | (val & mask) on the low n bits: each is taken from val where the mask
      has a one and from cur where it has a zero. */
  function Blend(cur: nat, mask: nat, val: nat, n: nat): nat
    decreases n, cur
  {
    if n == 0 then 0
    else 2 * Blend(cur / 2, mask / 2, val / 2, n - 1) + (if mask % 2 == 1 then val % 2 else cur % 2)
  }

  /** The low n bits of x. */
  function Low(x: nat, n: nat): nat
    decreases n, x
  {
    if n == 0 then 0 else 2 * Low(x / 2, n - 1) + x % 2
  }

  /** Four bits of x are its last hexadecimal digit. */
  lemma LowNibble(x: nat, n: nat)
    ensures Low(x, n + 4) == 16 * Low(x / 16, n) + Low(x, 4)
    ensures Low(x, 4) == x % 16
  {
    var (a, b, c) := (x / 2, x / 4, x / 8);
    assert a / 2 == b && b / 2 == c && c / 2 == x / 16;
    LowUnfold(x, n + 4);
    LowUnfold(a, n + 3);
    LowUnfold(b, n + 2);
    LowUnfold(c, n + 1);
    LowUnfold(x, 4);
    LowUnfold(a, 3);
    LowUnfold(b, 2);
    LowUnfold(c, 1);
    FourBits(x);
  }

  lemma LowUnfold(x: nat, n: nat)
    requires 0 < n
    ensures Low(x, n) == 2 * Low(x / 2, n - 1) + x % 2
    ensures n == 1 ==> Low(x, n) == x % 2
  {
  }

  lemma FourBits(x: nat)
    ensures x % 16 == 8 * (x / 8 % 2) + 4 * (x / 4 % 2) + 2 * (x / 2 % 2) + x % 2
  {
    TwoBits(x);
    TwoBits(x / 4);
    Halves(x);
    TwoPairs(x);
  }

  lemma TwoPairs(x: nat)
    ensures x % 16 == 4 * (x / 4 % 4) + x % 4
  {
    var (q, r, t) := (x / 16, x / 4 % 4, x % 4);
    assert x / 4 == 4 * (x / 4 / 4) + r && x == 4 * (x / 4) + t;
    assert x == 16 * (x / 4 / 4) + (4 * r + t);
  }

  lemma TwoBits(x: nat)
    ensures x % 4 == 2 * (x / 2 % 2) + x % 2
  {
  }

  lemma Halves(x: nat)
    ensures x / 4 / 2 == x / 8
  {
  }

  lemma LowIsU8(x: nat)
    ensures Low(x, 8) == U8(x)
  {
    LowNibble(x, 4);
    LowNibble(x / 16, 0);
    TwoDigits(x);
  }

  lemma TwoDigits(x: nat)
    ensures x % 256 == 16 * (x / 16 % 16) + x % 16
  {
    var (q, r, t) := (x / 16 / 16, x / 16 % 16, x % 16);
    assert x / 16 == 16 * q + r && x == 16 * (x / 16) + t;
    assert x == 256 * q + (16 * r + t);
  }

  /** Blending and cutting to the low n bits commute. */
  lemma {:induction false} BlendLow(cur: nat, mask: nat, val: nat, n: nat, k: nat)
    ensures Low(Blend(cur, mask, val, n + k), n) == Blend(Low(cur, n), Low(mask, n), Low(val, n), n)
    decreases n
  {
    if 0 < n {
      BlendLow(cur / 2, mask / 2, val / 2, n - 1, k);
      var b := Blend(cur, mask, val, n + k);
      assert b / 2 == Blend(cur / 2, mask / 2, val / 2, n - 1 + k);
      assert Low(cur, n) / 2 == Low(cur / 2, n - 1);
      assert Low(mask, n) / 2 == Low(mask / 2, n - 1);
      assert Low(val, n) / 2 == Low(val / 2, n - 1);
    }
  }

  /** (cur & ~mask) | (val & mask) on bytes. */
  function BlendU8(cur: byte, mask: byte, val: byte): byte {
    U8(Blend(cur, mask, val, 8))
  }

  lemma U8Again(x: nat)
    ensures U8(U8(x)) == U8(x)
  {
  }

  // ---- machine words ------------------------------------------------------------

  /** The value of the low n bits of a word. */
  function ToInt(b: bv32, n: nat): nat
    decreases n, b
  {
    if n == 0 then 0 else 2 * ToInt(b >> 1, n - 1) + (if b & 1 == 1 then 1 else 0)
  }

  /** b with one more bit below it. */
  function Push(b: bv32, low: bool): bv32 {
    (b << 1) | (if low then 1 else 0)
  }

  /** The word with value x, for x below 2 to the n. */
  function OfInt(x: nat, n: nat): bv32
    decreases n, x
  {
    if n == 0 then 0 else Push(OfInt(x / 2, n - 1), x % 2 == 1)
  }

  lemma PushThenShift(b: bv32, low: bool)
    requires b <= 0x7f
    ensures Push(b, low) >> 1 == b && (Push(b, low) & 1 == 1 <==> low)
  {
  }

  /** The largest word of n bits. */
  function Ones(n: nat): bv32 {
    if n == 0 then 0 else Push(Ones(n - 1), true)
  }

  lemma OnesBelow(n: nat)
    requires n < 8
    ensures Ones(n) <= 0x7f
  {
    assert Ones(1) == 0x01 && Ones(2) == 0x03;
    assert Ones(3) == 0x07 && Ones(4) == 0x0f;
    assert Ones(5) == 0x1f && Ones(6) == 0x3f && Ones(7) == 0x7f;
  }

  lemma PushMonotone(b: bv32, c: bv32, low: bool)
    requires b <= c <= 0x7f
    ensures Push(b, low) <= Push(c, true)
  {
  }

  lemma {:induction false} OfIntBelow(x: nat, n: nat)
    requires n <= 8
    ensures OfInt(x, n) <= Ones(n)
    decreases n
  {
    if 0 < n {
      OfIntBelow(x / 2, n - 1);
      OnesBelow(n - 1);
      PushMonotone(OfInt(x / 2, n - 1), Ones(n - 1), x % 2 == 1);
    }
  }

  lemma {:induction false} ToIntOfInt(x: nat, n: nat)
    requires n <= 8
    ensures ToInt(OfInt(x, n), n) == Low(x, n)
    decreases n
  {
    if 0 < n {
      var (b, low) := (OfInt(x / 2, n - 1), x % 2 == 1);
      OfIntBelow(x / 2, n - 1);
      OnesBelow(n - 1);
      PushThenShift(b, low);
      ToIntOfInt(x / 2, n - 1);
      assert OfInt(x, n) == Push(b, low);
      HalfOf(Push(b, low), n);
    }
  }

  /** One bit of (cur & ~mask) | (val & mask). */
  lemma MergeBit(cur: bv32, mask: bv32, val: bv32)
    ensures var r := (cur & !mask) | (val & mask);
            && r & 1 == (if mask & 1 == 1 then val & 1 else cur & 1)
            && r >> 1 == ((cur >> 1) & !(mask >> 1)) | ((val >> 1) & (mask >> 1))
  {
  }

  lemma LowBit(b: bv32)
    ensures b & 1 == 0 || b & 1 == 1
  {
  }

  /** The C expression takes each bit from val where the mask has a one and from cur where it
      has a zero. */
  lemma {:induction false} MergeIsBlend(cur: bv32, mask: bv32, val: bv32, n: nat)
    ensures ToInt((cur & !mask) | (val & mask), n) == Blend(ToInt(cur, n), ToInt(mask, n), ToInt(val, n), n)
    decreases n
  {
    if 0 < n {
      MergeBit(cur, mask, val);
      LowBit(cur);
      LowBit(val);
      HalfOf(cur, n);
      HalfOf(mask, n);
      HalfOf(val, n);
      MergeIsBlend(cur >> 1, mask >> 1, val >> 1, n - 1);
    }
  }

  lemma HalfOf(b: bv32, n: nat)
    requires 0 < n
    ensures ToInt(b, n) == 2 * ToInt(b >> 1, n - 1) + (if b & 1 == 1 then 1 else 0)
    ensures ToInt(b, n) / 2 == ToInt(b >> 1, n - 1) && (ToInt(b, n) % 2 == 1 <==> b & 1 == 1)
  {
  }

  lemma {:induction false} ToIntLow(b: bv32, n: nat, k: nat)
    ensures ToInt(b, n) == Low(ToInt(b, n + k), n)
    decreases n
  {
    if 0 < n {
      HalfOf(b, n + k);
      ToIntLow(b >> 1, n - 1, k);
    }
  }

  /** A byte read into an unsigned int, and the low byte written back. */
  function Word(b: byte): bv32 {
    OfInt(b, 8)
  }

  function LowByte(b: bv32): (r: byte)
  {
    U8(ToInt(b, 32))
  }

  lemma LowByteIs(b: bv32)
    ensures LowByte(b) == ToInt(b, 8)
  {
    ToIntLow(b, 8, 24);
    LowIsU8(ToInt(b, 32));
  }

  lemma LowByteOfWord(b: byte)
    ensures LowByte(Word(b)) == b
  {
    LowByteIs(Word(b));
    ToIntOfInt(b, 8);
    LowIsU8(b);
    U8Small(b);
  }

  /** And no bit beyond those of the byte is set. */
  lemma WordFits(b: byte)
    ensures Word(b) <= 0xff
  {
    OfIntBelow(b, 8);
    OnesBelow(7);
  }

  /** The value regmap_update_bits writes, cut to a byte. */
  lemma MergedByte(cur: byte, mask: bv32, val: bv32)
    ensures LowByte((Word(cur) & !mask) | (val & mask)) == BlendU8(cur, LowByte(mask), LowByte(val))
  {
    var c := Word(cur);
    LowByteIs((c & !mask) | (val & mask));
    LowByteIs(c);
    LowByteIs(mask);
    LowByteIs(val);
    LowByteOfWord(cur);
    MergeIsBlend(c, mask, val, 8);
    BlendFits(cur, LowByte(mask), LowByte(val));
  }

  /** An update would not change the word. */
  predicate Keeps(cur: byte, mask: bv32, val: bv32) {
    (Word(cur) & !mask) | (val & mask) == Word(cur)
  }

  /** Then it does not change the byte either. */
  lemma UnchangedBlend(cur: byte, mask: bv32, val: bv32)
    ensures Keeps(cur, mask, val) ==> BlendU8(cur, LowByte(mask), LowByte(val)) == cur
  {
    MergedByte(cur, mask, val);
    LowByteOfWord(cur);
  }

  lemma BlendFits(cur: byte, mask: byte, val: byte)
    ensures U8(Blend(cur, mask, val, 8)) == Blend(cur, mask, val, 8)
  {
    var b := Blend(cur, mask, val, 8);
    BlendLow(cur, mask, val, 8, 0);
    LowIsU8(b);
    LowIsU8(cur);
    LowIsU8(mask);
    LowIsU8(val);
    U8Small(cur);
    U8Small(mask);
    U8Small(val);
  }

  lemma U8Small(x: byte)
    ensures U8(x) == x
  {
  }
}

module Regmap {
  import opened Bytes
  import opened Bits
  import opened I2cBus
  import opened I2cMasters
  import opened I2cTransfer
  import opened RegisterChip

  /** The word regmap_update_bits computes, and whether it is the one it has read. */
  method NewWord(cur: byte, mask: bv32, val: bv32) returns (same: bool, word: nat)
    ensures same == Keeps(cur, mask, val) == ((Word(cur) & !mask) | (val & mask) == Word(cur))
    ensures U8(word) == BlendU8(cur, LowByte(mask), LowByte(val))
  {
    MergedByte(cur, mask, val);
    var merged := (Word(cur) & !mask) | (val & mask);
    same, word := merged == Word(cur), ToInt(merged, 32);
  }

  class Regmap {
    const adapter: Adapter
    const addr: nat
    ghost const c0: Chip

    constructor (adapter: Adapter, addr: nat, ghost c0: Chip)
      requires adapter.Valid() && addr < 128 && ValidChip(c0) && IsChip(adapter.Slave(), c0, addr)
      ensures this.adapter == adapter && this.addr == addr && this.c0 == c0 && Valid()
    {
      this.adapter, this.addr, this.c0 := adapter, addr, c0;
    }

    ghost predicate Valid() {
      adapter.Valid() && addr < 128 && ValidChip(c0) && IsChip(adapter.Slave(), c0, addr)
    }

    /** The chip's registers now. */
    ghost function Regs(): (r: seq<byte>)
      requires Valid()
      reads adapter.Objects()
      ensures |r| == 256
    {
      ChipAt(c0, addr, adapter.Wire()).regs
    }

    /** The message that writes data from register reg on. */
    function WriteMsg(reg: u32, data: seq<byte>): Msg {
      Msg(addr, false, [U8(reg)] + data)
    }

    /** The two messages of regmap_read and regmap_bulk_read. */
    method ReadFrom(reg: u32, n: nat) returns (rc: int, vals: seq<byte>)
      requires Valid()
      modifies adapter.Objects()
      ensures Regs() == old(Regs()) && rc <= 0
      ensures rc == 0 ==> vals == Fetch(Regs(), U8(reg), n) && adapter.Now().count == old(adapter.Now().count) + 2
      ensures var code := adapter.RcAt(old(adapter.Now()), Pair(addr, [U8(reg)], n)); rc == if code < 0 then code else 0
      ensures PartOf(adapter.Wire(), old(adapter.Wire()), addr, [U8(reg)])
      ensures adapter.Sound() && 1 <= n <= Min(60, adapter.MaxLen()) ==> rc == 0
    {
      ghost var w0 := adapter.Wire();
      var ret, buf := WriteRead(adapter, addr, [U8(reg)], n);
      ReadBackKeeps(c0, addr, w0, adapter.Wire(), U8(reg));
      if ret < 0 {
        return ret, [];
      }
      ReadBack(adapter.Slave(), c0, addr, w0, U8(reg), n);
      return 0, buf;
    }

    /** regmap_read. Whatever happens, no register changes. */
    method Read(reg: u32) returns (rc: int, val: byte)
      requires Valid()
      modifies adapter.Objects()
      ensures Regs() == old(Regs()) && rc <= 0
      ensures rc == 0 ==> val == Regs()[U8(reg)]
      ensures var code := adapter.RcAt(old(adapter.Now()), Pair(addr, [U8(reg)], 1));
              rc == if code < 0 then code else 0
      ensures PartOf(adapter.Wire(), old(adapter.Wire()), addr, [U8(reg)])
      ensures rc == 0 ==> adapter.Now().count == old(adapter.Now().count) + 2
      ensures adapter.Sound() ==> rc == 0
    {
      FetchOne(Regs(), U8(reg));
      var buf;
      rc, buf := ReadFrom(reg, 1);
      val := if rc == 0 then buf[0] else 0;
    }

    /** regmap_write: the register is set exactly when the bridge takes the request, and 0 is
        answered exactly when it also confirms it. */
    method Write(reg: u32, val: nat) returns (rc: int)
      requires Valid()
      modifies adapter.Objects()
      ensures rc <= 0 && (rc == 0 <==> old(adapter.Acks(WriteMsg(reg, [U8(val)]))))
      ensures var code := adapter.RcAt(old(adapter.Now()), [WriteMsg(reg, [U8(val)])]);
              rc == if code < 0 then code else 0
      ensures Regs() == if old(adapter.Takes(WriteMsg(reg, [U8(val)]))) then old(Regs())[U8(reg) := U8(val)]
                        else old(Regs())
      ensures Regs() == old(Regs()) || Regs() == old(Regs())[reg % 256 := val % 256]
      ensures adapter.Dib0700? ==> (rc == 0 <==> old(adapter.Takes(WriteMsg(reg, [U8(val)]))))
      ensures adapter.Sound() ==> rc == 0
    {
      ghost var w0 := adapter.Wire();
      AcksMeansTaken(adapter, WriteMsg(reg, [U8(val)]));
      var ret := I2cTransfer.Write(adapter, WriteMsg(reg, [U8(val)]));
      assert adapter.Written(WriteMsg(reg, [U8(val)])) == WriteSeg(addr, [U8(reg)] + [U8(val)], true);
      WriteThrough(c0, addr, w0, U8(reg), [U8(val)]);
      return if ret < 0 then ret else 0;
    }

    /** regmap_bulk_read; the count is cut to 16 bits. Whatever happens, no register changes. */
    method BulkRead(reg: u32, count: nat) returns (rc: int, vals: seq<byte>)
      requires Valid()
      modifies adapter.Objects()
      ensures Regs() == old(Regs()) && rc <= 0
      ensures rc == 0 ==> vals == Fetch(Regs(), U8(reg), count % 0x10000)
      ensures var code := adapter.RcAt(old(adapter.Now()), Pair(addr, [U8(reg)], count % 0x10000));
              rc == if code < 0 then code else 0
      ensures adapter.Sound() && 1 <= count % 0x10000 <= Min(60, adapter.MaxLen()) ==> rc == 0
    {
      var n := count % 0x10000;
      rc, vals := ReadFrom(reg, n);
    }

    /** What of a block the registers get: dib0700 passes on nothing of one that makes its
        message 64 or 65 bytes long. */
    function Stored(vals: seq<byte>): seq<byte> {
      if adapter.Dib0700? && 63 <= |vals| then [] else vals
    }

    lemma BlockSeen(w0: seq<Seg>, reg: u32, vals: seq<byte>)
      requires Valid() && |vals| <= 64
      ensures ChipAt(c0, addr, w0 + [adapter.Written(WriteMsg(reg, vals))]).regs
              == Store(ChipAt(c0, addr, w0).regs, U8(reg), Stored(vals))
    {
      var m := WriteMsg(reg, vals);
      WrittenIs(m);
      if adapter.Dib0700? && |vals| == 63 {
        ChipStep(c0, addr, w0, WriteSeg(addr, [], true));
      } else if adapter.Dib0700? && |vals| == 64 {
        assert [U8(reg)] + [] == [m.buf[0]];
        WriteThrough(c0, addr, w0, U8(reg), []);
      } else {
        assert adapter.Written(m) == WriteSeg(addr, [U8(reg)] + vals, true);
        WriteThrough(c0, addr, w0, U8(reg), vals);
      }
    }

    /** What the bus sees of a block. */
    lemma WrittenIs(m: Msg)
      requires !m.rd && 1 <= |m.buf| <= 65
      ensures adapter.Written(m) ==
              WriteSeg(m.addr, if !adapter.Dib0700? || |m.buf| < 64 then m.buf
                               else if |m.buf| == 64 then [] else [m.buf[0]], true)
    {
      var n := |m.buf| % 64;
      assert |m.buf| < 64 ==> m.buf[..n] == m.buf;
      assert |m.buf| == 64 ==> m.buf[..n] == [];
      assert |m.buf| == 65 ==> m.buf[..n] == [m.buf[0]];
    }

    /** regmap_bulk_write. */
    method BulkWrite(reg: u32, vals: seq<byte>) returns (rc: int)
      requires Valid()
      modifies adapter.Objects()
      ensures rc <= 0
      ensures |vals| > 64 ==> rc == -EOPNOTSUPP && Regs() == old(Regs())
      ensures |vals| <= 64 ==>
                var m := WriteMsg(reg, vals);
                && (rc == 0 <==> old(adapter.Acks(m)))
                && Regs() == if old(adapter.Takes(m)) then Store(old(Regs()), U8(reg), Stored(vals)) else old(Regs())
      ensures |vals| <= 64 && old(adapter.Takes(WriteMsg(reg, vals))) ==>
                Regs() == if adapter.Dib0700? && 63 <= |vals| then old(Regs()) else Store(old(Regs()), reg % 256, vals)
      ensures adapter.Sound() && |vals| < adapter.MaxLen() ==> rc == 0
    {
      if |vals| > 64 {
        return -EOPNOTSUPP;
      }
      ghost var w0 := adapter.Wire();
      var ret := I2cTransfer.Write(adapter, WriteMsg(reg, vals));
      BlockSeen(w0, reg, vals);
      return if ret < 0 then ret else 0;
    }

    /** What an update leaves of a register that held cur, when its word does change: the
        blend of cur and val under the mask if the bridge takes the write at t, which is
        confirmed exactly when 0 is answered. */
    ghost predicate UpdatedAt(t: Moment, reg: u32, blend: byte, before: seq<byte>, after: seq<byte>, rc: int)
      requires |before| == |after| == 256
    {
      var m := WriteMsg(reg, [blend]);
      && (rc == 0 <==> adapter.AcksAt(t, m))
      && after == if adapter.TakesAt(t, m) then before[U8(reg) := blend] else before
    }

    /** The compare and the write of regmap_update_bits, `word` being the new word. */
    method WriteUnless(same: bool, reg: u32, word: nat) returns (rc: int)
      requires Valid()
      modifies adapter.Objects()
      ensures rc <= 0 && (adapter.Sound() ==> rc == 0)
      ensures if same then rc == 0 && adapter.Wire() == old(adapter.Wire()) && Regs() == old(Regs())
              else UpdatedAt(old(adapter.Now()), reg, U8(word), old(Regs()), Regs(), rc)
      ensures rc == 0 && !same ==> Regs()[U8(reg)] == U8(word)
    {
      if same {
        return 0;
      }
      AcksMeansTaken(adapter, WriteMsg(reg, [U8(word)]));
      rc := Write(reg, word);
    }

    /** The second half of regmap_update_bits, the register having been read as cur. */
    method WriteUpdated(reg: u32, cur: byte, mask: bv32, val: bv32) returns (rc: int)
      requires Valid() && cur == Regs()[U8(reg)]
      modifies adapter.Objects()
      ensures rc <= 0 && (adapter.Sound() ==> rc == 0)
      ensures if Keeps(cur, mask, val)
              then rc == 0 && adapter.Wire() == old(adapter.Wire()) && Regs() == old(Regs())
              else
                UpdatedAt(old(adapter.Now()), reg, BlendU8(cur, LowByte(mask), LowByte(val)), old(Regs()), Regs(), rc)
      ensures rc == 0 ==> Regs()[U8(reg)] == BlendU8(cur, LowByte(mask), LowByte(val))
    {
      UnchangedBlend(cur, mask, val);
      var same, word := NewWord(cur, mask, val);
      rc := WriteUnless(same, reg, word);
    }

    /** regmap_update_bits. `read` is the moment after the read, if that succeeded. When the
        word would not change nothing is written; otherwise see UpdatedAt. */
    method UpdateBits(reg: u32, mask: bv32, val: bv32) returns (rc: int, ghost read: Option<Moment>)
      requires Valid()
      modifies adapter.Objects()
      ensures rc <= 0 && (adapter.Sound() ==> rc == 0)
      ensures read.None? ==> rc < 0 && Regs() == old(Regs())
      ensures read.Some? ==>
                var cur := old(Regs())[U8(reg)];
                && read.value.count == old(adapter.Now().count) + 2
                && if Keeps(cur, mask, val) then
                     && rc == 0 && Regs() == old(Regs())
                     && PartOf(adapter.Wire(), old(adapter.Wire()), addr, [U8(reg)])
                   else UpdatedAt(read.value, reg, BlendU8(cur, LowByte(mask), LowByte(val)), old(Regs()), Regs(), rc)
      ensures read.None? ==> rc == adapter.RcAt(old(adapter.Now()), Pair(addr, [U8(reg)], 1))
      ensures rc == 0 ==> Regs()[U8(reg)] == BlendU8(old(Regs())[U8(reg)], LowByte(mask), LowByte(val))
    {
      var cur;
      rc, cur := Read(reg);
      if rc < 0 {
        return rc, None;
      }
      read := Some(adapter.Now());
      rc := WriteUpdated(reg, cur, mask, val);
    }
  }

  /** A write that fails and yet takes effect: em28xx accepts the request, and the status that
      follows says that nobody acknowledged. */
  method FailedWriteTakesEffect(slave: Slave, c0: Chip, addr: nat, reg: u32, val: byte) returns (chip: Regmap, rc: int)
    requires addr < 128 && ValidChip(c0) && IsChip(slave, c0, addr)
    ensures chip.Valid() && rc < 0 && chip.Regs() == c0.regs[U8(reg) := val]
  {
    var em := new Em28xxMaster(slave, _ => 256, _ => 0x10, 0);
    chip := new Regmap(Em28xx(em), addr, c0);
    U8Again(val);
    rc := chip.Write(reg, val);
  }
}
