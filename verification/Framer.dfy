/** The transport-stream framer of tools/dvb_pid_dump.c: staging buffer, two-point sync
    search, resync, trimming, PID filter. Feed is one iteration of the outer loop; the
    loops themselves are in PidDump.dfy. Packet layout: section 2.4.3.2 of
    ISO/IEC 13818-1. */
module Framer {
  import opened Bytes

  const TS_PACKET: nat := 188
  const READ_SZ: nat := 48 * 1024
  const STAGE_SZ: nat := READ_SZ + TS_PACKET
  const SYNC: byte := 0x47

  datatype PidFilter = PassAll | Pids(pids: seq<nat>)

  predicate Matches(f: PidFilter, pid: nat) {
    f.PassAll? || pid in f.pids
  }

  /** The 13 PID bits of a packet header. */
  function TsPid(pkt: seq<byte>): (pid: nat)
    requires |pkt| == TS_PACKET
    ensures pid <= 0x1fff
  {
    var (hi: int, lo: int) := (pkt[1], pkt[2]);
    hi % 32 * 256 + lo
  }

  /** Its bits are the low five of the second byte and all of the third. */
  lemma TsPidBits(pkt: seq<byte>)
    requires |pkt| == TS_PACKET
    ensures TsPid(pkt) / 256 == pkt[1] % 32 && TsPid(pkt) % 256 == pkt[2]
  {
  }

  /** Two sync bytes one packet apart. */
  predicate SyncAt(s: seq<byte>, i: nat) {
    i + TS_PACKET < |s| && s[i] == SYNC && s[i + TS_PACKET] == SYNC
  }

  /** The least sync position from `from` on. */
  function FindSync(s: seq<byte>, from: nat): (r: Option<nat>)
    ensures r.None? ==> forall i: nat :: from <= i ==> !SyncAt(s, i)
    ensures r.Some? ==> from <= r.value && SyncAt(s, r.value) && forall i: nat :: from <= i < r.value ==> !SyncAt(s, i)
    decreases |s| - from
  {
    if |s| <= from + TS_PACKET then None
    else if SyncAt(s, from) then Some(from)
    else FindSync(s, from + 1)
  }

  /** stage .. written are the variables of main (written is standard output). The last
      three are history: the stream offset of stage[0], and the stream offsets of the
      packets processed and of the positions the sync search locked on. */
  datatype Framer = Framer(
    stage: seq<byte>, locked: bool,
    total: nat, matched: nat, badSync: nat, written: seq<seq<byte>>,
    base: nat, taken: seq<nat>, locks: seq<nat>)

  const START := Framer([], false, 0, 0, 0, [], 0, [], [])

  function Packet(s: seq<byte>, i: nat): (pkt: seq<byte>)
    requires i + TS_PACKET <= |s|
    ensures |pkt| == TS_PACKET
  {
    s[i..i + TS_PACKET]
  }

  /** What the filter lets through of one packet. */
  function Kept(filter: PidFilter, pkt: seq<byte>): seq<seq<byte>>
    requires |pkt| == TS_PACKET
  {
    if Matches(filter, TsPid(pkt)) then [pkt] else []
  }

  /** Count, filter and write the packet at stage[c]. */
  function Emit(f: Framer, filter: PidFilter, c: nat): Framer
    requires c + TS_PACKET <= |f.stage|
  {
    var kept := Kept(filter, Packet(f.stage, c));
    f.(total := f.total + 1, taken := f.taken + [f.base + c],
       matched := f.matched + |kept|, written := f.written + kept)
  }

  /** One iteration of the packet loop: a packet, a resync, or the loss of the lock, which
      gives up the whole stage. */
  function Iterate(f: Framer, filter: PidFilter, c: nat): (r: (Framer, nat))
    requires c + TS_PACKET <= |f.stage|
    ensures r.0.stage == f.stage && r.0.base == f.base && r.0.locks == f.locks
    ensures c < r.1 <= |f.stage|
    ensures r.0.locked == f.locked || (!r.0.locked && r.1 == |f.stage|)
  {
    if f.stage[c] == SYNC then (Emit(f, filter, c), c + TS_PACKET)
    else
      var g := f.(badSync := f.badSync + 1);
      match FindSync(f.stage, c)
      case None => (g.(locked := false), |f.stage|)
      case Some(resync) => (g, resync)
  }

  /** What the packet loop does with a sync byte where it expects one: the packet there is counted,
      and written if the filter passes everything or lists its PID; the next is 188 bytes on. */
  lemma TakesPacket(f: Framer, filter: PidFilter, c: nat)
    requires c + TS_PACKET <= |f.stage| && f.stage[c] == 0x47
    ensures var (g, c') := Iterate(f, filter, c);
            var (hi: int, lo: int) := (f.stage[c + 1], f.stage[c + 2]);
            var pid := hi % 32 * 256 + lo;
            var n := if filter.PassAll? || pid in filter.pids then 1 else 0;
            && c' == c + 188 && g.locked == f.locked
            && g.total == f.total + 1 && g.taken == f.taken + [f.base + c] && g.badSync == f.badSync
            && g.matched == f.matched + n
            && g.written == f.written + if n == 1 then [f.stage[c..c + 188]] else []
  {
    var pkt := f.stage[c..c + 188];
    assert Packet(f.stage, c) == pkt && pkt[1] == f.stage[c + 1] && pkt[2] == f.stage[c + 2];
  }

  /** The least position from c on with two sync bytes 188 apart. */
  ghost predicate LeastSync(s: seq<byte>, c: nat, i: nat) {
    && c <= i && i + 188 < |s| && s[i] == 0x47 && s[i + 188] == 0x47
    && forall j :: c <= j < i ==> !(s[j] == 0x47 && s[j + 188] == 0x47)
  }

  ghost predicate NoSync(s: seq<byte>, c: nat) {
    forall j :: c <= j < |s| - 188 ==> !(s[j] == 0x47 && s[j + 188] == 0x47)
  }

  lemma FindSyncIs(s: seq<byte>, from: nat)
    ensures match FindSync(s, from) { case None => NoSync(s, from) case Some(i) => LeastSync(s, from, i) }
  {
    var end := match FindSync(s, from) { case None => |s| - 188 case Some(i) => i as int };
    forall j | from <= j < end ensures !(s[j] == 0x47 && s[j + 188] == 0x47) {
      assert !SyncAt(s, j);
    }
  }

  /** And with any other byte: the search for the next sync position keeps the lock if it finds
      one, and otherwise gives up the lock and the whole stage. */
  lemma Resyncs(f: Framer, filter: PidFilter, c: nat)
    requires c + TS_PACKET <= |f.stage| && f.stage[c] != 0x47
    ensures var (g, c') := Iterate(f, filter, c);
            && g == f.(badSync := f.badSync + 1, locked := g.locked)
            && if c' < |f.stage| then LeastSync(f.stage, c, c') && g.locked == f.locked
               else NoSync(f.stage, c) && !g.locked && c' == |f.stage|
  {
    FindSyncIs(f.stage, c);
  }

  /** The packet loop from `consumed` on, with its final `consumed`. */
  function Drain(f: Framer, filter: PidFilter, consumed: nat): (r: (Framer, nat))
    requires consumed <= |f.stage|
    ensures r.0.stage == f.stage && r.0.base == f.base && r.0.locks == f.locks
    ensures consumed <= r.1 <= |f.stage|
    ensures r.0.locked ==> |f.stage| < r.1 + TS_PACKET
    ensures !r.0.locked && f.locked ==> r.1 == |f.stage|
    decreases |f.stage| - consumed
  {
    if |f.stage| < consumed + TS_PACKET then (f, consumed)
    else
      var (g, c) := Iterate(f, filter, consumed);
      Drain(g, filter, c)
  }

  /** From c the packet loop goes on to c': 188 bytes on from a sync byte, from any other to the
      least sync position behind it. */
  ghost predicate Leads(s: seq<byte>, c: nat, c': nat) {
    c + 188 <= |s| && if s[c] == 0x47 then c' == c + 188 else LeastSync(s, c, c')
  }

  /** At c there is a bad byte with no sync position behind it. */
  ghost predicate Lost(s: seq<byte>, c: nat) {
    c + 188 <= |s| && s[c] != 0x47 && NoSync(s, c)
  }

  /** at are the positions that the packet loop visits from c on, up to its end. */
  ghost predicate Visits(s: seq<byte>, c: nat, at: seq<nat>, end: nat, lost: bool)
    decreases |at|
  {
    if at == [] then end == c && !lost && |s| < c + 188
    else if lost && |at| == 1 then at[0] == c && Lost(s, c) && end == |s|
    else
      var next := if |at| == 1 then end else at[1];
      at[0] == c && Leads(s, c, next) && Visits(s, next, at[1..], end, lost)
  }

  /** Those of them with a sync byte, as stream offsets. */
  function Synced(s: seq<byte>, base: nat, at: seq<nat>): seq<nat> {
    if at == [] then [] else SyncedAt(s, base, at[0]) + Synced(s, base, at[1..])
  }

  function SyncedAt(s: seq<byte>, base: nat, c: nat): seq<nat> {
    if c < |s| && s[c] == 0x47 then [base + c] else []
  }

  lemma VisitsCons(s: seq<byte>, base: nat, c: nat, c': nat, at: seq<nat>, end: nat, lost: bool)
    requires Leads(s, c, c') && Visits(s, c', at, end, lost)
    ensures Visits(s, c, [c] + at, end, lost)
    ensures Synced(s, base, [c] + at) == SyncedAt(s, base, c) + Synced(s, base, at)
  {
    assert ([c] + at)[1..] == at;
  }

  lemma VisitsOne(s: seq<byte>, base: nat, c: nat)
    requires Lost(s, c)
    ensures Visits(s, c, [c], |s|, true) && Synced(s, base, [c]) == []
  {
    assert [c][1..] == [];
  }

  /** One turn, seen this way. */
  lemma IterateLeads(f: Framer, filter: PidFilter, c: nat)
    requires f.locked && c + TS_PACKET <= |f.stage|
    ensures var ((g, c'), at) := (Iterate(f, filter, c), SyncedAt(f.stage, f.base, c));
            && (if g.locked then Leads(f.stage, c, c') else Lost(f.stage, c) && c' == |f.stage|)
            && g.taken == f.taken + at && g.total == f.total + |at| && g.total + g.badSync == f.total + f.badSync + 1
            && Drain(f, filter, c) == Drain(g, filter, c')
  {
    if f.stage[c] == 0x47 {
      TakesPacket(f, filter, c);
    } else {
      Resyncs(f, filter, c);
    }
  }

  /** The packet loop from c on ends as g at `end`, having visited the positions at: it took the
      packets where there is a sync byte and counted a bad sync at each other one. */
  ghost predicate Followed(f: Framer, c: nat, at: seq<nat>, g: Framer, end: nat) {
    var synced := Synced(f.stage, f.base, at);
    && Visits(f.stage, c, at, end, !g.locked)
    && g.taken == f.taken + synced && g.total == f.total + |synced|
    && g.total + g.badSync == f.total + f.badSync + |at|
  }

  lemma FollowedCons(f: Framer, c: nat, g: Framer, c': nat, rest: seq<nat>, h: Framer, end: nat)
    requires Leads(f.stage, c, c') && g.stage == f.stage && g.base == f.base
    requires var at := SyncedAt(f.stage, f.base, c);
             g.taken == f.taken + at && g.total == f.total + |at| && g.total + g.badSync == f.total + f.badSync + 1
    requires Followed(g, c', rest, h, end)
    ensures Followed(f, c, [c] + rest, h, end)
  {
    VisitsCons(f.stage, f.base, c, c', rest, end, !h.locked);
  }

  lemma FollowedOne(f: Framer, c: nat, g: Framer)
    requires Lost(f.stage, c) && !g.locked
    requires g.taken == f.taken && g.total == f.total && g.badSync == f.badSync + 1
    ensures Followed(f, c, [c], g, |f.stage|)
  {
    VisitsOne(f.stage, f.base, c);
  }

  /** So it is for a locked framer, which is unlocked in the end exactly if the loop came to a bad
      byte with no sync position behind it. */
  lemma {:induction false} DrainVisits(f: Framer, filter: PidFilter, c: nat) returns (at: seq<nat>)
    requires f.locked && c <= |f.stage|
    ensures Followed(f, c, at, Drain(f, filter, c).0, Drain(f, filter, c).1)
    decreases |f.stage| - c
  {
    if |f.stage| < c + TS_PACKET {
      return [];
    }
    var (g, c') := Iterate(f, filter, c);
    IterateLeads(f, filter, c);
    if g.locked {
      var rest := DrainVisits(g, filter, c');
      FollowedCons(f, c, g, c', rest, Drain(g, filter, c').0, Drain(g, filter, c').1);
      at := [c] + rest;
    } else {
      FollowedOne(f, c, g);
      at := [c];
    }
  }

  /** memmove of the unconsumed tail to the front of stage. */
  function Compact(f: Framer, consumed: nat): Framer
    requires consumed <= |f.stage|
  {
    f.(stage := f.stage[consumed..], base := f.base + consumed)
  }

  function Finish(f: Framer, filter: PidFilter): Framer {
    var (g, consumed) := Drain(f, filter, 0);
    Compact(g, consumed)
  }

  function Lock(f: Framer, off: nat): Framer
    requires off <= |f.stage|
  {
    Compact(f, off).(locked := true, locks := f.locks + [f.base + off])
  }

  /** A search that found nothing keeps two packets' worth. */
  function Trim(f: Framer): Framer {
    if 2 * TS_PACKET < |f.stage| then Compact(f, |f.stage| - 2 * TS_PACKET) else f
  }

  /** What is left of a stage after a trim, and after a lock at `off`. */
  lemma StageLeft(f: Framer, off: nat)
    requires off <= |f.stage|
    ensures var n := if |f.stage| < 376 then |f.stage| else 376;
            Trim(f) == f.(stage := f.stage[|f.stage| - n..], base := f.base + |f.stage| - n)
    ensures Lock(f, off) == f.(stage := f.stage[off..], base := f.base + off, locked := true,
                               locks := f.locks + [f.base + off])
  {
  }

  /** One iteration of the outer loop, after read_ts returned `chunk`. */
  function Feed(f: Framer, filter: PidFilter, chunk: seq<byte>): Framer {
    if chunk == [] then f
    else
      var g := f.(stage := f.stage + chunk);
      if g.locked then Finish(g, filter)
      else
        match FindSync(g.stage, 0)
        case None => Trim(g)
        case Some(off) => Finish(Lock(g, off), filter)
  }

  function Feeds(f: Framer, filter: PidFilter, chunks: seq<seq<byte>>): Framer {
    if chunks == [] then f
    else Feed(Feeds(f, filter, chunks[..|chunks| - 1]), filter, chunks[|chunks| - 1])
  }

  function Concat(chunks: seq<seq<byte>>): seq<byte> {
    if chunks == [] then [] else Concat(chunks[..|chunks| - 1]) + chunks[|chunks| - 1]
  }

  // ---- soundness on arbitrary input ------------------------------------------

  predicate Inside(s: seq<byte>, at: seq<nat>) {
    forall k :: 0 <= k < |at| ==> at[k] + TS_PACKET <= |s|
  }

  /** The packets at the given offsets of the stream that pass the filter, in order. */
  function Selected(s: seq<byte>, at: seq<nat>, filter: PidFilter): seq<seq<byte>>
    requires Inside(s, at)
  {
    if at == [] then []
    else
      var n := |at| - 1;
      Selected(s, at[..n], filter) + Kept(filter, Packet(s, at[n]))
  }

  lemma {:induction false} SelectedExtends(s: seq<byte>, s': seq<byte>, at: seq<nat>, filter: PidFilter)
    requires Inside(s, at) && s <= s'
    ensures Selected(s', at, filter) == Selected(s, at, filter)
    decreases |at|
  {
    if at != [] {
      var n := |at| - 1;
      SelectedExtends(s, s', at[..n], filter);
      assert Packet(s', at[n]) == Packet(s, at[n]);
    }
  }

  /** Disjoint packets in stream order, each starting with the sync byte and lying
      before `end`. */
  ghost predicate Slices(s: seq<byte>, at: seq<nat>, end: nat) {
    && end <= |s|
    && (forall k :: 0 <= k < |at| ==> at[k] + TS_PACKET <= end && s[at[k]] == SYNC)
    && (forall i, j :: 0 <= i < j < |at| ==> at[i] + TS_PACKET <= at[j])
  }

  /** With `c` bytes of stage consumed: the packets taken are slices of the stream before
      the read position; every byte before the read position is in a packet or skipped, and
      each bad sync skipped at least one. */
  ghost predicate Placed(s: seq<byte>, f: Framer, c: nat) {
    && f.base <= |s| && f.stage == s[f.base..] && c <= |f.stage|
    && |f.taken| == f.total && Slices(s, f.taken, f.base + c)
    && TS_PACKET * f.total + f.badSync <= f.base + c
  }

  /** What was written is what the filter keeps of the packets taken. */
  ghost predicate Wrote(s: seq<byte>, f: Framer, filter: PidFilter) {
    Inside(s, f.taken) && f.written == Selected(s, f.taken, filter) && |f.written| == f.matched
  }

  ghost predicate Sound(s: seq<byte>, f: Framer, filter: PidFilter, c: nat) {
    Placed(s, f, c) && Wrote(s, f, filter)
  }

  /** At the head of the outer loop there is always room for a read. */
  predicate HeadInv(f: Framer) {
    |f.stage| < (if f.locked then TS_PACKET else 2 * TS_PACKET + 1)
  }

  lemma SlicesAppend(s: seq<byte>, at: seq<nat>, end: nat, p: nat)
    requires Slices(s, at, end) && end <= p && p + TS_PACKET <= |s| && s[p] == SYNC
    ensures Slices(s, at + [p], p + TS_PACKET)
  {
  }

  lemma SelectedAppend(s: seq<byte>, at: seq<nat>, p: nat, filter: PidFilter)
    requires Inside(s, at) && p + TS_PACKET <= |s|
    ensures Inside(s, at + [p])
    ensures Selected(s, at + [p], filter) == Selected(s, at, filter) + Kept(filter, Packet(s, p))
  {
    assert (at + [p])[..|at|] == at;
  }

  lemma PacketShift(s: seq<byte>, base: nat, c: nat)
    requires base <= |s| && c + TS_PACKET <= |s| - base
    ensures Packet(s[base..], c) == Packet(s, base + c) && s[base..][c] == s[base + c]
  {
  }

  lemma EmitPlaced(s: seq<byte>, f: Framer, filter: PidFilter, c: nat)
    requires Placed(s, f, c) && c + TS_PACKET <= |f.stage| && f.stage[c] == SYNC
    ensures Placed(s, Emit(f, filter, c), c + TS_PACKET)
  {
    PacketShift(s, f.base, c);
    SlicesAppend(s, f.taken, f.base + c, f.base + c);
  }

  lemma WroteOneMore(s: seq<byte>, f: Framer, filter: PidFilter, p: nat, kept: seq<seq<byte>>)
    requires Wrote(s, f, filter) && p + TS_PACKET <= |s| && kept == Kept(filter, Packet(s, p))
    ensures Wrote(s, f.(taken := f.taken + [p], matched := f.matched + |kept|, written := f.written + kept), filter)
  {
    SelectedAppend(s, f.taken, p, filter);
  }

  lemma EmitWrote(s: seq<byte>, f: Framer, filter: PidFilter, c: nat)
    requires Wrote(s, f, filter) && f.base <= |s| && f.stage == s[f.base..] && c + TS_PACKET <= |f.stage|
    ensures Wrote(s, Emit(f, filter, c), filter)
  {
    PacketShift(s, f.base, c);
    var kept := Kept(filter, Packet(f.stage, c));
    assert kept == Kept(filter, Packet(s, f.base + c));
    WroteOneMore(s, f, filter, f.base + c, kept);
  }

  lemma EmitSound(s: seq<byte>, f: Framer, filter: PidFilter, c: nat)
    requires Sound(s, f, filter, c) && c + TS_PACKET <= |f.stage| && f.stage[c] == SYNC
    ensures Sound(s, Emit(f, filter, c), filter, c + TS_PACKET)
  {
    EmitPlaced(s, f, filter, c);
    EmitWrote(s, f, filter, c);
  }

  lemma ResyncSound(s: seq<byte>, f: Framer, filter: PidFilter, c: nat, locked: bool, c': nat)
    requires Sound(s, f, filter, c) && c < c' <= |f.stage|
    ensures Sound(s, f.(badSync := f.badSync + 1, locked := locked), filter, c')
  {
  }

  lemma IterateSound(s: seq<byte>, f: Framer, filter: PidFilter, c: nat)
    requires Sound(s, f, filter, c) && c + TS_PACKET <= |f.stage|
    ensures var (g, c') := Iterate(f, filter, c); Sound(s, g, filter, c')
  {
    if f.stage[c] == SYNC {
      EmitSound(s, f, filter, c);
    } else {
      var (g, c') := Iterate(f, filter, c);
      ResyncSound(s, f, filter, c, g.locked, c');
    }
  }

  lemma {:induction false} DrainSound(s: seq<byte>, f: Framer, filter: PidFilter, c: nat)
    requires Sound(s, f, filter, c)
    ensures Sound(s, Drain(f, filter, c).0, filter, Drain(f, filter, c).1)
    decreases |f.stage| - c
  {
    if c + TS_PACKET <= |f.stage| {
      IterateSound(s, f, filter, c);
      var (g, c') := Iterate(f, filter, c);
      DrainSound(s, g, filter, c');
    }
  }

  /** Output only grows. */
  lemma {:induction false} DrainWrites(f: Framer, filter: PidFilter, c: nat)
    requires c <= |f.stage|
    ensures f.written <= Drain(f, filter, c).0.written
    decreases |f.stage| - c
  {
    if c + TS_PACKET <= |f.stage| {
      var (g, c') := Iterate(f, filter, c);
      DrainWrites(g, filter, c');
    }
  }

  lemma CompactSound(s: seq<byte>, f: Framer, filter: PidFilter, c: nat)
    requires Sound(s, f, filter, c)
    ensures Sound(s, Compact(f, c), filter, 0)
  {
  }

  lemma SkipSound(s: seq<byte>, f: Framer, filter: PidFilter, c: nat)
    requires Sound(s, f, filter, 0) && c <= |f.stage|
    ensures Sound(s, Compact(f, c), filter, 0)
  {
  }

  lemma FinishSound(s: seq<byte>, f: Framer, filter: PidFilter)
    requires Sound(s, f, filter, 0) && f.locked
    ensures Sound(s, Finish(f, filter), filter, 0) && HeadInv(Finish(f, filter))
  {
    DrainSound(s, f, filter, 0);
    var (g, consumed) := Drain(f, filter, 0);
    CompactSound(s, g, filter, consumed);
  }

  /** More bytes have been read into the stage. */
  lemma StageSound(s: seq<byte>, f: Framer, filter: PidFilter, chunk: seq<byte>)
    requires Sound(s, f, filter, 0)
    ensures Sound(s + chunk, f.(stage := f.stage + chunk), filter, 0)
  {
    SelectedExtends(s, s + chunk, f.taken, filter);
    assert (s + chunk)[f.base..] == s[f.base..] + chunk;
  }

  lemma TrimSound(s: seq<byte>, g: Framer, filter: PidFilter)
    requires Sound(s, g, filter, 0) && !g.locked
    ensures Sound(s, Trim(g), filter, 0) && HeadInv(Trim(g))
  {
    if 2 * TS_PACKET < |g.stage| {
      SkipSound(s, g, filter, |g.stage| - 2 * TS_PACKET);
    }
  }

  lemma LockSound(s: seq<byte>, g: Framer, filter: PidFilter, off: nat)
    requires Sound(s, g, filter, 0) && off <= |g.stage|
    ensures Sound(s, Finish(Lock(g, off), filter), filter, 0) && HeadInv(Finish(Lock(g, off), filter))
  {
    SkipSound(s, g, filter, off);
    FinishSound(s, Lock(g, off), filter);
  }

  lemma FeedSound(s: seq<byte>, f: Framer, filter: PidFilter, chunk: seq<byte>)
    requires Sound(s, f, filter, 0) && HeadInv(f)
    ensures Sound(s + chunk, Feed(f, filter, chunk), filter, 0) && HeadInv(Feed(f, filter, chunk))
  {
    if chunk == [] {
      assert s + chunk == s;
    } else {
      var g := f.(stage := f.stage + chunk);
      StageSound(s, f, filter, chunk);
      if g.locked {
        FinishSound(s + chunk, g, filter);
      } else {
        match FindSync(g.stage, 0)
        case None => TrimSound(s + chunk, g, filter);
        case Some(off) => LockSound(s + chunk, g, filter, off);
      }
    }
  }

  /** Framer soundness: any input, cut into reads in any way. */
  lemma {:induction false} FeedsSound(filter: PidFilter, chunks: seq<seq<byte>>)
    ensures Sound(Concat(chunks), Feeds(START, filter, chunks), filter, 0)
    ensures HeadInv(Feeds(START, filter, chunks))
    decreases |chunks|
  {
    if chunks != [] {
      var n := |chunks| - 1;
      FeedsSound(filter, chunks[..n]);
      FeedSound(Concat(chunks[..n]), Feeds(START, filter, chunks[..n]), filter, chunks[n]);
    }
  }

  /** The positions before `end` that lie in no packet taken: what the search dropped before
      a lock, trims, resyncs and lost locks gave up. */
  function Skipped(taken: seq<nat>, end: nat): set<nat> {
    set p: nat | p < end && !InPacket(taken, p)
  }

  predicate InPacket(taken: seq<nat>, p: nat) {
    exists k :: 0 <= k < |taken| && taken[k] <= p < taken[k] + TS_PACKET
  }

  function Interval(a: nat, b: nat): (s: set<nat>)
    ensures forall p: nat :: p in s <==> a <= p < b
    ensures |s| == if a < b then b - a else 0
  {
    if a < b then Interval(a, b - 1) + {b - 1} else {}
  }

  lemma SkippedSplit(s: seq<byte>, taken: seq<nat>, end: nat)
    requires Slices(s, taken, end) && taken != []
    ensures var (rest, last) := (taken[..|taken| - 1], taken[|taken| - 1]);
            && Slices(s, rest, last)
            && Skipped(taken, end) == Skipped(rest, last) + Interval(last + TS_PACKET, end)
  {
    var n := |taken| - 1;
    var (rest, last) := (taken[..n], taken[n]);
    forall p: nat | p < last ensures InPacket(taken, p) <==> InPacket(rest, p) {
      if InPacket(taken, p) {
        var k :| 0 <= k < |taken| && taken[k] <= p < taken[k] + TS_PACKET;
        assert rest[k] == taken[k];
      }
    }
    forall p: nat | last + TS_PACKET <= p < end ensures !InPacket(taken, p) {
    }
    forall p: nat | last <= p < last + TS_PACKET ensures InPacket(taken, p) {
      assert taken[n] <= p;
    }
  }

  /** Disjoint packets leave all but 188 bytes each. */
  lemma {:induction false} SkippedSize(s: seq<byte>, taken: seq<nat>, end: nat)
    requires Slices(s, taken, end)
    ensures |Skipped(taken, end)| == end - TS_PACKET * |taken|
    decreases |taken|
  {
    if taken == [] {
      assert Skipped(taken, end) == Interval(0, end);
    } else {
      var (rest, last) := (taken[..|taken| - 1], taken[|taken| - 1]);
      SkippedSplit(s, taken, end);
      SkippedSize(s, rest, last);
      assert Skipped(rest, last) !! Interval(last + TS_PACKET, end);
    }
  }

  /** Whatever the input and its cuts, every byte read is in exactly one of the packets
      processed, skipped, or still staged, and each bad sync skipped at least one. */
  lemma EveryByteAccountedFor(filter: PidFilter, chunks: seq<seq<byte>>)
    ensures var (f, s) := (Feeds(START, filter, chunks), Concat(chunks));
            var skipped := Skipped(f.taken, f.base);
            && |s| == TS_PACKET * f.total + |skipped| + |f.stage|
            && f.badSync <= |skipped|
            && f.stage == s[|s| - |f.stage|..]
  {
    FeedsSound(filter, chunks);
    var (f, s) := (Feeds(START, filter, chunks), Concat(chunks));
    SkippedSize(s, f.taken, f.base);
  }

  /** Every read asks for at least one byte and fits the staging buffer. */
  lemma ReadFits(f: Framer)
    requires HeadInv(f)
    ensures var want := Min(STAGE_SZ - |f.stage|, READ_SZ); 0 < want && |f.stage| + want <= STAGE_SZ
  {
  }
}
