/** The framing loop of tools/dvb_pid_dump.c on its staging buffer. One call of
    ProcessChunk is one iteration of the outer loop, proved to be Framer.Feed. */
module PidDump {
  import opened Bytes
  import F = Framer

  class PidDump {
    const filter: F.PidFilter
    const stage: array<byte>
    var stageLen: nat
    var locked: bool
    var totalPackets: nat
    var matchedPackets: nat
    var badSyncPackets: nat
    /** Standard output, one element a write. */
    var stdout: seq<seq<byte>>
    ghost var base: nat
    ghost var taken: seq<nat>
    ghost var locks: seq<nat>

    ghost predicate Valid()
      reads this
    {
      stageLen <= stage.Length == F.STAGE_SZ
    }

    ghost function Model(): F.Framer
      requires Valid()
      reads this, stage
    {
      F.Framer(stage[..stageLen], locked, totalPackets, matchedPackets, badSyncPackets, stdout, base, taken, locks)
    }

    constructor (filter: F.PidFilter)
      ensures Valid() && fresh(stage) && Model() == F.START && this.filter == filter
    {
      this.filter := filter;
      stage := new byte[F.STAGE_SZ](_ => 0);
      stageLen, locked := 0, false;
      totalPackets, matchedPackets, badSyncPackets := 0, 0, 0;
      stdout, base, taken, locks := [], 0, [], [];
    }

    /** The search loops: the offset of the first pair of sync bytes, or -1. */
    method SearchSync(start: nat) returns (off: int)
      requires Valid() && start <= stageLen
      ensures match F.FindSync(stage[..stageLen], start)
              case None => off == -1
              case Some(i) => off == i
      ensures if off < 0 then F.NoSync(stage[..stageLen], start) else F.LeastSync(stage[..stageLen], start, off)
    {
      ghost var s := stage[..stageLen];
      F.FindSyncIs(s, start);
      var i := start;
      while i + F.TS_PACKET < stageLen
        invariant start <= i <= stageLen
        invariant F.FindSync(s, i) == F.FindSync(s, start)
      {
        if stage[i] == F.SYNC && stage[i + F.TS_PACKET] == F.SYNC {
          assert F.SyncAt(s, i);
          return i;
        }
        assert !F.SyncAt(s, i);
        i := i + 1;
      }
      return -1;
    }

    /** memmove of stage[off..stage_len] to the front. */
    method DropFront(off: nat)
      requires Valid() && off <= stageLen
      modifies this`stageLen, this`base, stage
      ensures Valid() && Model() == F.Compact(old(Model()), off)
    {
      ghost var s := stage[..stageLen];
      forall k | 0 <= k < stageLen - off {
        stage[k] := stage[off + k];
      }
      stageLen := stageLen - off;
      base := base + off;
      assert stage[..stageLen] == s[off..];
    }

    /** pid_filter_match. */
    method FilterMatch(pid: nat) returns (matches: bool)
      ensures matches == (filter.PassAll? || exists k :: 0 <= k < |filter.pids| && filter.pids[k] == pid)
      ensures matches == F.Matches(filter, pid)
    {
      if filter.PassAll? {
        return true;
      }
      for i := 0 to |filter.pids|
        invariant forall k :: 0 <= k < i ==> filter.pids[k] != pid
      {
        if filter.pids[i] == pid {
          return true;
        }
      }
      return false;
    }

    /** The branch of the packet loop for a byte that is no sync byte. */
    method Resync(consumed: nat) returns (c: nat)
      requires Valid() && consumed + F.TS_PACKET <= stageLen && stage[consumed] != F.SYNC
      modifies this`locked, this`badSyncPackets
      ensures Valid() && (Model(), c) == F.Iterate(old(Model()), filter, consumed)
      ensures badSyncPackets == old(badSyncPackets) + 1
      ensures if c < stageLen then F.LeastSync(stage[..stageLen], consumed, c) && locked == old(locked)
              else F.NoSync(stage[..stageLen], consumed) && !locked && c == stageLen
    {
      badSyncPackets := badSyncPackets + 1;
      var off := SearchSync(consumed);
      if off < 0 {
        locked := false;
        return stageLen;
      }
      return off;
    }

    /** One iteration of the packet loop; answers the new value of `consumed`. `willing`
        says whether standard output would take a packet; a refusal ends the dump, the
        packet having been counted as matched. */
    method OnePacket(consumed: nat, willing: bool) returns (c: nat, ok: bool)
      requires Valid() && consumed + F.TS_PACKET <= stageLen
      modifies this`locked, this`totalPackets, this`matchedPackets, this`badSyncPackets, this`stdout, this`taken
      ensures Valid()
      ensures var (next, c') := F.Iterate(old(Model()), filter, consumed);
              && ok == (willing || next.written == old(stdout))
              && Model() == (if ok then next else next.(written := old(stdout)))
              && (ok ==> c == c')
      ensures stage[consumed] == 0x47 ==>
                var (hi: int, lo: int) := (stage[consumed + 1], stage[consumed + 2]);
                var passes := filter.PassAll? || hi % 32 * 256 + lo in filter.pids;
                && totalPackets == old(totalPackets) + 1 && badSyncPackets == old(badSyncPackets)
                && matchedPackets == old(matchedPackets) + (if passes then 1 else 0)
                && locked == old(locked) && ok == (willing || !passes) && (ok ==> c == consumed + 188)
                && stdout == old(stdout) + if passes && willing then [stage[consumed..consumed + 188]] else []
      ensures stage[consumed] != 0x47 ==>
                && ok && totalPackets == old(totalPackets) && badSyncPackets == old(badSyncPackets) + 1
                && matchedPackets == old(matchedPackets) && stdout == old(stdout)
                && if c < stageLen then F.LeastSync(stage[..stageLen], consumed, c) && locked == old(locked)
                   else F.NoSync(stage[..stageLen], consumed) && !locked && c == stageLen
    {
      if stage[consumed] != F.SYNC {
        c := Resync(consumed);
        return c, true;
      }
      var pkt := stage[consumed..consumed + F.TS_PACKET];
      PacketOfPrefix(stage[..], stageLen, consumed);
      var pid := F.TsPid(pkt);
      totalPackets := totalPackets + 1;
      taken := taken + [base + consumed];
      var matches := FilterMatch(pid);
      if matches {
        matchedPackets := matchedPackets + 1;
        if !willing {
          return consumed, false;
        }
        stdout := stdout + [pkt];
      }
      return consumed + F.TS_PACKET, true;
    }

    lemma PacketOfPrefix(s: seq<byte>, n: nat, c: nat)
      requires c + F.TS_PACKET <= n <= |s|
      ensures F.Packet(s[..n], c) == s[c..c + F.TS_PACKET]
    {
    }

    /** The packet loop; answers the final value of `consumed`. sink(k) says whether standard
        output takes the k-th packet. When it does not, what has been written is a proper
        prefix of what should have been. */
    method DrainStage(sink: nat -> bool) returns (consumed: nat, ok: bool)
      requires Valid()
      modifies this`locked, this`totalPackets, this`matchedPackets, this`badSyncPackets, this`stdout, this`taken
      ensures Valid() && Took(sink, old(stdout), stdout)
      ensures var (want, c) := F.Drain(old(Model()), filter, 0);
              if ok then Model() == want && consumed == c
              else stdout < want.written && !sink(|stdout|)
    {
      consumed, ok := 0, true;
      ghost var (f0, want) := (Model(), F.Drain(Model(), filter, 0));
      while consumed + F.TS_PACKET <= stageLen
        invariant Valid() && consumed <= stageLen
        invariant F.Drain(Model(), filter, consumed) == want
        invariant Took(sink, f0.written, stdout)
        decreases stageLen - consumed
      {
        ghost var (f, at) := (Model(), consumed);
        var willing := sink(|stdout|);
        consumed, ok := OnePacket(consumed, willing);
        WriteStep(f, at, willing);
        TookStep(sink, f0.written, f.written, stdout);
        if !ok {
          return;
        }
      }
      assert F.Drain(Model(), filter, consumed) == (Model(), consumed);
    }

    /** The packet loop and the memmove after it: all of it exactly when standard output
        takes every matching packet. */
    method ProcessPackets(sink: nat -> bool) returns (ok: bool)
      requires Valid()
      modifies this, stage
      ensures var want := F.Finish(old(Model()), filter);
              && Valid()
              && ok == (forall k :: |old(stdout)| <= k < |want.written| ==> sink(k))
              && (if ok then Model() == want
                  else old(stdout) <= stdout < want.written && !sink(|stdout|))
    {
      var consumed;
      consumed, ok := DrainStage(sink);
      if ok {
        DropFront(consumed);
      }
    }

    lemma WriteStep(f: F.Framer, c: nat, willing: bool)
      requires c + F.TS_PACKET <= |f.stage|
      ensures var (g, c') := F.Iterate(f, filter, c);
              && F.Drain(f, filter, c) == F.Drain(g, filter, c')
              && (g.written == f.written || (f.written < g.written && |g.written| == |f.written| + 1))
              && g.written <= F.Drain(f, filter, c).0.written
    {
      var (g, c') := F.Iterate(f, filter, c);
      F.DrainWrites(g, filter, c');
    }

    /** Standard output went from a to b, every packet taken. */
    ghost predicate Took(sink: nat -> bool, a: seq<seq<byte>>, b: seq<seq<byte>>) {
      a <= b && forall k :: |a| <= k < |b| ==> sink(k)
    }

    lemma TookStep(sink: nat -> bool, a: seq<seq<byte>>, b: seq<seq<byte>>, c: seq<seq<byte>>)
      requires Took(sink, a, b) && (c == b || (b < c && |c| == |b| + 1 && sink(|b|)))
      ensures Took(sink, a, c)
    {
    }

    /** read_ts has copied `chunk` behind the staged bytes. */
    method Stage(chunk: seq<byte>)
      requires Valid() && |chunk| <= F.STAGE_SZ - stageLen
      modifies this`stageLen, stage
      ensures Valid() && Model() == old(Model()).(stage := old(Model()).stage + chunk)
    {
      ghost var s := stage[..stageLen];
      forall k | 0 <= k < |chunk| {
        stage[stageLen + k] := chunk[k];
      }
      stageLen := stageLen + |chunk|;
      assert stage[..stageLen] == s + chunk;
    }

    /** Keep two packets' worth of a stage without sync. */
    method TrimStage()
      requires Valid()
      modifies this`stageLen, this`base, stage
      ensures Valid() && Model() == F.Trim(old(Model()))
    {
      if stageLen > 2 * F.TS_PACKET {
        DropFront(stageLen - 2 * F.TS_PACKET);
      }
    }

    /** The initial search: lock and drop what precedes the sync byte, or trim. */
    method TryLock()
      requires Valid() && !locked
      modifies this`stageLen, this`base, this`locked, this`locks, stage
      ensures Valid()
      ensures match F.FindSync(old(stage[..stageLen]), 0)
              case None => Model() == F.Trim(old(Model()))
              case Some(off) => Model() == F.Lock(old(Model()), off)
    {
      var off := SearchSync(0);
      if off < 0 {
        TrimStage();
        return;
      }
      locks := locks + [base + off];
      if off > 0 {
        DropFront(off);
      }
      locked := true;
    }

    /** One iteration of the outer loop; read_ts has returned `chunk`, which is no longer
        than what was asked for. */
    method ProcessChunk(chunk: seq<byte>, sink: nat -> bool) returns (ok: bool)
      requires Valid() && |chunk| <= Min(F.STAGE_SZ - stageLen, F.READ_SZ)
      modifies this, stage
      ensures var want := F.Feed(old(Model()), filter, chunk);
              && Valid()
              && ok == (forall k :: |old(stdout)| <= k < |want.written| ==> sink(k))
              && (if ok then Model() == want
                  else old(stdout) <= stdout < want.written && !sink(|stdout|))
    {
      if |chunk| == 0 {
        return true;
      }
      Stage(chunk);
      if !locked {
        TryLock();
        if !locked {
          return true;
        }
      }
      ok := ProcessPackets(sink);
    }
  }
}
