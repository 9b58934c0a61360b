/** The sync search of tools/dvb_pid_dump.c does not depend on how the stream is cut
    into reads: starting unlocked with an empty stage, the framer locks on the least
    position that has two sync bytes one packet apart, or does not lock at all. */
module SyncSearch {
  import opened Bytes
  import opened Framer

  lemma FindSyncStable(s: seq<byte>, more: seq<byte>)
    requires FindSync(s, 0).Some?
    ensures FindSync(s + more, 0) == FindSync(s, 0)
  {
    var i := FindSync(s, 0).value;
    assert SyncAt(s + more, i);
    forall j: nat | j < i ensures !SyncAt(s + more, j) {
      assert !SyncAt(s, j);
    }
  }

  /** f is still searching: it was unlocked with an empty stage at f0, has read t since,
      and t has no sync position. What trimming dropped had been examined. */
  ghost predicate Searching(f0: Framer, t: seq<byte>, f: Framer) {
    && !f.locked && f.locks == f0.locks && f0.base <= f.base <= f0.base + |t|
    && f.stage == t[f.base - f0.base..]
    && (f.base == f0.base || f.base - f0.base + TS_PACKET <= |t|)
    && FindSync(t, 0).None?
  }

  /** f has locked since f0, first of all on the least sync position of t. */
  ghost predicate Found(f0: Framer, t: seq<byte>, f: Framer) {
    && f0.locks < f.locks
    && FindSync(t, 0) == Some(f.locks[|f0.locks|] - f0.base)
  }

  /** Searching the stage is searching the whole stream since f0. */
  lemma StageSearchIsStreamSearch(f0: Framer, t: seq<byte>, f: Framer, chunk: seq<byte>)
    requires Searching(f0, t, f)
    ensures var d := f.base - f0.base;
            FindSync(t + chunk, 0) ==
            match FindSync(f.stage + chunk, 0) { case None => None case Some(off) => Some(d + off) }
  {
    var d := f.base - f0.base;
    var (all, stage) := (t + chunk, f.stage + chunk);
    assert stage == all[d..];
    forall j: nat | j < d ensures !SyncAt(all, j) {
      assert !SyncAt(t, j);
    }
    forall j: nat ensures SyncAt(stage, j) <==> SyncAt(all, d + j) {
    }
    match FindSync(stage, 0)
    case None =>
      forall j: nat ensures !SyncAt(all, j) {
        if d <= j { assert !SyncAt(stage, j - d); }
      }
    case Some(off) =>
      forall j: nat | j < d + off ensures !SyncAt(all, j) {
        if d <= j { assert !SyncAt(stage, j - d); }
      }
  }

  lemma FeedGrowsLocks(f: Framer, filter: PidFilter, chunk: seq<byte>)
    ensures f.locks <= Feed(f, filter, chunk).locks
  {
  }

  lemma FeedTrims(f: Framer, filter: PidFilter, chunk: seq<byte>)
    requires !f.locked && chunk != [] && FindSync(f.stage + chunk, 0).None?
    ensures Feed(f, filter, chunk) == Trim(f.(stage := f.stage + chunk))
  {
  }

  /** Trimming what has been examined keeps the search going. */
  lemma TrimSearches(f0: Framer, all: seq<byte>, g: Framer, d: nat)
    requires !g.locked && g.locks == f0.locks && g.base == f0.base + d
    requires d <= |all| && g.stage == all[d..] && (d == 0 || d + TS_PACKET <= |all|)
    requires FindSync(all, 0).None?
    ensures Searching(f0, all, Trim(g))
  {
    if 2 * TS_PACKET < |g.stage| {
      var n := |g.stage| - 2 * TS_PACKET;
      assert g.stage[n..] == all[d + n..];
    }
  }

  /** An iteration that finds no sync position, with or without trimming. */
  lemma MissStep(f0: Framer, t: seq<byte>, f: Framer, filter: PidFilter, chunk: seq<byte>)
    requires Searching(f0, t, f) && chunk != [] && FindSync(f.stage + chunk, 0).None?
    requires FindSync(t + chunk, 0).None?
    ensures Searching(f0, t + chunk, Feed(f, filter, chunk))
  {
    FeedTrims(f, filter, chunk);
    assert f.stage + chunk == (t + chunk)[f.base - f0.base..];
    TrimSearches(f0, t + chunk, f.(stage := f.stage + chunk), f.base - f0.base);
  }

  /** An iteration that locks appends the position to the history before anything else. */
  lemma HitStep(f: Framer, filter: PidFilter, chunk: seq<byte>)
    requires !f.locked && chunk != [] && FindSync(f.stage + chunk, 0).Some?
    ensures Feed(f, filter, chunk).locks == f.locks + [f.base + FindSync(f.stage + chunk, 0).value]
  {
  }

  lemma SearchStep(f0: Framer, t: seq<byte>, f: Framer, filter: PidFilter, chunk: seq<byte>)
    requires Searching(f0, t, f)
    ensures var g := Feed(f, filter, chunk);
            Searching(f0, t + chunk, g) || Found(f0, t + chunk, g)
  {
    if chunk == [] {
      assert t + chunk == t;
    } else {
      StageSearchIsStreamSearch(f0, t, f, chunk);
      if FindSync(f.stage + chunk, 0).None? {
        MissStep(f0, t, f, filter, chunk);
      } else {
        HitStep(f, filter, chunk);
      }
    }
  }

  /** Chunk-independence of the sync search, for every way of cutting the stream. */
  lemma {:induction false} SyncSearchIsChunkIndependent(f0: Framer, filter: PidFilter, chunks: seq<seq<byte>>)
    requires !f0.locked && f0.stage == []
    ensures var f := Feeds(f0, filter, chunks);
            match FindSync(Concat(chunks), 0)
            case None => f.locks == f0.locks && !f.locked
            case Some(i) => f0.locks < f.locks && f.locks[|f0.locks|] == f0.base + i
    ensures var f := Feeds(f0, filter, chunks);
            Searching(f0, Concat(chunks), f) || Found(f0, Concat(chunks), f)
    decreases |chunks|
  {
    if chunks != [] {
      var n := |chunks| - 1;
      SyncSearchIsChunkIndependent(f0, filter, chunks[..n]);
      var (t, f) := (Concat(chunks[..n]), Feeds(f0, filter, chunks[..n]));
      if Searching(f0, t, f) {
        SearchStep(f0, t, f, filter, chunks[n]);
      } else {
        FindSyncStable(t, chunks[n]);
        FeedGrowsLocks(f, filter, chunks[n]);
      }
    }
  }
}
