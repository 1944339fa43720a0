/** What the cache callbacks achieve when they run to their end: the other side of the safety theorems,
    which a mount that never cached or committed anything would satisfy too. */
module CacheProgress {
  import opened Bytes
  import opened CacheCoherence
  import opened CacheHazards
  import Runs

  /** A publication with a nonzero limit puts exactly the fetched blocks over the cached ones, as far
      as they are kept; with limit zero it changes nothing. */
  lemma {:induction false} PublicationFills(s: State, r: nat, kept: set<Key>, k: Key)
    requires Enabled(s, PublishInsert(r, kept))
    ensures var t, rd := Apply(s, PublishInsert(r, kept)), s.readers[r];
            if rd.phase.limit == 0 then t.cache == s.cache
            else if k !in kept then k !in t.cache
            else if k.0 == rd.file && k.1 in rd.fetched then k in t.cache && t.cache[k] == rd.fetched[k.1]
            else (k in t.cache <==> k in s.cache) && (k in s.cache ==> t.cache[k] == s.cache[k])
  {
  }

  // ---- reading

  /** The reader has fetched these blocks. */
  ghost predicate HasFetched(s: State, r: nat, f: nat, blocks: set<nat>) {
    && r in s.readers && s.readers[r].file == f && s.readers[r].phase.Checked?
    && s.readers[r].stamp == Snapshot(s, f) && s.readers[r].got == map[] && s.readers[r].fetched.Keys == blocks
    && forall i | i in blocks :: s.readers[r].fetched[i] == Row(s.store, (f, i))
  }

  /** Everything but this reader is as it was. */
  ghost predicate OnlyReader(s: State, t: State, r: nat) { t == s.(readers := t.readers) && OthersSame(s, t, r) }

  lemma {:induction false} StartFetching(s: State, r: nat, f: nat) returns (t: State)
    requires Reached(s) && r !in s.readers
    ensures Reached(t) && HasFetched(t, r, f, {}) && OnlyReader(s, t, r)
  {
    Reach(s, Begin(r, f));
    var b := SetReader(s, r, Fresh(s, f));
    Reach(b, Check(r));
    t := SetReader(b, r, Fresh(s, f).(phase := Checked));
  }

  lemma {:induction false} FetchOne(s: State, r: nat, f: nat, blocks: set<nat>, i: nat) returns (t: State)
    requires Reached(s) && HasFetched(s, r, f, blocks)
    ensures Reached(t) && HasFetched(t, r, f, blocks + {i}) && OnlyReader(s, t, r)
  {
    Reach(s, FetchRow(r, i));
    var rd := s.readers[r].(fetched := s.readers[r].fetched[i := Row(s.store, (f, i))]);
    t := SetReader(s, r, rd);
    assert t.readers[r].fetched.Keys == blocks + {i};
  }

  lemma {:induction false} FetchAll(s: State, r: nat, f: nat, blocks: set<nat>) returns (t: State)
    requires Reached(s) && r !in s.readers
    ensures Reached(t) && HasFetched(t, r, f, blocks) && OnlyReader(s, t, r)
    decreases blocks
  {
    if blocks == {} {
      t := StartFetching(s, r, f);
    } else {
      var i :| i in blocks;
      var u := FetchAll(s, r, f, blocks - {i});
      t := FetchOne(u, r, f, blocks - {i}, i);
      assert blocks - {i} + {i} == blocks;
    }
  }

  /** What a publication of these blocks leaves in the cache. */
  ghost predicate CacheFilled(s: State, t: State, f: nat, blocks: set<nat>) {
    && (forall k: Key :: k in t.cache <==> k in s.cache || (k.0 == f && k.1 in blocks))
    && (forall k: Key | k in t.cache ::
          t.cache[k] == if k.0 == f && k.1 in blocks then Row(s.store, k) else s.cache[k])
  }

  lemma {:induction false} FilledKey(s: State, r: nat, f: nat, blocks: set<nat>, kept: set<Key>, k: Key)
    requires Enabled(s, PublishInsert(r, kept)) && s.readers[r].phase.limit > 0 && s.readers[r].file == f
    requires s.readers[r].fetched.Keys == blocks && kept == s.cache.Keys + set i | i in blocks :: (f, i)
    requires forall i | i in blocks :: s.readers[r].fetched[i] == Row(s.store, (f, i))
    ensures var t := Apply(s, PublishInsert(r, kept));
            && (k in t.cache <==> k in s.cache || (k.0 == f && k.1 in blocks))
            && (k in t.cache ==> t.cache[k] == if k.0 == f && k.1 in blocks then Row(s.store, k) else s.cache[k])
  {
    PublicationFills(s, r, kept, k);
    if k.0 == f && k.1 in blocks { assert k == (f, k.1) && k in kept; }
  }

  lemma {:induction false} Insert(s: State, r: nat, f: nat, blocks: set<nat>) returns (t: State)
    requires Reached(s) && r in s.readers && s.readers[r].phase.Publishing? && s.readers[r].phase.limit > 0
    requires s.readers[r].file == f && s.readers[r].fetched.Keys == blocks
    requires forall i | i in blocks :: s.readers[r].fetched[i] == Row(s.store, (f, i))
    ensures Reached(t) && CacheFilled(s, t, f, blocks) && t == Released(s, r, t.cache)
  {
    var kept := s.cache.Keys + set i | i in blocks :: (f, i);
    Reach(s, PublishInsert(r, kept));
    t := Apply(s, PublishInsert(r, kept));
    forall k: Key { FilledKey(s, r, f, blocks, kept, k); }
  }

  lemma {:induction false} Publish(s: State, r: nat, f: nat, blocks: set<nat>) returns (t: State)
    requires Reached(s) && HasFetched(s, r, f, blocks) && s.gate.None? && s.limit > 0
    ensures Reached(t) && CacheFilled(s, t, f, blocks) && t == s.(readers := t.readers, cache := t.cache)
    ensures OthersSame(s, t, r) && r in t.readers && t.readers[r] == s.readers[r].(phase := Done)
  {
    Reach(s, PublishCheck(r));
    t := Insert(Held(s, r, s.readers[r]), r, f, blocks);
  }

  /** A read that misses, run alone, fetches the committed blocks and leaves them all in the cache. */
  lemma {:induction false} MissFillsCache(s: State, r: nat, f: nat, blocks: set<nat>) returns (t: State)
    requires Reached(s) && r !in s.readers && s.gate.None? && s.limit > 0
    ensures Reached(t) && t == s.(readers := t.readers, cache := t.cache) && CacheFilled(s, t, f, blocks)
    ensures r in t.readers && t.readers[r].phase.Done? && Result(t.readers[r]).Keys == blocks
    ensures t.readers[r].file == f && Current(t, t.readers[r])
    ensures forall i | i in blocks :: Result(t.readers[r])[i] == Row(s.store, (f, i))
  {
    var u := FetchAll(s, r, f, blocks);
    t := Publish(u, r, f, blocks);
    assert Result(t.readers[r]) == t.readers[r].fetched;
  }

  /** A reader that was overtaken by an invalidation starts again, and alone it then succeeds. */
  lemma {:induction false} RetrySucceeds(s: State, r: nat, blocks: set<nat>) returns (t: State)
    requires Reached(s) && r in s.readers && !Current(s, s.readers[r]) && s.gate.None? && s.limit > 0
    ensures Reached(t) && t == s.(readers := t.readers, cache := t.cache)
    ensures r in t.readers && t.readers[r].phase.Done? && t.readers[r].file == s.readers[r].file
    ensures Result(t.readers[r]).Keys == blocks && Current(t, t.readers[r])
    ensures forall i | i in blocks :: Result(t.readers[r])[i] == Row(s.store, (s.readers[r].file, i))
  {
    ReachedKeepsInv(s);
    assert Holds(s, r, s.readers[r]);
    var u := s.(readers := s.readers - {r});
    Reach(s, Leave(r));
    t := MissFillsCache(u, r, s.readers[r].file, blocks);
  }

  /** So every block of every content can be cached. */
  lemma {:induction false} BlocksCanBeCached(f: nat, i: nat, data: Block) returns (t: State)
    ensures Reached(t) && t.writers == map[] && (f, i) in t.cache && t.cache[(f, i)] == data == Row(t.store, (f, i))
  {
    var change := Flush(map[i := data], i + 1, false);
    var s := FirstCommit(f, change);
    var u := FinishFlush(s, 1, f);
    CommitRows(map[], f, change, (f, i));
    t := MissFillsCache(u, 1, f, {i});
  }

  /** A read that hits takes the cached block and may reply with it at once. */
  lemma {:induction false} HitTakesCached(s: State, r: nat, f: nat, i: nat) returns (t: State)
    requires Reached(s) && r !in s.readers && (f, i) in s.cache
    ensures Reached(t) && OnlyReader(s, t, r) && r in t.readers
    ensures t.readers[r].file == f && t.readers[r].got == map[i := s.cache[(f, i)]]
    ensures Enabled(t, Reply(r)) && Enabled(t, Check(r)) && r !in Apply(t, Reply(r)).readers
  {
    Reach(s, Begin(r, f));
    var b := SetReader(s, r, Fresh(s, f));
    Reach(b, ProbeCache(r, i));
    t := Apply(b, ProbeCache(r, i));
  }

  // ---- writing

  /** The rows a commit leaves. */
  ghost predicate RowsWritten(s: State, t: State, f: nat, change: Change) {
    forall k: Key ::
      Row(t.store, k) == if k.0 == f && Touches(change, k.1) then NewRow(change, k.1) else Row(s.store, k)
  }

  lemma {:induction false} CommitTakesEffect(s: State, w: nat, f: nat, change: Change) returns (t: State)
    requires Reached(s) && Quiet(s) && w !in s.writers
    ensures Reached(t) && Quiet(t) && RowsWritten(s, t, f, change) && t.writers.Keys == s.writers.Keys + {w}
    ensures t.writers[w].file == f && t.writers[w].change == change && t.writers[w].phase.Committed?
    ensures t == s.(store := t.store, versions := t.versions, writers := t.writers)
  {
    Reach(s, Commit(w, f, change));
    t := Wrote(s, w, f, change);
    forall k: Key { CommitRows(s.store, f, change, k); }
  }

  /** The file is invalidated once and none of its blocks is cached any more. */
  ghost predicate FileInvalidated(s: State, t: State, f: nat) {
    && Epoch(t.epochs, f) == Epoch(s.epochs, f) + 1
    && (forall k: Key :: k in t.cache <==> k in s.cache && k.0 != f)
    && (forall k: Key | k in t.cache :: t.cache[k] == s.cache[k])
  }

  lemma {:induction false} SettleFlush(s: State, w: nat, f: nat) returns (t: State)
    requires Reached(s) && Quiet(s) && Unstored(s, w, f)
    ensures Reached(t) && t.store == s.store && t.readers == s.readers && t.writers.Keys == s.writers.Keys - {w}
    ensures RecentFlushed(s.recent, t.recent, f, s.writers[w].change) && FileInvalidated(s, t, f)
  {
    var v := StoreAll(s, w, f);
    Reach(v, Invalidate(w));
    t := Advanced(v, f, v.writers - {w});
  }

  /** A flush that runs alone: its rows are committed, it is gone, the file is invalidated, and the
      recent map has what it wrote. */
  lemma {:induction false} FlushTakesEffect(s: State, w: nat, f: nat, change: Change) returns (t: State)
    requires Reached(s) && Quiet(s) && w !in s.writers && change.Flush?
    ensures Reached(t) && t.writers.Keys == s.writers.Keys && t.readers == s.readers
    ensures RowsWritten(s, t, f, change) && RecentFlushed(s.recent, t.recent, f, change) && FileInvalidated(s, t, f)
  {
    var u := CommitTakesEffect(s, w, f, change);
    t := SettleFlush(u, w, f);
  }

  lemma {:induction false} SettleReplacement(s: State, w: nat, f: nat) returns (t: State)
    requires Reached(s) && Quiet(s) && w in s.writers && s.writers[w].phase.Committed? && s.writers[w].change.Replace?
    requires s.writers[w].file == f
    ensures Reached(t) && t.store == s.store && t.readers == s.readers && t.writers.Keys == s.writers.Keys - {w}
    ensures FileInvalidated(s, t, f) && t.recent == OtherFiles(s.recent, f)
  {
    Reach(s, Invalidate(w));
    var v := Advanced(s, f, s.writers[w := s.writers[w].(phase := Invalidated)]);
    Reach(v, ForgetFile(w));
    t := SetRecent(v, OtherFiles(v.recent, f), v.writers - {w}, v.stale);
  }

  /** A replacement that runs alone: the file has the new content, and neither cache has a block of it. */
  lemma {:induction false} ReplacementTakesEffect(s: State, w: nat, f: nat, blocks: map<nat, Block>) returns (t: State)
    requires Reached(s) && Quiet(s) && w !in s.writers
    ensures Reached(t) && t.writers.Keys == s.writers.Keys && t.readers == s.readers
    ensures RowsWritten(s, t, f, Replace(blocks)) && FileInvalidated(s, t, f)
    ensures forall k: Key :: k in t.recent <==> k in s.recent && k.0 != f
  {
    var u := CommitTakesEffect(s, w, f, Replace(blocks));
    t := SettleReplacement(u, w, f);
  }

  // ---- reloads

  /** Switching the caches off empties both and makes every stamp old; switching them on sets the limit. */
  lemma {:induction false} SwitchTakesEffect(s: State, n: nat) returns (off: State, on: State)
    requires Reached(s) && Quiet(s)
    ensures Reached(off) && off.limit == 0 && !off.reloading && off.cache == map[] && off.recent == map[]
    ensures forall r | r in off.readers ::
              r in s.readers && off.readers[r] == s.readers[r] && !Current(off, off.readers[r])
    ensures Reached(on) && on == off.(limit := n)
  {
    ReachedKeepsInv(s);
    Reach(s, SetLimit(0));
    var u := Limited(s, 0);
    Reach(u, Disable);
    off := Disabled(u);
    forall r | r in off.readers ensures !Current(off, off.readers[r]) { assert Holds(s, r, s.readers[r]); }
    Reach(off, SetLimit(n));
    on := Limited(off, n);
  }

  /** Eviction can drop any recent blocks and drops no others. */
  lemma {:induction false} EvictionTakesEffect(s: State, kept: set<Key>) returns (t: State)
    requires Reached(s) && !s.reloading
    ensures Reached(t) && t == s.(recent := t.recent, stale := t.stale)
    ensures forall k: Key ::
              (k in t.recent <==> k in s.recent && k in kept) && (k in t.recent ==> t.recent[k] == s.recent[k])
  {
    Reach(s, Forget(kept));
    t := SetRecent(s, Restrict(s.recent, kept), s.writers, s.stale);
  }
}
