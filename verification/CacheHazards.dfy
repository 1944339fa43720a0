/** What the exceptions of the cache theorems stand for: runs in which they happen. */
module CacheHazards {
  import opened Bytes
  import opened CacheCoherence
  import Runs

  function Empty(limit: nat): State {
    State(map[], map[], map[], map[], 0, None, limit, false, map[], map[], [map[]], {})
  }

  lemma ReachedAtFirst(limit: nat)
    ensures Reached(Empty(limit))
  {
    Runs.InitIsReachable(Init, Next, Empty(limit));
  }

  lemma Reach(s: State, step: Step)
    requires Reached(s) && Enabled(s, step)
    ensures Reached(Apply(s, step))
  {
    Runs.NextIsReachable(Init, Next, s, step, Apply(s, step));
  }

  predicate Quiet(s: State) { s.gate.None? && !s.reloading && s.limit > 0 }

  /** A flush that has committed and not yet touched the recent map. */
  predicate Unstored(s: State, w: nat, f: nat) {
    w in s.writers && s.writers[w].file == f && s.writers[w].phase.Committed? && s.writers[w].change.Flush?
  }

  ghost predicate AllIn(recent: map<Key, Block>, f: nat, change: Change) {
    forall i | Carries(change, i) :: (f, i) in recent && recent[(f, i)] == change.rows[i]
  }

  /** The recent map takes the flush's blocks, and loses blocks only past the end of a file that was
      truncated or is empty. */
  ghost predicate RecentFlushed(before: map<Key, Block>, after: map<Key, Block>, f: nat, change: Change)
    requires change.Flush?
  {
    && (forall k: Key :: k in after <==> (k.0 == f && Carries(change, k.1))
                                         || (k in before && !(k.0 == f && k.1 >= change.total
                                                              && (change.truncate || change.total == 0))))
    && (forall k: Key | k in after ::
          after[k] == if k.0 == f && Carries(change, k.1) then change.rows[k.1] else before[k])
  }

  /** The flush's blocks enter the recent map and nothing is evicted. */
  lemma StoreAll(s: State, w: nat, f: nat) returns (t: State)
    requires Reached(s) && Quiet(s) && Unstored(s, w, f)
    ensures Reached(t) && AllIn(t.recent, f, s.writers[w].change)
    ensures RecentFlushed(s.recent, t.recent, f, s.writers[w].change)
    ensures t == SetRecent(s, t.recent, s.writers[w := s.writers[w].(phase := Stored)],
                           StaleAfter(s.stale, s.writers[w]))
  {
    var after := RecentAfter(s.recent, f, s.writers[w].change);
    Reach(s, StoreRecent(w, after.Keys));
    t := Apply(s, StoreRecent(w, after.Keys));
    assert Restrict(after, after.Keys) == after;
    RecentAfterIsFlushed(s.recent, f, s.writers[w].change);
  }

  lemma RecentAfterIsFlushed(recent: map<Key, Block>, f: nat, change: Change)
    requires change.Flush?
    ensures RecentFlushed(recent, RecentAfter(recent, f, change), f, change)
  {
  }

  /** A flush that runs to its end. */
  lemma FinishFlush(s: State, w: nat, f: nat) returns (t: State)
    requires Reached(s) && Quiet(s) && Unstored(s, w, f)
    ensures Reached(t) && Quiet(t) && AllIn(t.recent, f, s.writers[w].change)
    ensures t.store == s.store && t.versions == s.versions && t.readers == s.readers && t.writers == s.writers - {w}
    ensures Epoch(t.epochs, f) > Epoch(s.epochs, f) && (s.stale == {} && s.writers[w].overrun == {} ==> t.stale == {})
  {
    var u := StoreAll(s, w, f);
    Reach(u, Invalidate(w));
    t := Advanced(u, f, u.writers - {w});
  }

  /** A replacement that runs to its end. */
  lemma FinishReplacement(s: State, w: nat) returns (t: State)
    requires Reached(s) && Quiet(s) && w in s.writers && s.writers[w].phase.Committed? && s.writers[w].change.Replace?
    ensures Reached(t) && Quiet(t) && t.store == s.store && t.readers == s.readers && t.writers == s.writers - {w}
  {
    var f := s.writers[w].file;
    Reach(s, Invalidate(w));
    var u := Advanced(s, f, s.writers[w := s.writers[w].(phase := Invalidated)]);
    Reach(u, ForgetFile(w));
    t := SetRecent(u, OtherFiles(u.recent, f), u.writers - {w}, u.stale);
  }

  /** A read begins and takes one recent block. */
  lemma TakeRecent(s: State, r: nat, f: nat, i: nat) returns (t: State)
    requires Reached(s) && !s.reloading && r !in s.readers && (f, i) in s.recent
    ensures Reached(t)
    ensures t == SetReader(s, r,
                           Taken(s, Fresh(s, f), i, s.recent[(f, i)], WindowOpen(s.writers, f) || (f, i) in s.stale))
  {
    Reach(s, Begin(r, f));
    var b := SetReader(s, r, Fresh(s, f));
    t := TakeMore(b, r, i);
    assert t.readers == s.readers[r := t.readers[r]];
  }

  lemma TakeMore(s: State, r: nat, i: nat) returns (t: State)
    requires Reached(s) && !s.reloading && r in s.readers && s.readers[r].phase.Probing?
    requires (s.readers[r].file, i) in s.recent
    ensures var rd := s.readers[r];
            Reached(t)
            && t == SetReader(s, r,
                              Taken(s, rd, i, s.recent[(rd.file, i)],
                                    WindowOpen(s.writers, rd.file) || (rd.file, i) in s.stale))
  {
    Reach(s, ProbeRecent(r, i));
    t := Apply(s, ProbeRecent(r, i));
  }

  /** Every overrun can do harm: when the writer that overran a flush finishes first, the flush leaves
      its old block in the recent map with both of them gone, and a read that starts afterwards
      passes its check with it. */
  lemma OverrunLeavesStaleBlock(s: State, first: nat, second: nat, f: nat, i: nat, r: nat) returns (t: State)
    requires Reached(s) && Quiet(s) && r !in s.readers && first != second
    requires Unstored(s, first, f) && i in s.writers[first].overrun
    requires second in s.writers && s.writers[second].file == f && s.writers[second].phase.Committed?
    ensures Reached(t) && t.writers == s.writers - {second} - {first} && Enabled(t, Check(r))
    ensures t.readers[r].file == f && i in t.readers[r].got && t.readers[r].got[i] != Row(t.store, (f, i))
  {
    OverrunIsCarried(s, first, i);
    var u;
    if s.writers[second].change.Flush? { u := FinishFlush(s, second, f); } else { u := FinishReplacement(s, second); }
    var v := FinishFlush(u, first, f);
    t := TakeRecent(v, r, f, i);
  }

  lemma OverrunIsCarried(s: State, w: nat, i: nat)
    requires Reached(s) && w in s.writers && s.writers[w].phase.Committed? && i in s.writers[w].overrun
    ensures Carries(s.writers[w].change, i) && s.writers[w].change.rows[i] != Row(s.store, (s.writers[w].file, i))
  {
    ReachedKeepsInv(s);
    assert WriterOk(s.writers[w], s.store);
  }

  /** A first flush, committed from the empty state. */
  lemma FirstCommit(f: nat, change: Change) returns (s: State)
    ensures Reached(s) && s == Wrote(Empty(1), 1, f, change) && Quiet(s)
    ensures s.writers == map[1 := Writer(f, change, Committed, {})]
  {
    ReachedAtFirst(1);
    Reach(Empty(1), Commit(1, f, change));
    s := Wrote(Empty(1), 1, f, change);
  }

  /** A flush can be overrun on every block by every other content. */
  lemma FlushesCanBeOverrun(f: nat, i: nat, before: Block, change: Change) returns (s: State)
    requires Touches(change, i) && NewRow(change, i) != before
    ensures Reached(s) && Quiet(s) && s.readers == map[] && Unstored(s, 1, f) && i in s.writers[1].overrun
    ensures 2 in s.writers && s.writers[2] == Writer(f, change, Committed, {})
  {
    var u := FirstCommit(f, Flush(map[i := before], i + 1, false));
    Reach(u, Commit(2, f, change));
    s := Wrote(u, 2, f, change);
    assert Carries(u.writers[1].change, i);
    MeetsLaterCommit(u, 2, 1, f, change, i);
  }

  lemma MeetsLaterCommit(s: State, w: nat, v: nat, f: nat, change: Change, i: nat)
    requires Unstored(s, v, f) && w != v && Carries(s.writers[v].change, i) && Touches(change, i)
    requires NewRow(change, i) != s.writers[v].change.rows[i]
    ensures var t := Wrote(s, w, f, change); Unstored(t, v, f) && i in t.writers[v].overrun
  {
    var wr := MetBy(s.writers[v], f, change);
    assert i in wr.overrun;
  }

  /** A replacement invalidates before it forgets the recent blocks: a read that begins in between
      can take an old block and pass its check after the replacement has finished. */
  lemma ReplacementWindowShowsOldBlock(s: State, w: nat, f: nat, i: nat, r: nat) returns (t: State)
    requires Reached(s) && Quiet(s) && r !in s.readers && w in s.writers
    requires s.writers[w].file == f && s.writers[w].phase.Invalidated?
    requires (f, i) in s.recent && s.recent[(f, i)] != Row(s.store, (f, i))
    ensures Reached(t) && t.writers == s.writers - {w} && Enabled(t, Check(r))
    ensures t.readers[r].file == f && i in t.readers[r].got && t.readers[r].got[i] != Row(t.store, (f, i))
  {
    var p := TakeRecent(s, r, f, i);
    Reach(p, ForgetFile(w));
    t := SetRecent(p, OtherFiles(p.recent, f), p.writers - {w}, p.stale);
  }

  /** Such a window opens for every block with contents. */
  lemma WindowsCanOpen(f: nat, i: nat, data: Block) returns (s: State)
    requires data != []
    ensures Reached(s) && Quiet(s) && s.readers == map[] && 2 in s.writers
    ensures s.writers[2].file == f && s.writers[2].phase.Invalidated?
    ensures (f, i) in s.recent && s.recent[(f, i)] != Row(s.store, (f, i))
  {
    var u := FirstCommit(f, Flush(map[i := data], i + 1, false));
    assert Carries(u.writers[1].change, i);
    var v := FinishFlush(u, 1, f);
    Reach(v, Commit(2, f, Replace(map[])));
    var x := Wrote(v, 2, f, Replace(map[]));
    CommitRows(v.store, f, Replace(map[]), (f, i));
    Reach(x, Invalidate(2));
    s := Advanced(x, f, x.writers[2 := x.writers[2].(phase := Invalidated)]);
  }

  /** A whole flush while a read is under way. */
  lemma SecondFlush(s: State, f: nat, change: Change) returns (t: State)
    requires Reached(s) && Quiet(s) && s.writers == map[] && s.stale == {} && change.Flush?
    ensures Reached(t) && Quiet(t) && t.writers == map[] && t.stale == {} && AllIn(t.recent, f, change)
    ensures t.readers == s.readers && Epoch(t.epochs, f) > Epoch(s.epochs, f)
    ensures t.store == Persisted(s.store, f, change) && t.versions == s.versions + [t.store]
  {
    Reach(s, Commit(2, f, change));
    var u := Wrote(s, 2, f, change);
    t := FinishFlush(u, 2, f);
  }

  /** With no writer about and nothing stale, taking a recent block raises no doubt. */
  lemma TakeQuietly(s: State, r: nat, i: nat) returns (t: State)
    requires Reached(s) && Quiet(s) && s.writers == map[] && s.stale == {}
    requires r in s.readers && s.readers[r].phase.Probing? && (s.readers[r].file, i) in s.recent
    ensures Reached(t) && r in t.readers && t == SetReader(s, r, t.readers[r])
    ensures var rd, rd' := s.readers[r], t.readers[r];
            && rd' == rd.(got := rd.got[i := s.recent[(rd.file, i)]], at := rd'.at, early := rd.early - {i},
                          doubtful := rd.doubtful - {i})
  {
    t := TakeMore(s, r, i);
  }

  /** A read that has taken one block of a first flush. */
  lemma HalfRead(f: nat, i: nat, change: Change) returns (s: State)
    requires Carries(change, i)
    ensures Reached(s) && Quiet(s) && s.writers == map[] && s.stale == {} && s.readers.Keys == {1}
    ensures s.store == Persisted(map[], f, change) && |s.versions| == 2 && s.versions[0] == map[]
    ensures s.versions[1] == s.store
    ensures s.readers[1].got == map[i := change.rows[i]] && s.readers[1].file == f && s.readers[1].phase.Probing?
    ensures s.readers[1].stamp.epoch <= Epoch(s.epochs, f) && s.readers[1].early == {} && s.readers[1].doubtful == {}
  {
    var u := FirstCommit(f, change);
    var w := FinishFlush(u, 1, f);
    s := TakeRecent(w, 1, f, i);
  }

  /** The stores of a run with two flushes of one file. */
  ghost predicate TwoFlushes(versions: seq<map<Key, Block>>, f: nat, one: Change, two: Change) {
    && |versions| == 3 && (forall k: Key :: Row(versions[0], k) == [])
    && (forall i | Carries(one, i) :: Row(versions[1], (f, i)) == one.rows[i])
    && (forall i | Carries(two, i) :: Row(versions[2], (f, i)) == two.rows[i])
  }

  lemma FlushedVersions(f: nat, one: Change, two: Change, versions: seq<map<Key, Block>>)
    requires |versions| == 3 && versions[0] == map[]
    requires versions[1] == Persisted(map[], f, one) && versions[2] == Persisted(versions[1], f, two)
    ensures TwoFlushes(versions, f, one, two)
  {
    forall i | Carries(one, i) ensures Row(versions[1], (f, i)) == one.rows[i] { CommitRows(map[], f, one, (f, i)); }
    forall i | Carries(two, i)
      ensures Row(versions[2], (f, i)) == two.rows[i]
    {
      CommitRows(versions[1], f, two, (f, i));
    }
  }

  /** Neither the empty file nor the content of either flush has both blocks. */
  lemma NoVersionHasBoth(f: nat, i: nat, j: nat, one: Change, two: Change, rd: Reader, versions: seq<map<Key, Block>>,
                         n: nat)
    requires TwoFlushes(versions, f, one, two) && n < |versions|
    requires Carries(one, i) && Carries(one, j) && Carries(two, i) && Carries(two, j)
    requires one.rows[i] != two.rows[i] && one.rows[j] != two.rows[j] && one.rows[i] != []
    requires rd.file == f && i in rd.got && j in rd.got && rd.got[i] == one.rows[i] && rd.got[j] == two.rows[j]
    ensures !IsSnapshot(rd, versions[n])
  {
  }

  /** With no writer left and nothing stale or in doubt, a read whose stamp is no longer current has a
      block of one flush and a block of another. */
  ghost predicate HasBoth(s: State, f: nat, i: nat, j: nat, one: Change, two: Change)
    requires Carries(one, i) && Carries(two, j)
  {
    && s.writers == map[] && s.stale == {} && Enabled(s, Reply(1)) && !Current(s, s.readers[1])
    && Undoubted(s.readers[1])
    && s.readers[1].file == f && i in s.readers[1].got && j in s.readers[1].got
    && s.readers[1].got[i] == one.rows[i] && s.readers[1].got[j] == two.rows[j]
  }

  lemma OldStamp(s: State, rd: Reader)
    requires rd.stamp.epoch < Epoch(s.epochs, rd.file)
    ensures !Current(s, rd)
  {
  }

  /** A read that has one block of a first flush when a second one has run to its end. */
  ghost predicate Overtaken(s: State, f: nat, i: nat, j: nat, one: Change, two: Change)
    requires Carries(one, i) && Carries(two, j)
  {
    && Quiet(s) && s.writers == map[] && s.stale == {} && TwoFlushes(s.versions, f, one, two)
    && (f, j) in s.recent && s.recent[(f, j)] == two.rows[j]
    && 1 in s.readers && s.readers[1].file == f && s.readers[1].phase.Probing?
    && s.readers[1].stamp.epoch < Epoch(s.epochs, f)
    && i in s.readers[1].got && s.readers[1].got[i] == one.rows[i] && s.readers[1].early == {}
    && s.readers[1].doubtful == {}
  }

  lemma FlushOvertakesRead(f: nat, i: nat, j: nat, one: Change, two: Change) returns (s: State)
    requires i != j && Carries(one, i) && Carries(two, j)
    ensures Reached(s) && Overtaken(s, f, i, j, one, two)
  {
    var x := HalfRead(f, i, one);
    s := SecondFlush(x, f, two);
    FlushedVersions(f, one, two, s.versions);
  }

  lemma ReadAcrossFlush(f: nat, i: nat, j: nat, one: Change, two: Change) returns (s: State)
    requires i != j && Carries(one, i) && Carries(two, j)
    ensures Reached(s) && HasBoth(s, f, i, j, one, two) && TwoFlushes(s.versions, f, one, two)
  {
    var y := FlushOvertakesRead(f, i, j, one, two);
    s := TakeQuietly(y, 1, j);
    OldStamp(s, s.readers[1]);
  }

  /** The unchecked reply can be torn: with a whole flush between its two probes a read has a block of
      the old content and one of the new, although no writer is left, nothing is stale and no block
      was in doubt. No store that was ever committed has both. A check would have failed. */
  lemma UncheckedRepliesCanBeTorn(f: nat, i: nat, j: nat, one: Change, two: Change) returns (s: State)
    requires i != j && Carries(one, i) && Carries(one, j) && Carries(two, i) && Carries(two, j)
    requires one.rows[i] != two.rows[i] && one.rows[j] != two.rows[j] && one.rows[i] != []
    ensures Reached(s) && HasBoth(s, f, i, j, one, two)
    ensures forall n | 0 <= n < |s.versions| :: !IsSnapshot(s.readers[1], s.versions[n])
  {
    s := ReadAcrossFlush(f, i, j, one, two);
    forall n | 0 <= n < |s.versions| ensures !IsSnapshot(s.readers[1], s.versions[n]) {
      NoVersionHasBoth(f, i, j, one, two, s.readers[1], s.versions, n);
    }
  }

  /** An invalidation alone does not tear a reply: a buffered write invalidates and changes nothing. */
  lemma InvalidationAloneIsHarmless(s: State, r: nat) returns (t: State)
    requires Reached(s) && Quiet(s) && Enabled(s, Reply(r)) && IsSnapshot(s.readers[r], s.store)
    ensures Reached(t) && r in t.readers && !Current(t, t.readers[r]) && Enabled(t, Reply(r))
    ensures IsSnapshot(t.readers[r], t.store)
  {
    ReachedKeepsInv(s);
    assert Holds(s, r, s.readers[r]);
    var f := s.readers[r].file;
    Reach(s, Touch(f));
    t := Advanced(s, f, s.writers);
  }
}
