/** How old the blocks in the caches can be. The cache theorems say nothing of a block while a writer
    of it is about; here every block is traced to a moment of the run at which it was committed. */
module CacheStaleness {
  import opened Bytes
  import opened CacheCoherence
  import Runs

  /** The states of a run so far, the present one included. */
  type History = seq<State>

  /** The block was the committed one at some moment from `lo` on. */
  ghost predicate Was(h: History, lo: nat, key: Key, data: Block) {
    exists m :: lo <= m < |h| && Row(h[m].store, key) == data
  }

  /** It was so at some moment at which the file had been invalidated `e` times already. */
  ghost predicate WasSince(h: History, e: nat, key: Key, data: Block) {
    exists m :: 0 <= m < |h| && Epoch(h[m].epochs, key.0) >= e && Row(h[m].store, key) == data
  }

  /** It was so at some moment since the recent map last had nothing to learn about it. */
  ghost predicate Lately(h: History, key: Key, data: Block) {
    forall lo | 0 <= lo < |h| && !Due(h[lo].writers, key) :: Was(h, lo, key, data)
  }

  ghost predicate CacheBounded(h: History, s: State) {
    forall k | k in s.cache :: WasSince(h, Epoch(s.epochs, k.0), k, s.cache[k])
  }

  ghost predicate FetchedBounded(h: History, s: State) {
    forall r, i | r in s.readers && i in s.readers[r].fetched ::
      WasSince(h, s.readers[r].stamp.epoch, (s.readers[r].file, i), s.readers[r].fetched[i])
  }

  ghost predicate RecentBounded(h: History, s: State) {
    forall k | k in s.recent ::
      Was(h, 0, k, s.recent[k]) && (k !in s.stale ==> Lately(h, k, s.recent[k]))
  }

  ghost predicate CarriedBounded(h: History, s: State) {
    forall w, i | w in s.writers && s.writers[w].phase.Committed? && Carries(s.writers[w].change, i) ::
      && Was(h, 0, (s.writers[w].file, i), s.writers[w].change.rows[i])
      && Lately(h, (s.writers[w].file, i), s.writers[w].change.rows[i])
  }

  ghost predicate TakenBounded(h: History, s: State) {
    forall r, i | r in s.readers && i in s.readers[r].got ::
      Was(h, 0, (s.readers[r].file, i), s.readers[r].got[i])
  }

  ghost predicate Bounded(h: History, s: State) {
    CacheBounded(h, s) && FetchedBounded(h, s) && RecentBounded(h, s) && CarriedBounded(h, s) && TakenBounded(h, s)
  }

  // ---- where a block comes from in one step

  /** The block stayed in the cache, or a reader whose stamp is current had fetched it. */
  ghost predicate CacheFrom(s: State, t: State, k: Key) {
    || (k in s.cache && k in t.cache && t.cache[k] == s.cache[k] && Epoch(t.epochs, k.0) == Epoch(s.epochs, k.0))
    || (exists r | r in s.readers :: s.readers[r].file == k.0 && k in t.cache && k.1 in s.readers[r].fetched
          && t.cache[k] == s.readers[r].fetched[k.1] && s.readers[r].stamp.epoch == Epoch(t.epochs, k.0))
  }

  ghost predicate FetchedFrom(s: State, rd: Reader, rd': Reader, i: nat) {
    && rd'.file == rd.file && rd'.stamp == rd.stamp && i in rd'.fetched
    && ((i in rd.fetched && rd'.fetched[i] == rd.fetched[i]) || rd'.fetched[i] == Row(s.store, (rd.file, i)))
  }

  /** The block stayed in the map, or a flush that carries it stored it. */
  ghost predicate RecentFrom(s: State, t: State, k: Key) {
    || (k in s.recent && k in t.recent && t.recent[k] == s.recent[k] && (k in s.stale ==> k in t.stale))
    || (exists w | w in s.writers :: s.writers[w].phase.Committed? && s.writers[w].file == k.0 && k in t.recent
          && Carries(s.writers[w].change, k.1) && t.recent[k] == s.writers[w].change.rows[k.1])
  }

  /** The flush carried the block before, or has just committed it. */
  ghost predicate CarriedFrom(s: State, t: State, w: nat, i: nat) {
    && w in t.writers && Carries(t.writers[w].change, i)
    && (|| (w in s.writers && s.writers[w].phase.Committed? && s.writers[w].file == t.writers[w].file
            && s.writers[w].change == t.writers[w].change)
        || t.writers[w].change.rows[i] == Row(t.store, (t.writers[w].file, i)))
  }

  /** The reader had the block before, or took it from a cache. */
  ghost predicate TakenFrom(s: State, rd: Reader, rd': Reader, i: nat) {
    && rd'.file == rd.file && i in rd'.got
    && (|| (i in rd.got && rd'.got[i] == rd.got[i])
        || ((rd.file, i) in s.recent && rd'.got[i] == s.recent[(rd.file, i)])
        || ((rd.file, i) in s.cache && rd'.got[i] == s.cache[(rd.file, i)]))
  }

  lemma {:induction false} CacheSource(s: State, step: Step, k: Key)
    requires Enabled(s, step) && k in Apply(s, step).cache
    requires step.PublishInsert? ==> s.readers[step.r].stamp.epoch == Epoch(s.epochs, s.readers[step.r].file)
    ensures CacheFrom(s, Apply(s, step), k)
  {
    var t := Apply(s, step);
    match step
    case PublishInsert(r, kept) => InsertedSource(s, r, kept, k);
    case Invalidate(w) => assert k in s.cache && k.0 != s.writers[w].file;
    case Touch(f) => assert k in s.cache && k.0 != f;
    case Disable => {}
    case _ => assert t.cache == s.cache && t.epochs == s.epochs;
  }

  lemma {:induction false} InsertedSource(s: State, r: nat, kept: set<Key>, k: Key)
    requires Enabled(s, PublishInsert(r, kept)) && k in Apply(s, PublishInsert(r, kept)).cache
    requires s.readers[r].stamp.epoch == Epoch(s.epochs, s.readers[r].file)
    ensures CacheFrom(s, Apply(s, PublishInsert(r, kept)), k)
  {
    var t, rd := Apply(s, PublishInsert(r, kept)), s.readers[r];
    assert t.epochs == s.epochs;
    if rd.phase.limit > 0 && k.0 == rd.file && k.1 in rd.fetched {
      assert t.cache[k] == rd.fetched[k.1];
    } else {
      assert k in s.cache && t.cache[k] == s.cache[k];
    }
  }

  lemma {:induction false} FetchedSource(s: State, step: Step, r: nat, i: nat)
    requires Enabled(s, step) && r in Apply(s, step).readers && i in Apply(s, step).readers[r].fetched
    ensures r in s.readers && FetchedFrom(s, s.readers[r], Apply(s, step).readers[r], i)
  {
    var t := Apply(s, step);
    match step
    case Begin(q, f) => assert r != q;
    case FetchRow(q, j) => assert r in s.readers;
    case ProbeRecent(q, j) => assert r in s.readers;
    case ProbeCache(q, j) => assert r in s.readers;
    case Check(q) => assert r in s.readers;
    case PublishCheck(q) => assert r in s.readers;
    case PublishInsert(q, kept) => assert r in s.readers;
    case Leave(q) => assert r in s.readers;
    case Reply(q) => assert r in s.readers;
    case _ => assert t.readers == s.readers;
  }

  lemma {:induction false} StampIsPast(s: State, r: nat)
    requires Inv(s) && r in s.readers
    ensures s.readers[r].stamp.epoch <= Epoch(s.epochs, s.readers[r].file)
    ensures s.readers[r].phase.Publishing? ==> s.readers[r].stamp.epoch == Epoch(s.epochs, s.readers[r].file)
  {
    assert Holds(s, r, s.readers[r]);
  }

  lemma {:induction false} RecentSource(s: State, step: Step, k: Key)
    requires Enabled(s, step) && k in Apply(s, step).recent
    ensures RecentFrom(s, Apply(s, step), k)
  {
  }

  lemma {:induction false} CarriedSource(s: State, step: Step, w: nat, i: nat)
    requires Enabled(s, step) && w in Apply(s, step).writers && Apply(s, step).writers[w].phase.Committed?
    requires Carries(Apply(s, step).writers[w].change, i)
    ensures CarriedFrom(s, Apply(s, step), w, i)
  {
    if step.Commit? && step.w == w { CommitRows(s.store, step.f, step.change, (step.f, i)); }
  }

  lemma {:induction false} TakenSource(s: State, step: Step, r: nat, i: nat)
    requires Enabled(s, step) && r in Apply(s, step).readers && i in Apply(s, step).readers[r].got
    ensures r in s.readers && TakenFrom(s, s.readers[r], Apply(s, step).readers[r], i)
  {
    var t := Apply(s, step);
    match step
    case Begin(q, f) => assert r != q;
    case FetchRow(q, j) => assert r in s.readers;
    case ProbeRecent(q, j) => assert r in s.readers;
    case ProbeCache(q, j) => assert r in s.readers;
    case Check(q) => assert r in s.readers;
    case PublishCheck(q) => assert r in s.readers;
    case PublishInsert(q, kept) => assert r in s.readers;
    case Leave(q) => assert r in s.readers;
    case Reply(q) => assert r in s.readers;
    case _ => assert t.readers == s.readers;
  }

  // ---- history only grows

  lemma {:induction false} WasGrows(h: History, t: State, lo: nat, key: Key, data: Block)
    requires Was(h, lo, key, data)
    ensures Was(h + [t], lo, key, data)
  {
    var m :| lo <= m < |h| && Row(h[m].store, key) == data;
    assert (h + [t])[m] == h[m];
  }

  lemma {:induction false} WasSinceGrows(h: History, t: State, e: nat, key: Key, data: Block)
    requires WasSince(h, e, key, data)
    ensures WasSince(h + [t], e, key, data)
  {
    var m :| 0 <= m < |h| && Epoch(h[m].epochs, key.0) >= e && Row(h[m].store, key) == data;
    assert (h + [t])[m] == h[m];
  }

  /** The present moment is the only one the longer history adds. */
  lemma {:induction false} LatelyGrows(h: History, t: State, key: Key, data: Block)
    requires Lately(h, key, data) && (!Due(t.writers, key) ==> data == Row(t.store, key))
    ensures Lately(h + [t], key, data)
  {
    var h' := h + [t];
    forall lo | 0 <= lo < |h'| && !Due(h'[lo].writers, key) ensures Was(h', lo, key, data) {
      if lo < |h| {
        assert h'[lo] == h[lo];
        WasGrows(h, t, lo, key, data);
      } else {
        assert h'[lo] == t;
      }
    }
  }

  lemma {:induction false} CommittedNow(h: History, t: State, key: Key)
    ensures Was(h + [t], 0, key, Row(t.store, key)) && Lately(h + [t], key, Row(t.store, key))
    ensures WasSince(h + [t], Epoch(t.epochs, key.0), key, Row(t.store, key))
  {
    var h' := h + [t];
    assert h'[|h|] == t;
  }

  // ---- every step keeps the bounds

  lemma {:induction false} CachedStays(h: History, s: State, t: State, k: Key)
    requires CacheBounded(h, s) && FetchedBounded(h, s) && k in t.cache && CacheFrom(s, t, k)
    ensures WasSince(h + [t], Epoch(t.epochs, k.0), k, t.cache[k])
  {
    if !(k in s.cache && t.cache[k] == s.cache[k] && Epoch(t.epochs, k.0) == Epoch(s.epochs, k.0)) {
      var r :| r in s.readers && s.readers[r].file == k.0 && k.1 in s.readers[r].fetched
            && t.cache[k] == s.readers[r].fetched[k.1] && s.readers[r].stamp.epoch == Epoch(t.epochs, k.0);
      assert k == (s.readers[r].file, k.1);
    }
    WasSinceGrows(h, t, Epoch(t.epochs, k.0), k, t.cache[k]);
  }

  lemma {:induction false} FetchedStays(h: History, s: State, t: State, r: nat, i: nat)
    requires h != [] && h[|h| - 1] == s && FetchedBounded(h, s) && r in s.readers && r in t.readers
    requires FetchedFrom(s, s.readers[r], t.readers[r], i)
    requires s.readers[r].stamp.epoch <= Epoch(s.epochs, s.readers[r].file)
    ensures WasSince(h + [t], t.readers[r].stamp.epoch, (t.readers[r].file, i), t.readers[r].fetched[i])
  {
    var rd, key, data := s.readers[r], (s.readers[r].file, i), t.readers[r].fetched[i];
    if data == Row(s.store, key) { assert WasSince(h, rd.stamp.epoch, key, data); }
    WasSinceGrows(h, t, rd.stamp.epoch, key, data);
  }

  lemma {:induction false} RecentStays(h: History, s: State, t: State, k: Key)
    requires RecentBounded(h, s) && CarriedBounded(h, s) && k in t.recent && RecentFrom(s, t, k)
    requires k in t.stale || Due(t.writers, k) || t.recent[k] == Row(t.store, k)
    ensures Was(h + [t], 0, k, t.recent[k]) && (k !in t.stale ==> Lately(h + [t], k, t.recent[k]))
  {
    if !(k in s.recent && t.recent[k] == s.recent[k] && (k in s.stale ==> k in t.stale)) {
      var w :| w in s.writers && s.writers[w].phase.Committed? && s.writers[w].file == k.0
            && Carries(s.writers[w].change, k.1) && t.recent[k] == s.writers[w].change.rows[k.1];
      assert k == (s.writers[w].file, k.1);
    }
    WasGrows(h, t, 0, k, t.recent[k]);
    if k !in t.stale { LatelyGrows(h, t, k, t.recent[k]); }
  }

  lemma {:induction false} CarriedStays(h: History, s: State, t: State, w: nat, i: nat)
    requires CarriedBounded(h, s) && CarriedFrom(s, t, w, i) && t.writers[w].phase.Committed?
    ensures Was(h + [t], 0, (t.writers[w].file, i), t.writers[w].change.rows[i])
    ensures Lately(h + [t], (t.writers[w].file, i), t.writers[w].change.rows[i])
  {
    var key, data := (t.writers[w].file, i), t.writers[w].change.rows[i];
    if data == Row(t.store, key) {
      CommittedNow(h, t, key);
    } else {
      WasGrows(h, t, 0, key, data);
      assert Unsettled(t.writers[w]) && Due(t.writers, key);
      LatelyGrows(h, t, key, data);
    }
  }

  lemma {:induction false} TakenStays(h: History, s: State, t: State, r: nat, i: nat)
    requires TakenBounded(h, s) && CacheBounded(h, s) && RecentBounded(h, s) && r in s.readers && r in t.readers
    requires TakenFrom(s, s.readers[r], t.readers[r], i)
    ensures Was(h + [t], 0, (t.readers[r].file, i), t.readers[r].got[i])
  {
    var rd, key, data := s.readers[r], (s.readers[r].file, i), t.readers[r].got[i];
    if key in s.cache && data == s.cache[key] { SinceIsEver(h, Epoch(s.epochs, key.0), key, data); }
    WasGrows(h, t, 0, key, data);
  }

  lemma {:induction false} SinceIsEver(h: History, e: nat, key: Key, data: Block)
    requires WasSince(h, e, key, data)
    ensures Was(h, 0, key, data)
  {
  }

  lemma {:induction false} CachesStayBounded(h: History, s: State, step: Step)
    requires Bounded(h, s) && Inv(s) && Enabled(s, step)
    ensures var t := Apply(s, step); CacheBounded(h + [t], t) && RecentBounded(h + [t], t)
  {
    var t := Apply(s, step);
    forall k | k in t.cache ensures WasSince(h + [t], Epoch(t.epochs, k.0), k, t.cache[k]) {
      if step.PublishInsert? { StampIsPast(s, step.r); }
      CacheSource(s, step, k);
      CachedStays(h, s, t, k);
    }
    assert RecentOk(t.recent, t.store, t.writers, t.stale) by { StepKeepsInv(s, step); }
    forall k | k in t.recent
      ensures Was(h + [t], 0, k, t.recent[k]) && (k !in t.stale ==> Lately(h + [t], k, t.recent[k]))
    {
      RecentSource(s, step, k);
      RecentStays(h, s, t, k);
    }
  }

  lemma {:induction false} ReadersStayBounded(h: History, s: State, step: Step)
    requires h != [] && h[|h| - 1] == s && Bounded(h, s) && Inv(s) && Enabled(s, step)
    ensures var t := Apply(s, step); FetchedBounded(h + [t], t) && TakenBounded(h + [t], t)
  {
    var t := Apply(s, step);
    forall r, i | r in t.readers && i in t.readers[r].fetched
      ensures WasSince(h + [t], t.readers[r].stamp.epoch, (t.readers[r].file, i), t.readers[r].fetched[i])
    {
      FetchedSource(s, step, r, i);
      StampIsPast(s, r);
      FetchedStays(h, s, t, r, i);
    }
    forall r, i | r in t.readers && i in t.readers[r].got
      ensures Was(h + [t], 0, (t.readers[r].file, i), t.readers[r].got[i])
    {
      TakenSource(s, step, r, i);
      TakenStays(h, s, t, r, i);
    }
  }

  lemma {:induction false} WritersStayBounded(h: History, s: State, step: Step)
    requires Bounded(h, s) && Enabled(s, step)
    ensures var t := Apply(s, step); CarriedBounded(h + [t], t)
  {
    var t := Apply(s, step);
    forall w, i | w in t.writers && t.writers[w].phase.Committed? && Carries(t.writers[w].change, i)
      ensures Was(h + [t], 0, (t.writers[w].file, i), t.writers[w].change.rows[i])
      ensures Lately(h + [t], (t.writers[w].file, i), t.writers[w].change.rows[i])
    {
      CarriedSource(s, step, w, i);
      CarriedStays(h, s, t, w, i);
    }
  }

  lemma {:induction false} NextMoment(h: History, s: State, step: Step, t: State)
    requires h != [] && h[|h| - 1] == s && Bounded(h, s) && Inv(s) && Enabled(s, step) && t == Apply(s, step)
    ensures Bounded(h + [t], t)
  {
    CachesStayBounded(h, s, step);
    ReadersStayBounded(h, s, step);
    WritersStayBounded(h, s, step);
  }

  lemma {:induction false} InvAt(states: seq<State>, steps: seq<Step>, n: nat)
    requires Runs.Run(Init, Next, states, steps) && n <= |steps|
    ensures Inv(states[n])
  {
    EveryStepKeepsInv();
    Runs.Always(Init, Next, Inv, states, steps, n);
  }

  lemma {:induction false} MomentAfter(states: seq<State>, steps: seq<Step>, n: nat, h: History)
    requires Runs.Run(Init, Next, states, steps) && n < |steps| && h == states[..n + 1] && Bounded(h, states[n])
    ensures Bounded(h + [states[n + 1]], states[n + 1])
  {
    InvAt(states, steps, n);
    assert Next(states[n], steps[n], states[n + 1]) by { assert Runs.StepAt(Next, states, steps, n); }
    NextMoment(h, states[n], steps[n], states[n + 1]);
  }

  lemma {:induction false} FirstMoment(s: State)
    requires Init(s)
    ensures Bounded([s], s)
  {
  }

  lemma {:induction false} EveryMomentIsBounded(states: seq<State>, steps: seq<Step>, n: nat)
    requires Runs.Run(Init, Next, states, steps) && n <= |steps|
    ensures Bounded(states[..n + 1], states[n])
  {
    if n == 0 {
      FirstMoment(states[0]);
      assert states[..1] == [states[0]];
    } else {
      EveryMomentIsBounded(states, steps, n - 1);
      MomentAfter(states, steps, n - 1, states[..n]);
      assert states[..n + 1] == states[..n] + [states[n]];
    }
  }

  /** At every moment of every run a cached block was the committed one at some moment since its file
      was last invalidated, whatever writers are about. */
  lemma {:induction false} CachedSinceInvalidation(states: seq<State>, steps: seq<Step>, n: nat, key: Key)
    requires Runs.Run(Init, Next, states, steps) && n <= |steps| && key in states[n].cache
    ensures exists m | 0 <= m <= n :: Epoch(states[m].epochs, key.0) >= Epoch(states[n].epochs, key.0)
                                      && Row(states[m].store, key) == states[n].cache[key]
  {
    var h := states[..n + 1];
    assert WasSince(h, Epoch(states[n].epochs, key.0), key, states[n].cache[key]) by {
      EveryMomentIsBounded(states, steps, n);
    }
    var m :| 0 <= m < |h| && Epoch(h[m].epochs, key.0) >= Epoch(states[n].epochs, key.0)
          && Row(h[m].store, key) == states[n].cache[key];
    assert h[m] == states[m];
  }

  /** A recent block that is not stale was the committed one at some moment since no writer of it was
      about to update the map, whatever writers are about now. */
  lemma {:induction false} RecentSinceSettled(states: seq<State>, steps: seq<Step>, n: nat, key: Key, settled: nat)
    requires Runs.Run(Init, Next, states, steps) && settled <= n <= |steps|
    requires key in states[n].recent && key !in states[n].stale && !Due(states[settled].writers, key)
    ensures exists m | settled <= m <= n :: Row(states[m].store, key) == states[n].recent[key]
  {
    var h := states[..n + 1];
    assert Lately(h, key, states[n].recent[key]) by { EveryMomentIsBounded(states, steps, n); }
    assert h[settled] == states[settled];
    var m :| settled <= m < |h| && Row(h[m].store, key) == states[n].recent[key];
    assert h[m] == states[m];
  }

  /** A reader never holds a block that was never committed, the exceptions of the other theorems included. */
  lemma {:induction false} NothingIsInvented(states: seq<State>, steps: seq<Step>, n: nat, r: nat, i: nat)
    requires Runs.Run(Init, Next, states, steps) && n <= |steps| && r in states[n].readers
    requires i in Result(states[n].readers[r])
    ensures var rd := states[n].readers[r];
            exists m | 0 <= m <= n :: Row(states[m].store, (rd.file, i)) == Result(rd)[i]
  {
    var h, rd := states[..n + 1], states[n].readers[r];
    var key, data := (rd.file, i), Result(rd)[i];
    assert Was(h, 0, key, data) by {
      EveryMomentIsBounded(states, steps, n);
      if i !in rd.got { SinceIsEver(h, rd.stamp.epoch, key, data); }
    }
    var m :| 0 <= m < |h| && Row(h[m].store, key) == data;
    assert h[m] == states[m];
  }

  // ---- when a reply is one content

  /** No commit from `a` to `c` gives the block other bytes. */
  ghost predicate SameBetween(versions: seq<map<Key, Block>>, key: Key, a: int, c: int)
    requires 0 <= a <= c < |versions|
  {
    forall b | a <= b <= c :: Row(versions[b], key) == Row(versions[a], key)
  }

  /** Once the bytes of the block have changed they do not come back. */
  ghost predicate NeverReturns(versions: seq<map<Key, Block>>, key: Key) {
    forall a, c {:trigger SameBetween(versions, key, a, c)} | 0 <= a <= c < |versions| ::
      Row(versions[a], key) == Row(versions[c], key) ==> SameBetween(versions, key, a, c)
  }

  ghost predicate NoneReturns(rd: Reader, versions: seq<map<Key, Block>>) {
    forall i | i in rd.got :: NeverReturns(versions, (rd.file, i))
  }

  ghost predicate Shows(rd: Reader, version: map<Key, Block>, i: nat) {
    i in rd.got && rd.got[i] == Row(version, (rd.file, i))
  }

  /** Some commit has both blocks of the reply. */
  ghost predicate Together(rd: Reader, versions: seq<map<Key, Block>>, i: nat, j: nat) {
    exists n :: 0 <= n < |versions| && Shows(rd, versions[n], i) && Shows(rd, versions[n], j)
  }

  ghost predicate OneContent(rd: Reader, versions: seq<map<Key, Block>>) {
    exists n :: 0 <= n < |versions| && IsSnapshot(rd, versions[n])
  }

  /** The block of some set that was committed last, and when that was first. */
  lemma {:induction false} LastToAppear(rd: Reader, versions: seq<map<Key, Block>>, blocks: set<nat>)
    returns (i: nat, n: nat)
    requires blocks != {} && forall j | j in blocks :: Together(rd, versions, j, j)
    ensures i in blocks && n < |versions| && Shows(rd, versions[n], i)
    ensures forall m | 0 <= m < n :: !Shows(rd, versions[m], i)
    ensures forall j | j in blocks :: exists m | 0 <= m <= n :: Shows(rd, versions[m], j)
    decreases blocks
  {
    var j :| j in blocks;
    var first := FirstShown(rd, versions, j);
    if blocks == {j} { return j, first; }
    var rest := blocks - {j};
    i, n := LastToAppear(rd, versions, rest);
    if first > n { i, n := j, first; }
    forall k | k in blocks ensures exists m | 0 <= m <= n :: Shows(rd, versions[m], k) {
      if k == j { assert Shows(rd, versions[first], j); } else { assert k in rest; }
    }
  }

  lemma {:induction false} FirstShown(rd: Reader, versions: seq<map<Key, Block>>, i: nat) returns (n: nat)
    requires Together(rd, versions, i, i)
    ensures n < |versions| && Shows(rd, versions[n], i) && forall m | 0 <= m < n :: !Shows(rd, versions[m], i)
  {
    n := 0;
    while !Shows(rd, versions[n], i)
      invariant n < |versions| && forall m | 0 <= m < n :: !Shows(rd, versions[m], i)
      invariant Together(rd, versions, i, i)
      decreases |versions| - n
    {
      n := n + 1;
    }
  }

  ghost predicate AllPairs(rd: Reader, versions: seq<map<Key, Block>>) {
    forall i, j | i in rd.got && j in rd.got :: Together(rd, versions, i, j)
  }

  /** A reply is the content of one commit exactly if every two blocks of it are, as long as no bytes
      come back. So a torn reply has two blocks that were never committed together. */
  lemma {:induction false} OneContentIffPairs(rd: Reader, versions: seq<map<Key, Block>>)
    requires versions != [] && NoneReturns(rd, versions)
    ensures OneContent(rd, versions) <==> AllPairs(rd, versions)
  {
    if OneContent(rd, versions) { ContentHasPairs(rd, versions); }
    if AllPairs(rd, versions) { PairsGiveContent(rd, versions); }
  }

  /** When bytes do come back, pairs are not enough: three blocks of which every two were committed
      together, and never all three. */
  lemma {:induction false} PairsAreNotEnough(rd: Reader, one: Block)
    requires one != [] && rd.got == map[0 := one, 1 := one, 2 := one]
    ensures var f := rd.file;
            var versions := [map[(f, 0) := one, (f, 1) := one], map[(f, 0) := one, (f, 2) := one],
                             map[(f, 1) := one, (f, 2) := one]];
            AllPairs(rd, versions) && !OneContent(rd, versions)
  {
    var f := rd.file;
    var versions := [map[(f, 0) := one, (f, 1) := one], map[(f, 0) := one, (f, 2) := one],
                     map[(f, 1) := one, (f, 2) := one]];
    assert Shows(rd, versions[0], 0) && Shows(rd, versions[0], 1) && !Shows(rd, versions[0], 2);
    assert Shows(rd, versions[1], 0) && Shows(rd, versions[1], 2) && !Shows(rd, versions[1], 1);
    assert Shows(rd, versions[2], 1) && Shows(rd, versions[2], 2) && !Shows(rd, versions[2], 0);
  }

  lemma {:induction false} ContentHasPairs(rd: Reader, versions: seq<map<Key, Block>>)
    requires OneContent(rd, versions)
    ensures AllPairs(rd, versions)
  {
    var n :| 0 <= n < |versions| && IsSnapshot(rd, versions[n]);
    forall i, j | i in rd.got && j in rd.got ensures Together(rd, versions, i, j) {
      assert Shows(rd, versions[n], i) && Shows(rd, versions[n], j);
    }
  }

  lemma {:induction false} PairsGiveContent(rd: Reader, versions: seq<map<Key, Block>>)
    requires versions != [] && AllPairs(rd, versions) && NoneReturns(rd, versions)
    ensures OneContent(rd, versions)
  {
    if rd.got.Keys == {} {
      assert IsSnapshot(rd, versions[0]);
    } else {
      var last, n := LastToAppear(rd, versions, rd.got.Keys);
      forall i | i in rd.got ensures rd.got[i] == Row(versions[n], (rd.file, i)) {
        StillShown(rd, versions, last, n, i);
      }
      assert IsSnapshot(rd, versions[n]);
    }
  }

  lemma {:induction false} StillShown(rd: Reader, versions: seq<map<Key, Block>>, last: nat, n: nat, i: nat)
    requires n < |versions| && i in rd.got && NeverReturns(versions, (rd.file, i)) && Together(rd, versions, i, last)
    requires forall m | 0 <= m < n :: !Shows(rd, versions[m], last)
    requires exists m | 0 <= m <= n :: Shows(rd, versions[m], i)
    ensures rd.got[i] == Row(versions[n], (rd.file, i))
  {
    var before :| 0 <= before <= n && Shows(rd, versions[before], i);
    var both :| 0 <= both < |versions| && Shows(rd, versions[both], i) && Shows(rd, versions[both], last);
    assert before <= n <= both && SameBetween(versions, (rd.file, i), before, both);
  }

  /** No commit from the probe of the block to moment `m` gave it other bytes. */
  ghost predicate UnchangedUntil(rd: Reader, versions: seq<map<Key, Block>>, i: nat, m: nat)
    requires m <= |versions|
  {
    i in rd.at && 1 <= rd.at[i] <= m && SameBetween(versions, (rd.file, i), rd.at[i] - 1, m - 1)
  }

  /** An unchecked reply is the content at its last probe, or at any later moment, if no commit between a
      block's probe and that moment gave the block other bytes, and only then if no bytes come back. */
  lemma {:induction false} LastProbeIsSnapshotIff(s: State, r: nat, m: nat)
    requires Reached(s) && Enabled(s, Reply(r)) && Undoubted(s.readers[r]) && 1 <= m <= |s.versions|
    requires forall i | i in s.readers[r].got && i in s.readers[r].at :: s.readers[r].at[i] <= m
    ensures (forall i | i in s.readers[r].got :: UnchangedUntil(s.readers[r], s.versions, i, m)) ==>
              IsSnapshot(s.readers[r], s.versions[m - 1])
    ensures IsSnapshot(s.readers[r], s.versions[m - 1]) && NoneReturns(s.readers[r], s.versions) ==>
              forall i | i in s.readers[r].got :: UnchangedUntil(s.readers[r], s.versions, i, m)
  {
    UncheckedReplyIsSnapshotIff(s, r, m);
    var rd := s.readers[r];
    if IsSnapshot(rd, s.versions[m - 1]) && NoneReturns(rd, s.versions) {
      forall i | i in rd.got ensures UnchangedUntil(rd, s.versions, i, m) {
        Unchanging(rd, s.versions, i, m);
      }
    }
  }

  lemma {:induction false} Unchanging(rd: Reader, versions: seq<map<Key, Block>>, i: nat, m: nat)
    requires i in rd.at && 1 <= rd.at[i] <= m <= |versions| && NeverReturns(versions, (rd.file, i))
    requires Row(versions[rd.at[i] - 1], (rd.file, i)) == Row(versions[m - 1], (rd.file, i))
    ensures UnchangedUntil(rd, versions, i, m)
  {
  }
}
