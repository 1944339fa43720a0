/** The read caches under concurrency: every interleaving of readers, local writers and reloads
    as a run of atomic steps. A block stands for its contents, so a missing row and an all-zero
    block are the same value. */
module CacheCoherence {
  import opened Bytes
  import Runs

  datatype Stamp = Stamp(epoch: nat, cacheEpoch: nat)

  datatype ReadPhase = Probing | Checked | Publishing(limit: nat) | Done

  /** One attempt of a read: blocks taken from the caches, rows fetched from the store. The rest is
      bookkeeping: which version of the store was the last when the read began and when it took
      each block, which blocks it took while a writer had yet to invalidate them, and which it
      took from the recent map when that was behind. */
  datatype Reader = Reader(file: nat, stamp: Stamp, got: map<nat, Block>, fetched: map<nat, Block>, phase: ReadPhase,
                           begun: nat, at: map<nat, nat>, early: set<nat>, doubtful: set<nat>)

  /** What a writer commits: the rows of a flush, or a whole new content (an adopted data object,
      a punched hole). */
  datatype Change = Flush(rows: map<nat, Block>, total: nat, truncate: bool) | Replace(blocks: map<nat, Block>)

  /** A flush stores its recent blocks and then invalidates; a replacement invalidates and then
      forgets the recent blocks. */
  datatype WritePhase = Committed | Stored | Invalidated

  /** `overrun` lists the blocks a flush still carries although a later commit gave them other bytes. */
  datatype Writer = Writer(file: nat, change: Change, phase: WritePhase, overrun: set<nat>)

  datatype State = State(
    store: map<Key, Block>, cache: map<Key, Block>, recent: map<Key, Block>,
    epochs: map<nat, nat>, cacheEpoch: nat,
    gate: Option<nat>,       // the reader publishing under the generation gate
    limit: nat,              // the cache limit in force, 0 when caching is off
    reloading: bool,         // a reload holds the recent-write lock and has yet to clear
    readers: map<nat, Reader>, writers: Writers,
    versions: seq<map<Key, Block>>,   // every committed store, the present one last
    stale: set<Key>)         // recent blocks put there by a flush that had been overrun on them

  datatype Step =
    | Begin(r: nat, f: nat)
    | ProbeRecent(r: nat, i: nat)
    | ProbeCache(r: nat, i: nat)
    | Check(r: nat)
    | FetchRow(r: nat, i: nat)
    | PublishCheck(r: nat)
    | PublishInsert(r: nat, kept: set<Key>)
    | Leave(r: nat)
    | Reply(r: nat)
    | Commit(w: nat, f: nat, change: Change)
    | StoreRecent(w: nat, kept: set<Key>)
    | Invalidate(w: nat)
    | ForgetFile(w: nat)
    | Touch(f: nat)
    | Forget(kept: set<Key>)
    | SetLimit(n: nat)
    | Disable

  function Row(store: map<Key, Block>, key: Key): Block { if key in store then store[key] else [] }

  function Restrict(m: map<Key, Block>, kept: set<Key>): map<Key, Block> { map k | k in m && k in kept :: m[k] }

  function OtherFiles(m: map<Key, Block>, f: nat): map<Key, Block> { map k | k in m && k.0 != f :: m[k] }

  function Overlay(m: map<Key, Block>, f: nat, rows: map<nat, Block>, total: nat): (r: map<Key, Block>)
    ensures forall k: Key :: k in r <==> k in m || (k.0 == f && k.1 in rows && k.1 < total)
    ensures forall k: Key | k in r :: r[k] == if k.0 == f && k.1 in rows && k.1 < total then rows[k.1] else m[k]
  {
    m + (map i | i in rows && i < total :: (f, i) := rows[i])
  }

  /** Blocks of the file below the block count, and every block of other files. */
  function Below(m: map<Key, Block>, f: nat, total: nat): map<Key, Block> {
    map k | k in m && (k.0 != f || k.1 < total) :: m[k]
  }

  function Persisted(store: map<Key, Block>, f: nat, change: Change): map<Key, Block> {
    match change
    case Flush(rows, total, truncate) => Overlay(if truncate then Below(store, f, total) else store, f, rows, total)
    case Replace(blocks) => Whole(store, f, blocks)
  }

  /** The file's blocks are exactly the given ones. */
  function Whole(store: map<Key, Block>, f: nat, blocks: map<nat, Block>): (r: map<Key, Block>)
    ensures forall k: Key :: k in r <==> if k.0 == f then k.1 in blocks else k in store
    ensures forall k: Key | k in r :: r[k] == if k.0 == f then blocks[k.1] else store[k]
  {
    OtherFiles(store, f) + (map i | i in blocks :: (f, i) := blocks[i])
  }

  function Epoch(epochs: map<nat, nat>, f: nat): nat { if f in epochs then epochs[f] else 0 }

  function Snapshot(s: State, f: nat): Stamp { Stamp(Epoch(s.epochs, f), s.cacheEpoch) }

  predicate Current(s: State, rd: Reader) { rd.stamp == Snapshot(s, rd.file) }

  type Writers = map<nat, Writer>

  /** The writer has committed and not yet invalidated. */
  predicate Uninvalidated(wr: Writer) { wr.phase.Committed? || wr.phase.Stored? }

  /** The writer has committed and the recent map does not know yet. */
  predicate Unsettled(wr: Writer) { wr.phase.Committed? || wr.phase.Invalidated? }

  predicate Carries(change: Change, i: nat) { change.Flush? && i in change.rows && i < change.total }

  /** The blocks a commit writes, cuts off or replaces. */
  predicate Touches(change: Change, i: nat) {
    Carries(change, i) || (change.Flush? && change.truncate && i >= change.total) || change.Replace?
  }

  /** What a commit leaves in a block it touches. */
  function NewRow(change: Change, i: nat): Block {
    match change
    case Flush(rows, total, _) => if i in rows && i < total then rows[i] else []
    case Replace(blocks) => if i in blocks then blocks[i] else []
  }

  /** Some writer that touched the block has yet to invalidate. */
  predicate Pending(writers: Writers, key: Key) {
    exists w | w in writers ::
      writers[w].file == key.0 && Uninvalidated(writers[w]) && Touches(writers[w].change, key.1)
  }

  /** Some writer that touched the block has yet to bring the recent map up to date. */
  predicate Due(writers: Writers, key: Key) {
    exists w | w in writers :: writers[w].file == key.0 && Unsettled(writers[w]) && Touches(writers[w].change, key.1)
  }

  /** A replacement has invalidated but its stale recent blocks are still there. */
  predicate WindowOpen(writers: Writers, f: nat) {
    exists w | w in writers :: writers[w].file == f && writers[w].phase.Invalidated?
  }

  /** A commit of the file meets the flushes of it that still carry their blocks. */
  function MetBy(wr: Writer, f: nat, change: Change): Writer {
    if wr.file == f && wr.phase.Committed? && wr.change.Flush?
    then wr.(overrun := set i | i in wr.change.rows && i < wr.change.total
                             && (if Touches(change, i) then NewRow(change, i) != wr.change.rows[i]
                                 else i in wr.overrun))
    else wr
  }

  predicate Enabled(s: State, step: Step) {
    match step
    case Begin(r, f) => r !in s.readers
    case ProbeRecent(r, i) =>
      r in s.readers && s.readers[r].phase.Probing? && !s.reloading && (s.readers[r].file, i) in s.recent
    case ProbeCache(r, i) => r in s.readers && s.readers[r].phase.Probing? && (s.readers[r].file, i) in s.cache
    case Check(r) => r in s.readers && s.readers[r].phase.Probing? && Current(s, s.readers[r])
    case FetchRow(r, i) => r in s.readers && s.readers[r].phase.Checked?
    case PublishCheck(r) => r in s.readers && s.readers[r].phase.Checked? && s.gate.None? && Current(s, s.readers[r])
    case PublishInsert(r, kept) => r in s.readers && s.readers[r].phase.Publishing?
    case Leave(r) => r in s.readers && !s.readers[r].phase.Publishing?
    case Reply(r) => r in s.readers && s.readers[r].phase.Probing?
    case Commit(w, f, change) => w !in s.writers
    case StoreRecent(w, kept) =>
      w in s.writers && s.writers[w].phase.Committed? && s.writers[w].change.Flush? && !s.reloading
      && (s.limit == 0 ==> kept == {})
    case Invalidate(w) =>
      w in s.writers && s.gate.None?
      && (if s.writers[w].change.Flush? then s.writers[w].phase.Stored? else s.writers[w].phase.Committed?)
    case ForgetFile(w) => w in s.writers && s.writers[w].phase.Invalidated? && !s.reloading
    case Touch(f) => s.gate.None?
    case Forget(kept) => !s.reloading
    case SetLimit(n) => !s.reloading
    case Disable => s.reloading && s.gate.None?
  }

  function Fresh(s: State, f: nat): Reader {
    Reader(f, Snapshot(s, f), map[], map[], Probing, |s.versions|, map[], {}, {})
  }

  function SetReader(s: State, r: nat, rd: Reader): State { s.(readers := s.readers[r := rd]) }

  /** The reader with one more block from a cache. */
  function Taken(s: State, rd: Reader, i: nat, data: Block, doubt: bool): Reader {
    rd.(got := rd.got[i := data], at := rd.at[i := |s.versions|],
        early := if Pending(s.writers, (rd.file, i)) then rd.early + {i} else rd.early - {i},
        doubtful := if doubt then rd.doubtful + {i} else rd.doubtful - {i})
  }

  function Held(s: State, r: nat, rd: Reader): State {
    SetReader(s, r, rd.(phase := Publishing(s.limit))).(gate := Some(r))
  }

  function Released(s: State, r: nat, cache: map<Key, Block>): State
    requires r in s.readers
  {
    SetReader(s, r, s.readers[r].(phase := Done)).(gate := None, cache := cache)
  }

  function Wrote(s: State, w: nat, f: nat, change: Change): State {
    var store := Persisted(s.store, f, change);
    s.(store := store, versions := s.versions + [store],
       writers := (map v | v in s.writers :: MetBy(s.writers[v], f, change))[w := Writer(f, change, Committed, {})])
  }

  function SetRecent(s: State, recent: map<Key, Block>, writers: Writers, stale: set<Key>): State {
    s.(recent := recent, writers := writers, stale := set k | k in stale && k in recent)
  }

  /** The blocks a settling flush leaves stale: those it was overrun on, and older ones it did not carry. */
  function StaleAfter(stale: set<Key>, wr: Writer): set<Key> {
    (set k | k in stale && !(k.0 == wr.file && Carries(wr.change, k.1))) + (set i | i in wr.overrun :: (wr.file, i))
  }

  /** The epoch advance and the cache clear of one file, under the gate. */
  function Advanced(s: State, f: nat, writers: Writers): State {
    s.(epochs := s.epochs[f := Epoch(s.epochs, f) + 1], cache := OtherFiles(s.cache, f), writers := writers)
  }

  function Limited(s: State, n: nat): State { s.(limit := n, reloading := s.limit > 0 && n == 0) }

  function Disabled(s: State): State {
    s.(cacheEpoch := s.cacheEpoch + 1, cache := map[], recent := map[], stale := {}, reloading := false)
  }

  function Apply(s: State, step: Step): State
    requires Enabled(s, step)
  {
    match step
    case Begin(r, f) => SetReader(s, r, Fresh(s, f))
    case ProbeRecent(r, i) =>
      var rd := s.readers[r];
      SetReader(s, r,
                Taken(s, rd, i, s.recent[(rd.file, i)], WindowOpen(s.writers, rd.file) || (rd.file, i) in s.stale))
    case ProbeCache(r, i) => var rd := s.readers[r]; SetReader(s, r, Taken(s, rd, i, s.cache[(rd.file, i)], false))
    case Check(r) => SetReader(s, r, s.readers[r].(phase := Checked))
    case FetchRow(r, i) =>
      var rd := s.readers[r];
      SetReader(s, r, rd.(fetched := rd.fetched[i := Row(s.store, (rd.file, i))]))
    case PublishCheck(r) => Held(s, r, s.readers[r])
    case PublishInsert(r, kept) =>
      Released(s, r, if s.readers[r].phase.limit == 0 then s.cache else Restrict(Fill(s.cache, s.readers[r]), kept))
    case Leave(r) => s.(readers := s.readers - {r})
    case Reply(r) => s.(readers := s.readers - {r})
    case Commit(w, f, change) => Wrote(s, w, f, change)
    case StoreRecent(w, kept) =>
      var wr := s.writers[w];
      SetRecent(s, Restrict(RecentAfter(s.recent, wr.file, wr.change), kept), s.writers[w := wr.(phase := Stored)],
                StaleAfter(s.stale, wr))
    case Invalidate(w) =>
      var wr := s.writers[w];
      Advanced(s, wr.file, if wr.change.Flush? then s.writers - {w} else s.writers[w := wr.(phase := Invalidated)])
    case ForgetFile(w) => SetRecent(s, OtherFiles(s.recent, s.writers[w].file), s.writers - {w}, s.stale)
    case Touch(f) => Advanced(s, f, s.writers)
    case Forget(kept) => SetRecent(s, Restrict(s.recent, kept), s.writers, s.stale)
    case SetLimit(n) => Limited(s, n)
    case Disable => Disabled(s)
  }

  function Fill(cache: map<Key, Block>, rd: Reader): (r: map<Key, Block>)
    ensures forall k: Key :: k in r <==> k in cache || (k.0 == rd.file && k.1 in rd.fetched)
    ensures forall k: Key | k in r :: r[k] == if k.0 == rd.file && k.1 in rd.fetched then rd.fetched[k.1] else cache[k]
  {
    cache + (map i | i in rd.fetched :: (rd.file, i) := rd.fetched[i])
  }

  function RecentAfter(recent: map<Key, Block>, f: nat, change: Change): map<Key, Block>
    requires change.Flush?
  {
    var kept := if change.truncate || change.total == 0 then Below(recent, f, change.total) else recent;
    Overlay(kept, f, change.rows, change.total)
  }

  ghost predicate Init(s: State) {
    s.cache == map[] && s.recent == map[] && s.gate.None? && !s.reloading && s.readers == map[] && s.writers == map[]
    && s.versions == [s.store] && s.stale == {}
  }

  ghost predicate Next(s: State, step: Step, t: State) { Enabled(s, step) && t == Apply(s, step) }

  /** Some run of steps ends here. */
  ghost predicate Reached(s: State) { Runs.Reachable(Init, Next, s) }

  // ---- the invariant

  /** A cached block is the committed one, unless a local writer of it has committed and not yet
      invalidated. */
  ghost predicate CacheOk(cache: map<Key, Block>, store: map<Key, Block>, writers: Writers) {
    forall k | k in cache :: cache[k] == Row(store, k) || Pending(writers, k)
  }

  ghost predicate GotOk(rd: Reader, store: map<Key, Block>, writers: Writers) {
    forall i | i in rd.got ::
      rd.got[i] == Row(store, (rd.file, i)) || Pending(writers, (rd.file, i)) || i in rd.doubtful
  }

  ghost predicate FetchedOk(rd: Reader, store: map<Key, Block>, writers: Writers) {
    forall i | i in rd.fetched :: rd.fetched[i] == Row(store, (rd.file, i)) || Pending(writers, (rd.file, i))
  }

  /** Current or not, a block a reader took was the committed one when it was taken. */
  ghost predicate TakenOk(rd: Reader, versions: seq<map<Key, Block>>) {
    && rd.begun <= |versions|
    && forall i | i in rd.got ::
         && i in rd.at && 1 <= rd.at[i] <= |versions| && rd.begun <= rd.at[i]
         && (rd.got[i] == Row(versions[rd.at[i] - 1], (rd.file, i)) || i in rd.early || i in rd.doubtful)
  }

  /** While its stamp is current a reader holds committed blocks, with the same exceptions. */
  ghost predicate ReaderOk(rd: Reader, now: Stamp, store: map<Key, Block>, writers: Writers) {
    && rd.stamp.epoch <= now.epoch && rd.stamp.cacheEpoch <= now.cacheEpoch
    && (rd.stamp == now ==> GotOk(rd, store, writers) && FetchedOk(rd, store, writers))
  }

  /** The gate is held exactly by the reader that publishes, and nothing was invalidated since it checked. */
  ghost predicate HolderOk(r: nat, rd: Reader, now: Stamp, gate: Option<nat>, limit: nat, reloading: bool) {
    && (rd.phase.Publishing? <==> gate == Some(r))
    && (rd.phase.Publishing? ==> rd.stamp == now)
    && (rd.phase.Publishing? && rd.phase.limit > 0 && limit == 0 ==> reloading)
  }

  /** A flush has been overrun on exactly the blocks it carries that are no longer the committed ones. */
  ghost predicate WriterOk(wr: Writer, store: map<Key, Block>) {
    && (wr.phase.Invalidated? ==> wr.change.Replace?)
    && (forall i | i in wr.overrun :: Carries(wr.change, i))
    && (wr.phase.Committed? ==>
          forall i | Carries(wr.change, i) :: i in wr.overrun <==> wr.change.rows[i] != Row(store, (wr.file, i)))
  }

  /** A recent block nobody is about to bring up to date is the committed one exactly if it is not
      marked stale. */
  ghost predicate RecentOk(recent: map<Key, Block>, store: map<Key, Block>, writers: Writers, stale: set<Key>) {
    && (forall k | k in stale :: k in recent)
    && (forall k | k in recent :: Due(writers, k) || (recent[k] == Row(store, k) <==> k !in stale))
  }

  ghost predicate LimitOk(limit: nat, reloading: bool, cache: map<Key, Block>, recent: map<Key, Block>) {
    && (reloading ==> limit == 0)
    && (limit == 0 && !reloading ==> cache == map[] && recent == map[])
  }

  ghost predicate Holds(s: State, r: nat, rd: Reader) {
    && ReaderOk(rd, Snapshot(s, rd.file), s.store, s.writers)
    && HolderOk(r, rd, Snapshot(s, rd.file), s.gate, s.limit, s.reloading)
    && TakenOk(rd, s.versions)
  }

  ghost predicate ReadersOk(s: State) {
    && (s.gate.Some? ==> s.gate.value in s.readers)
    && forall r | r in s.readers :: Holds(s, r, s.readers[r])
  }

  ghost predicate WritersOk(writers: Writers, store: map<Key, Block>) {
    forall w | w in writers :: WriterOk(writers[w], store)
  }

  ghost predicate VersionsOk(s: State) { s.versions != [] && s.versions[|s.versions| - 1] == s.store }

  ghost predicate Inv(s: State) {
    && CacheOk(s.cache, s.store, s.writers) && ReadersOk(s) && WritersOk(s.writers, s.store)
    && RecentOk(s.recent, s.store, s.writers, s.stale)
    && LimitOk(s.limit, s.reloading, s.cache, s.recent) && VersionsOk(s)
  }

  // ---- every step keeps the invariant

  ghost predicate OthersSame(s: State, t: State, r: nat) {
    forall q | q != r :: (q in s.readers <==> q in t.readers) && (q in s.readers ==> s.readers[q] == t.readers[q])
  }

  /** A step of one reader: the others and everything shared but the gate stay. */
  lemma OneReader(s: State, t: State, r: nat)
    requires Inv(s) && t == s.(readers := t.readers, gate := t.gate) && OthersSame(s, t, r)
    requires t.gate == s.gate || (s.gate.None? && t.gate == Some(r))
    requires t.gate.Some? ==> t.gate.value in t.readers
    requires r in t.readers ==> Holds(t, r, t.readers[r])
    ensures Inv(t)
  {
    forall q | q in t.readers ensures Holds(t, q, t.readers[q]) {
      if q != r { assert Holds(s, q, s.readers[q]); }
    }
  }

  lemma Reading(s: State, r: nat, rd: Reader)
    requires Inv(s) && Holds(s, r, rd)
    ensures Inv(SetReader(s, r, rd))
  {
    OneReader(s, SetReader(s, r, rd), r);
  }

  lemma Beginning(s: State, r: nat, f: nat)
    requires Inv(s) && Enabled(s, Begin(r, f))
    ensures Inv(Apply(s, Begin(r, f)))
  {
    Reading(s, r, Fresh(s, f));
  }

  lemma Checking(s: State, r: nat)
    requires Inv(s) && Enabled(s, Check(r))
    ensures Inv(Apply(s, Check(r)))
  {
    assert Holds(s, r, s.readers[r]);
    Reading(s, r, s.readers[r].(phase := Checked));
  }

  lemma Leaving(s: State, r: nat)
    requires Inv(s) && r in s.readers && !s.readers[r].phase.Publishing?
    ensures Inv(s.(readers := s.readers - {r}))
  {
    assert Holds(s, r, s.readers[r]);
    OneReader(s, s.(readers := s.readers - {r}), r);
  }

  lemma Holding(s: State, r: nat)
    requires Inv(s) && Enabled(s, PublishCheck(r))
    ensures Inv(Apply(s, PublishCheck(r)))
  {
    var rd, t := s.readers[r], Held(s, r, s.readers[r]);
    assert Holds(s, r, rd);
    HolderHolds(s, r, rd);
    assert t.readers[r] == rd.(phase := Publishing(s.limit));
    OneReader(s, t, r);
  }

  lemma HolderHolds(s: State, r: nat, rd: Reader)
    requires Holds(s, r, rd) && Current(s, rd)
    ensures Holds(Held(s, r, rd), r, rd.(phase := Publishing(s.limit)))
  {
  }

  lemma Fetching(s: State, r: nat, i: nat)
    requires Inv(s) && Enabled(s, FetchRow(r, i))
    ensures Inv(Apply(s, FetchRow(r, i)))
  {
    var rd := s.readers[r];
    assert Holds(s, r, rd);
    Reading(s, r, rd.(fetched := rd.fetched[i := Row(s.store, (rd.file, i))]));
  }

  /** Taking a block that is committed, pending or in doubt. */
  lemma TakenHolds(s: State, rd: Reader, i: nat, data: Block, doubt: bool)
    requires VersionsOk(s) && TakenOk(rd, s.versions)
    requires data == Row(s.store, (rd.file, i)) || Pending(s.writers, (rd.file, i)) || doubt
    ensures TakenOk(Taken(s, rd, i, data, doubt), s.versions)
    ensures GotOk(rd, s.store, s.writers) ==> GotOk(Taken(s, rd, i, data, doubt), s.store, s.writers)
  {
  }

  lemma TakingBlock(s: State, r: nat, i: nat, data: Block, doubt: bool)
    requires Inv(s) && r in s.readers && s.readers[r].phase.Probing?
    requires var key := (s.readers[r].file, i); data == Row(s.store, key) || Pending(s.writers, key) || doubt
    ensures Inv(SetReader(s, r, Taken(s, s.readers[r], i, data, doubt)))
  {
    var rd := s.readers[r];
    assert Holds(s, r, rd);
    TakenHolds(s, rd, i, data, doubt);
    var rd' := Taken(s, rd, i, data, doubt);
    assert FetchedOk(rd, s.store, s.writers) ==> FetchedOk(rd', s.store, s.writers);
    Reading(s, r, rd');
  }

  /** A recent block is committed or stale, or a writer of it is pending or in its window. */
  lemma RecentProbe(s: State, f: nat, i: nat)
    requires Inv(s) && (f, i) in s.recent
    ensures s.recent[(f, i)] == Row(s.store, (f, i)) || Pending(s.writers, (f, i)) || WindowOpen(s.writers, f)
            || (f, i) in s.stale
  {
    if Due(s.writers, (f, i)) {
      var w :| w in s.writers && s.writers[w].file == f && Unsettled(s.writers[w]) && Touches(s.writers[w].change, i);
      assert Uninvalidated(s.writers[w]) || s.writers[w].phase.Invalidated?;
    }
  }

  lemma ProbingCaches(s: State, step: Step)
    requires Inv(s) && Enabled(s, step) && (step.ProbeRecent? || step.ProbeCache?)
    ensures Inv(Apply(s, step))
  {
    var key := (s.readers[step.r].file, step.i);
    if step.ProbeRecent? {
      RecentProbe(s, key.0, key.1);
      TakingBlock(s, step.r, step.i, s.recent[key], WindowOpen(s.writers, key.0) || key in s.stale);
    } else {
      TakingBlock(s, step.r, step.i, s.cache[key], false);
    }
  }

  lemma FilledCache(cache: map<Key, Block>, rd: Reader, kept: set<Key>, store: map<Key, Block>, writers: Writers)
    requires CacheOk(cache, store, writers) && FetchedOk(rd, store, writers)
    ensures CacheOk(Restrict(Fill(cache, rd), kept), store, writers)
  {
  }

  lemma Inserting(s: State, r: nat, kept: set<Key>)
    requires Inv(s) && Enabled(s, PublishInsert(r, kept))
    ensures Inv(Apply(s, PublishInsert(r, kept)))
  {
    var rd := s.readers[r];
    assert Holds(s, r, rd);
    FilledCache(s.cache, rd, kept, s.store, s.writers);
    Releasing(s, r, if rd.phase.limit == 0 then s.cache else Restrict(Fill(s.cache, rd), kept));
  }

  lemma Releasing(s: State, r: nat, cache: map<Key, Block>)
    requires Inv(s) && s.gate == Some(r) && r in s.readers && s.readers[r].phase.Publishing?
    requires CacheOk(cache, s.store, s.writers)
    requires s.readers[r].phase.limit == 0 ==> cache == s.cache
    ensures Inv(Released(s, r, cache))
  {
    var t := Released(s, r, cache);
    assert Holds(s, r, s.readers[r]);
    forall q | q in t.readers ensures Holds(t, q, t.readers[q]) { ReleasedHolds(s, r, cache, q); }
  }

  lemma ReleasedHolds(s: State, r: nat, cache: map<Key, Block>, q: nat)
    requires ReadersOk(s) && s.gate == Some(r) && r in s.readers && q in s.readers
    ensures var t := Released(s, r, cache); Holds(t, q, t.readers[q])
  {
    assert Holds(s, q, s.readers[q]);
  }

  // ---- writers

  /** What a commit leaves in every block. */
  lemma CommitRows(store: map<Key, Block>, f: nat, change: Change, key: Key)
    ensures Row(Persisted(store, f, change), key) ==
            if key.0 == f && Touches(change, key.1) then NewRow(change, key.1) else Row(store, key)
  {
  }

  /** Writers only go forward, so what is pending or due stays so while its writers are there. */
  ghost predicate NoneFinished(before: Writers, after: Writers) {
    forall w | w in before ::
      && w in after && after[w].file == before[w].file && after[w].change == before[w].change
      && (Uninvalidated(before[w]) ==> Uninvalidated(after[w]))
  }

  lemma PendingKept(before: Writers, after: Writers, key: Key)
    requires Pending(before, key) && NoneFinished(before, after)
    ensures Pending(after, key)
  {
    var w :| w in before && before[w].file == key.0 && Uninvalidated(before[w]) && Touches(before[w].change, key.1);
    assert w in after;
  }

  /** The store and the writers change, but a block whose row changed is pending. */
  lemma ChangeKeepsReaders(s: State, t: State)
    requires ReadersOk(s)
    requires t == s.(store := t.store, writers := t.writers, recent := t.recent, stale := t.stale,
                     versions := t.versions)
    requires s.versions <= t.versions
    requires forall k: Key | Pending(s.writers, k) :: Pending(t.writers, k)
    requires forall k: Key | Row(s.store, k) != Row(t.store, k) :: Pending(t.writers, k)
    ensures ReadersOk(t)
  {
    forall q | q in t.readers ensures Holds(t, q, t.readers[q]) {
      assert Holds(s, q, s.readers[q]);
    }
  }

  lemma Committing(s: State, w: nat, f: nat, change: Change)
    requires Inv(s) && Enabled(s, Commit(w, f, change))
    ensures Inv(Apply(s, Commit(w, f, change)))
  {
    var t := Wrote(s, w, f, change);
    CommitPends(s, w, f, change);
    ChangeKeepsReaders(s, t);
    assert VersionsOk(t);
    CommitKeepsRecent(s, w, f, change);
    CommitKeepsWriters(s, w, f, change);
    CommitKeepsCache(s, t);
  }

  lemma CommitKeepsCache(s: State, t: State)
    requires CacheOk(s.cache, s.store, s.writers) && t.cache == s.cache
    requires forall k: Key | Pending(s.writers, k) :: Pending(t.writers, k)
    requires forall k: Key | Row(s.store, k) != Row(t.store, k) :: Pending(t.writers, k)
    ensures CacheOk(t.cache, t.store, t.writers)
  {
  }

  lemma CommitKeepsWriters(s: State, w: nat, f: nat, change: Change)
    requires WritersOk(s.writers, s.store) && w !in s.writers
    ensures var t := Wrote(s, w, f, change); WritersOk(t.writers, t.store)
  {
    var t := Wrote(s, w, f, change);
    forall v | v in t.writers ensures WriterOk(t.writers[v], t.store) {
      if v == w { NewWriterOk(s.store, f, change); } else { MetWriterOk(s.writers[v], s.store, f, change); }
    }
  }

  /** Every block the commit changes has a pending writer. */
  lemma CommitPends(s: State, w: nat, f: nat, change: Change)
    requires w !in s.writers
    ensures var t := Wrote(s, w, f, change);
            && (forall k: Key | Pending(s.writers, k) :: Pending(t.writers, k))
            && (forall k: Key | Row(s.store, k) != Row(t.store, k) :: Pending(t.writers, k))
  {
    var t := Wrote(s, w, f, change);
    forall k: Key | Pending(s.writers, k) ensures Pending(t.writers, k) { PendingKept(s.writers, t.writers, k); }
    forall k: Key | Row(s.store, k) != Row(t.store, k) ensures Pending(t.writers, k) {
      CommitRows(s.store, f, change, k);
      assert w in t.writers;
    }
  }

  lemma NewWriterOk(store: map<Key, Block>, f: nat, change: Change)
    ensures WriterOk(Writer(f, change, Committed, {}), Persisted(store, f, change))
  {
    forall i | Carries(change, i) ensures change.rows[i] == Row(Persisted(store, f, change), (f, i)) {
      CommitRows(store, f, change, (f, i));
    }
  }

  lemma MetWriterOk(wr: Writer, store: map<Key, Block>, f: nat, change: Change)
    requires WriterOk(wr, store)
    ensures WriterOk(MetBy(wr, f, change), Persisted(store, f, change))
  {
    forall i | Carries(wr.change, i)
      ensures Row(Persisted(store, f, change), (wr.file, i)) ==
              if wr.file == f && Touches(change, i) then NewRow(change, i) else Row(store, (wr.file, i))
    {
      CommitRows(store, f, change, (wr.file, i));
    }
  }

  lemma DueKept(before: Writers, after: Writers, key: Key)
    requires Due(before, key)
    requires forall w | w in before && before[w].file == key.0 && Unsettled(before[w]) ::
               Touches(before[w].change, key.1) ==>
               w in after && after[w].file == before[w].file && after[w].change == before[w].change
               && Unsettled(after[w])
    ensures Due(after, key)
  {
    var w :| w in before && before[w].file == key.0 && Unsettled(before[w]) && Touches(before[w].change, key.1);
    assert w in after;
  }

  lemma CommitKeepsRecent(s: State, w: nat, f: nat, change: Change)
    requires RecentOk(s.recent, s.store, s.writers, s.stale) && w !in s.writers
    ensures var t := Wrote(s, w, f, change); RecentOk(t.recent, t.store, t.writers, t.stale)
  {
    var t := Wrote(s, w, f, change);
    forall k | k in t.recent ensures Due(t.writers, k) || (t.recent[k] == Row(t.store, k) <==> k !in t.stale) {
      CommitRows(s.store, f, change, k);
      if k.0 == f && Touches(change, k.1) { assert w in t.writers && Due(t.writers, k); }
      if Due(s.writers, k) { DueKept(s.writers, t.writers, k); }
    }
  }

  /** A step under the lock of the recent map. */
  lemma ChangingRecent(s: State, recent: map<Key, Block>, writers: Writers, stale: set<Key>)
    requires Inv(s) && WritersOk(writers, s.store) && (s.limit == 0 ==> recent == map[])
    requires RecentOk(recent, s.store, writers, set k | k in stale && k in recent)
    requires forall k: Key | Pending(s.writers, k) :: Pending(writers, k)
    ensures Inv(SetRecent(s, recent, writers, stale))
  {
    var t := SetRecent(s, recent, writers, stale);
    ChangeKeepsReaders(s, t);
    CommitKeepsCache(s, t);
  }

  lemma StoringRecent(s: State, w: nat, kept: set<Key>)
    requires Inv(s) && Enabled(s, StoreRecent(w, kept))
    ensures Inv(Apply(s, StoreRecent(w, kept)))
  {
    var wr := s.writers[w];
    var recent := Restrict(RecentAfter(s.recent, wr.file, wr.change), kept);
    Stepped(s.writers, s.store, w);
    SettledRecent(s, w, kept);
    assert s.limit == 0 ==> recent == map[];
    ChangingRecent(s, recent, s.writers[w := wr.(phase := Stored)], StaleAfter(s.stale, wr));
  }

  /** A flush that has stored its blocks is as pending as before. */
  lemma Stepped(writers: Writers, store: map<Key, Block>, w: nat)
    requires WritersOk(writers, store) && w in writers && writers[w].phase.Committed? && writers[w].change.Flush?
    ensures var after := writers[w := writers[w].(phase := Stored)];
            WritersOk(after, store) && forall k: Key | Pending(writers, k) :: Pending(after, k)
  {
    var after := writers[w := writers[w].(phase := Stored)];
    assert WriterOk(writers[w], store);
    forall k: Key | Pending(writers, k) ensures Pending(after, k) { PendingKept(writers, after, k); }
  }

  lemma SettledRecent(s: State, w: nat, kept: set<Key>)
    requires RecentOk(s.recent, s.store, s.writers, s.stale) && WritersOk(s.writers, s.store)
    requires Enabled(s, StoreRecent(w, kept))
    ensures var t := Apply(s, StoreRecent(w, kept)); RecentOk(t.recent, t.store, t.writers, t.stale)
  {
    var t := Apply(s, StoreRecent(w, kept));
    forall k | k in t.recent ensures Due(t.writers, k) || (t.recent[k] == Row(t.store, k) <==> k !in t.stale) {
      SettledBlock(s, w, kept, k);
    }
  }

  /** A settled flush brings in its blocks; only those it was overrun on are stale. */
  lemma SettledBlock(s: State, w: nat, kept: set<Key>, k: Key)
    requires RecentOk(s.recent, s.store, s.writers, s.stale) && WritersOk(s.writers, s.store)
    requires Enabled(s, StoreRecent(w, kept)) && k in Apply(s, StoreRecent(w, kept)).recent
    ensures var t := Apply(s, StoreRecent(w, kept));
            Due(t.writers, k) || (t.recent[k] == Row(t.store, k) <==> k !in t.stale)
  {
    var t, wr := Apply(s, StoreRecent(w, kept)), s.writers[w];
    assert WriterOk(wr, s.store);
    StaleAfterBlock(s.stale, wr, k);
    if k.0 == wr.file && Carries(wr.change, k.1) {
      assert t.recent[k] == wr.change.rows[k.1];
    } else {
      assert k in s.recent && t.recent[k] == s.recent[k];
      if Due(s.writers, k) { DueKept(s.writers, t.writers, k); }
    }
  }

  lemma StaleAfterBlock(stale: set<Key>, wr: Writer, k: Key)
    requires forall i | i in wr.overrun :: Carries(wr.change, i)
    ensures k in StaleAfter(stale, wr) <==>
            if k.0 == wr.file && Carries(wr.change, k.1) then k.1 in wr.overrun else k in stale
  {
    if k.0 == wr.file { assert k == (wr.file, k.1); }
  }

  /** An epoch advance with a clear of the file's cached blocks. */
  lemma EpochAdvance(s: State, t: State, f: nat)
    requires Inv(s) && s.gate.None? && t == Advanced(s, f, t.writers)
    requires forall k: Key | k.0 != f && Pending(s.writers, k) :: Pending(t.writers, k)
    ensures CacheOk(t.cache, t.store, t.writers) && ReadersOk(t) && LimitOk(t.limit, t.reloading, t.cache, t.recent)
  {
    forall q | q in t.readers ensures Holds(t, q, t.readers[q]) {
      assert Holds(s, q, s.readers[q]);
    }
  }

  lemma Touching(s: State, f: nat)
    requires Inv(s) && Enabled(s, Touch(f))
    ensures Inv(Apply(s, Touch(f)))
  {
    EpochAdvance(s, Apply(s, Touch(f)), f);
  }

  lemma Invalidating(s: State, w: nat)
    requires Inv(s) && Enabled(s, Invalidate(w))
    ensures Inv(Apply(s, Invalidate(w)))
  {
    var t, f := Apply(s, Invalidate(w)), s.writers[w].file;
    forall k: Key | k.0 != f && Pending(s.writers, k) ensures Pending(t.writers, k) {
      var v :| v in s.writers && s.writers[v].file == k.0 && Uninvalidated(s.writers[v])
            && Touches(s.writers[v].change, k.1);
      assert v in t.writers;
    }
    EpochAdvance(s, t, f);
    assert WriterOk(s.writers[w], s.store);
    forall k | k in t.recent ensures Due(t.writers, k) || (t.recent[k] == Row(t.store, k) <==> k !in t.stale) {
      if Due(s.writers, k) { DueKept(s.writers, t.writers, k); }
    }
  }

  lemma ForgettingFile(s: State, w: nat)
    requires Inv(s) && Enabled(s, ForgetFile(w))
    ensures Inv(Apply(s, ForgetFile(w)))
  {
    var f, writers := s.writers[w].file, s.writers - {w};
    var recent := OtherFiles(s.recent, f);
    forall k: Key | Pending(s.writers, k) ensures Pending(writers, k) {
      var v :| v in s.writers && s.writers[v].file == k.0 && Uninvalidated(s.writers[v])
            && Touches(s.writers[v].change, k.1);
      assert v in writers;
    }
    var stale := set k | k in s.stale && k in recent;
    forall k | k in recent ensures Due(writers, k) || (recent[k] == Row(s.store, k) <==> k !in stale) {
      if Due(s.writers, k) { DueKept(s.writers, writers, k); }
    }
    assert s.limit == 0 ==> recent == map[];
    ChangingRecent(s, recent, writers, s.stale);
  }

  lemma Forgetting(s: State, kept: set<Key>)
    requires Inv(s) && Enabled(s, Forget(kept))
    ensures Inv(Apply(s, Forget(kept)))
  {
    assert s.limit == 0 ==> Restrict(s.recent, kept) == map[];
    ChangingRecent(s, Restrict(s.recent, kept), s.writers, s.stale);
  }

  // ---- reloads

  lemma SettingLimit(s: State, n: nat)
    requires Inv(s) && Enabled(s, SetLimit(n))
    ensures Inv(Apply(s, SetLimit(n)))
  {
    var t := Apply(s, SetLimit(n));
    forall q | q in t.readers ensures Holds(t, q, t.readers[q]) {
      assert Holds(s, q, s.readers[q]);
    }
  }

  lemma Disabling(s: State)
    requires Inv(s) && Enabled(s, Disable)
    ensures Inv(Apply(s, Disable))
  {
    var t := Apply(s, Disable);
    forall q | q in t.readers ensures Holds(t, q, t.readers[q]) {
      assert Holds(s, q, s.readers[q]);
    }
  }

  lemma ReaderStepKeepsInv(s: State, step: Step)
    requires Inv(s) && Enabled(s, step)
    requires step.Begin? || step.ProbeRecent? || step.ProbeCache? || step.Check? || step.FetchRow?
    ensures Inv(Apply(s, step))
  {
    match step
    case Begin(r, f) => Beginning(s, r, f);
    case ProbeRecent(r, i) => ProbingCaches(s, step);
    case ProbeCache(r, i) => ProbingCaches(s, step);
    case Check(r) => Checking(s, r);
    case FetchRow(r, i) => Fetching(s, r, i);
  }

  lemma ReaderEndKeepsInv(s: State, step: Step)
    requires Inv(s) && Enabled(s, step)
    requires step.PublishCheck? || step.PublishInsert? || step.Leave? || step.Reply?
    ensures Inv(Apply(s, step))
  {
    match step
    case PublishCheck(r) => Holding(s, r);
    case PublishInsert(r, kept) => Inserting(s, r, kept);
    case Leave(r) => Leaving(s, r);
    case Reply(r) => Leaving(s, r);
  }
  lemma WriterStepKeepsInv(s: State, step: Step)
    requires Inv(s) && Enabled(s, step)
    requires step.Commit? || step.StoreRecent? || step.Invalidate? || step.ForgetFile?
    ensures Inv(Apply(s, step))
  {
    match step
    case Commit(w, f, change) => Committing(s, w, f, change);
    case StoreRecent(w, kept) => StoringRecent(s, w, kept);
    case Invalidate(w) => Invalidating(s, w);
    case ForgetFile(w) => ForgettingFile(s, w);
  }

  lemma OtherStepKeepsInv(s: State, step: Step)
    requires Inv(s) && Enabled(s, step)
    requires step.Touch? || step.Forget? || step.SetLimit? || step.Disable?
    ensures Inv(Apply(s, step))
  {
    match step
    case Touch(f) => Touching(s, f);
    case Forget(kept) => Forgetting(s, kept);
    case SetLimit(n) => SettingLimit(s, n);
    case Disable => Disabling(s);
  }

  lemma StepKeepsInv(s: State, step: Step)
    requires Inv(s) && Enabled(s, step)
    ensures Inv(Apply(s, step))
  {
    if step.Begin? || step.ProbeRecent? || step.ProbeCache? || step.Check? || step.FetchRow? {
      ReaderStepKeepsInv(s, step);
    } else if step.PublishCheck? || step.PublishInsert? || step.Leave? || step.Reply? {
      ReaderEndKeepsInv(s, step);
    } else if step.Touch? || step.Forget? || step.SetLimit? || step.Disable? {
      OtherStepKeepsInv(s, step);
    } else {
      WriterStepKeepsInv(s, step);
    }
  }

  lemma EveryStepKeepsInv()
    ensures forall s, step, t | Inv(s) && Next(s, step, t) :: Inv(t)
  {
    forall s, step, t | Inv(s) && Next(s, step, t) ensures Inv(t) { StepKeepsInv(s, step); }
  }

  lemma ReachedKeepsInv(s: State)
    requires Reached(s)
    ensures Inv(s)
  {
    EveryStepKeepsInv();
    Runs.ReachableKeeps(Init, Next, Inv, s);
  }

  /** In every reachable state a cached block is the committed one, unless a local writer of it has
      committed and not yet invalidated. A recent block that no writer is about to bring up to date
      is the committed one exactly if the flush that left it had not been overrun on it. */
  lemma CachesAgreeWithStore(s: State, key: Key)
    requires Reached(s)
    ensures key in s.cache && !Pending(s.writers, key) ==> s.cache[key] == Row(s.store, key)
    ensures key in s.recent && !Due(s.writers, key) ==> (s.recent[key] == Row(s.store, key) <==> key !in s.stale)
  {
    ReachedKeepsInv(s);
  }

  /** An unsettled flush is overrun on a block exactly if the block it carries is no longer committed. */
  lemma OverrunMeansOtherBytes(s: State, w: nat, i: nat)
    requires Reached(s) && w in s.writers && s.writers[w].phase.Committed? && Carries(s.writers[w].change, i)
    ensures i in s.writers[w].overrun <==> s.writers[w].change.rows[i] != Row(s.store, (s.writers[w].file, i))
  {
    ReachedKeepsInv(s);
    assert WriterOk(s.writers[w], s.store);
  }

  /** What a gated read returns: rows it fetched, overridden by what the caches gave it. */
  function Result(rd: Reader): map<nat, Block> { rd.fetched + rd.got }

  /** A gated read returns after a check or a publication that found its stamp current. Then every
      block it holds is committed, unless a writer of that block is still to invalidate, or the
      block came from the recent map inside the window of a replacement or while stale. */
  lemma ReadsReturnCommittedBlocks(s: State, r: nat, i: nat)
    requires Reached(s) && r in s.readers && (Enabled(s, Check(r)) || Enabled(s, PublishCheck(r)))
    ensures var rd := s.readers[r];
            i in Result(rd) && !Pending(s.writers, (rd.file, i)) && i !in rd.doubtful ==>
              Result(rd)[i] == Row(s.store, (rd.file, i))
    ensures var rd := s.readers[r];
            i in rd.fetched && !Pending(s.writers, (rd.file, i)) ==> rd.fetched[i] == Row(s.store, (rd.file, i))
  {
    ReachedKeepsInv(s);
    assert Holds(s, r, s.readers[r]);
  }

  /** While no writer is at work on a file, a probe of a block that is not stale takes the committed
      bytes, and takes them beyond doubt. */
  lemma QuietProbeTakesCommitted(s: State, step: Step)
    requires Reached(s) && (step.ProbeRecent? || step.ProbeCache?) && Enabled(s, step)
    requires forall w | w in s.writers :: s.writers[w].file != s.readers[step.r].file
    requires (s.readers[step.r].file, step.i) !in s.stale
    ensures var rd := Apply(s, step).readers[step.r];
            && step.i in rd.got && rd.got[step.i] == Row(s.store, (rd.file, step.i))
            && step.i !in rd.doubtful && step.i !in rd.early
  {
    var key := (s.readers[step.r].file, step.i);
    CachesAgreeWithStore(s, key);
  }

  /** A reader fetches only after its check. */
  ghost predicate FetchesAfterCheck(s: State) {
    forall r | r in s.readers && s.readers[r].phase.Probing? :: s.readers[r].fetched == map[]
  }

  lemma StepFetchesAfterCheck(s: State, step: Step, t: State)
    requires FetchesAfterCheck(s) && Next(s, step, t)
    ensures FetchesAfterCheck(t)
  {
    forall r | r in t.readers && t.readers[r].phase.Probing? ensures t.readers[r].fetched == map[] {
      if r in s.readers { assert s.readers[r].phase.Probing? ==> s.readers[r].fetched == map[]; }
    }
  }

  /** So a reply without a check has nothing but cache hits in it: a fetched row never gets out unchecked. */
  lemma UncheckedRepliesAreHits(s: State, r: nat)
    requires Reached(s) && Enabled(s, Reply(r))
    ensures s.readers[r].fetched == map[] && Result(s.readers[r]) == s.readers[r].got
  {
    forall s, step, t | FetchesAfterCheck(s) && Next(s, step, t) ensures FetchesAfterCheck(t) {
      StepFetchesAfterCheck(s, step, t);
    }
    Runs.ReachableKeeps(Init, Next, FetchesAfterCheck, s);
  }

  /** While a reload switches the caches off nobody else gets at the recent map or the limit. */
  lemma ReloadShutsRecentMap(s: State, step: Step)
    requires s.reloading && Enabled(s, step) && !step.Disable?
    ensures !step.ProbeRecent? && Apply(s, step).recent == s.recent && Apply(s, step).limit == s.limit
    ensures Apply(s, step).reloading
  {
  }

  /** A read that hits in the caches replies without any check. Each block was committed at some
      moment of the read, unless it was pending or in doubt when it was taken. */
  lemma UncheckedRepliesWereCommitted(s: State, r: nat, i: nat)
    requires Reached(s) && Enabled(s, Reply(r)) && i in s.readers[r].got
    requires i !in s.readers[r].early && i !in s.readers[r].doubtful
    ensures var rd := s.readers[r];
            i in rd.at && rd.begun <= rd.at[i] && 1 <= rd.at[i] <= |s.versions|
            && rd.got[i] == Row(s.versions[rd.at[i] - 1], (rd.file, i))
  {
    ReachedKeepsInv(s);
    assert Holds(s, r, s.readers[r]);
  }

  /** No block was taken while pending or in doubt. */
  ghost predicate Undoubted(rd: Reader) { forall i | i in rd.got :: i !in rd.early && i !in rd.doubtful }

  /** Every block of the reply is the one of this store. */
  ghost predicate IsSnapshot(rd: Reader, store: map<Key, Block>) {
    forall i | i in rd.got :: rd.got[i] == Row(store, (rd.file, i))
  }

  /** So the reply is the content left by commit `n` exactly if no block of it has other bytes there
      than in the version it was taken from. The last version is the present store. */
  lemma UncheckedReplyIsSnapshotIff(s: State, r: nat, n: nat)
    requires Reached(s) && Enabled(s, Reply(r)) && Undoubted(s.readers[r]) && 1 <= n <= |s.versions|
    ensures IsSnapshot(s.readers[r], s.versions[n - 1]) <==>
            forall i | i in s.readers[r].got :: i in s.readers[r].at && 1 <= s.readers[r].at[i] <= |s.versions|
              && Row(s.versions[s.readers[r].at[i] - 1], (s.readers[r].file, i))
                 == Row(s.versions[n - 1], (s.readers[r].file, i))
    ensures s.versions[|s.versions| - 1] == s.store
  {
    assert s.versions[|s.versions| - 1] == s.store by { ReachedKeepsInv(s); }
    var rd := s.readers[r];
    forall i | i in rd.got
      ensures i in rd.at && 1 <= rd.at[i] <= |s.versions| && rd.got[i] == Row(s.versions[rd.at[i] - 1], (rd.file, i))
    {
      UncheckedRepliesWereCommitted(s, r, i);
    }
  }

  /** If nothing of the file was invalidated since the read began, the reply is the committed content
      of this very moment, up to the same exceptions. */
  lemma UnbrokenReplyIsSnapshot(s: State, r: nat)
    requires Reached(s) && Enabled(s, Reply(r)) && Current(s, s.readers[r])
    requires forall i | i in s.readers[r].got ::
               !Pending(s.writers, (s.readers[r].file, i)) && i !in s.readers[r].doubtful
    ensures IsSnapshot(s.readers[r], s.store)
  {
    ReachedKeepsInv(s);
    assert Holds(s, r, s.readers[r]);
  }

  /** While caching is off, and once the disabling reload has finished, both caches are empty. */
  lemma DisabledCachesStayEmpty(s: State)
    requires Reached(s)
    ensures s.limit == 0 && !s.reloading ==> s.cache == map[] && s.recent == map[]
    ensures Enabled(s, Disable) ==> s.limit == 0
  {
    ReachedKeepsInv(s);
  }

  lemma EpochStep(s: State, step: Step)
    requires Enabled(s, step)
    ensures Apply(s, step).cacheEpoch == s.cacheEpoch + if step.Disable? then 1 else 0
  {
  }

  lemma {:induction false} CacheEpochGrows(states: seq<State>, steps: seq<Step>, m: nat, n: nat)
    requires Runs.Run(Init, Next, states, steps) && m <= n <= |steps|
    ensures states[m].cacheEpoch <= states[n].cacheEpoch
    decreases n
  {
    if m < n {
      CacheEpochGrows(states, steps, m, n - 1);
      assert Runs.StepAt(Next, states, steps, n - 1);
      EpochStep(states[n - 1], steps[n - 1]);
    }
  }

  /** A fill stamped before a disable never publishes after it. */
  lemma NoLatePublication(states: seq<State>, steps: seq<Step>, begun: nat, disabled: nat, later: nat, r: nat)
    requires Runs.Run(Init, Next, states, steps) && begun <= disabled < later < |steps|
    requires steps[disabled].Disable? && r in states[begun].readers && r in states[later].readers
    requires states[later].readers[r].stamp == states[begun].readers[r].stamp
    ensures steps[later] != PublishCheck(r)
  {
    StampIsNotAhead(states, steps, begun, r);
    CacheEpochGrows(states, steps, begun, disabled);
    assert Runs.StepAt(Next, states, steps, disabled);
    EpochStep(states[disabled], steps[disabled]);
    CacheEpochGrows(states, steps, disabled + 1, later);
    assert Runs.StepAt(Next, states, steps, later);
  }

  lemma StampIsNotAhead(states: seq<State>, steps: seq<Step>, n: nat, r: nat)
    requires Runs.Run(Init, Next, states, steps) && n <= |steps| && r in states[n].readers
    ensures states[n].readers[r].stamp.cacheEpoch <= states[n].cacheEpoch
  {
    EveryStepKeepsInv();
    Runs.Always(Init, Next, Inv, states, steps, n);
    var s, rd := states[n], states[n].readers[r];
    assert Holds(s, r, rd);
  }
}
