/** Whole runs of file callbacks through one handle: every run leaves the bytes, and every
read returns the bytes, of a flat byte array. */
module FileRuns {
  import opened Bytes
  import opened PersistPlan
  import opened Layers
  import opened WriteBuffer
  import opened CopyPlan
  import opened ReadPath
  import opened FileOps

  /** A read callback and the circumstances it meets: whether it is to bypass the caches, the committed
      blocks the block cache happens to hold, the tuning, the access pattern and the worker schedule. */
  datatype ReadRequest = ReadRequest(
    offset: nat, size: nat, uncached: bool, cached: set<nat>, settings: ReadSettings,
    sequential: bool, streak: nat, schedule: nat -> nat)

  /** What the cache probes find: recent blocks before cached rows, nothing when caching is off. */
  function CacheOf(l: Layers, bs: nat, cacheLimit: nat, cached: set<nat>): BlockMap {
    if cacheLimit == 0 then map[]
    else (map i | i in l.rows && i in cached :: Resize(l.rows[i], bs)) + RecentOf(l)
  }

  /** The recent blocks of one file. */
  function RecentOf(l: Layers): BlockMap {
    map key | key in l.recent && key.0 == l.file :: key.1 := l.recent[key]
  }

  lemma CacheOfAgrees(l: Layers, bs: nat, cacheLimit: nat, cached: set<nat>)
    requires RecentAgrees(l.recent, l.file, l.rows, bs)
    ensures CacheAgrees(CacheOf(l, bs, cacheLimit, cached), l.rows, bs)
  {
    forall i, k: nat | i in CacheOf(l, bs, cacheLimit, cached) && k < bs
      ensures ByteIn(CacheOf(l, bs, cacheLimit, cached)[i], k) == RowByte(l.rows, i, k)
    {
      if i in RecentOf(l) { assert (l.file, i) in l.recent; }
    }
  }

  /** What a read of a flat file returns. */
  function ReadSlice(s: seq<byte>, offset: nat, size: nat): seq<byte> {
    if offset >= |s| then [] else s[offset..Max(offset, Min(SatAdd(offset, size), |s|))]
  }

  /** A request inside one block whose copy ends before the request does. Through a buffered
      state an empty request is answered before the copy is looked at. A read that bypasses the caches
      fails only if the end of the request is no offset. */
  predicate ReadFails(v: HandleView, bs: nat, q: ReadRequest)
    requires bs >= 1
  {
    if v.state.None? && q.uncached then q.size > 0 && q.offset + q.size > U64_MAX
    else ShortRead(v, bs, q.offset, q.size)
  }

  predicate ShortRead(v: HandleView, bs: nat, offset: nat, size: nat)
    requires bs >= 1
  {
    var i, end := BlockOf(offset, bs), Min(SatAdd(offset, size), v.size);
    && offset < v.size && i == BlockOf(SatSub(end, 1), bs)
    && Lookup(v.layers, bs, i).Some? && |Lookup(v.layers, bs, i).value| < end - Start(i, bs)
    && (v.state.Some? ==> offset < end)
  }

  /** Only recent blocks can be short: cached rows have full length. */
  lemma ShortCopyIsRecent(l: Layers, bs: nat, cacheLimit: nat, cached: set<nat>, offset: nat, end: nat)
    requires bs >= 1 && l.blocks == map[] && (cacheLimit == 0 ==> l.recent == map[]) && offset <= end
    ensures var i := BlockOf(offset, bs);
            ShortTarget(CacheOf(l, bs, cacheLimit, cached), bs, offset, end) <==>
            i == BlockOf(SatSub(end, 1), bs) && Lookup(l, bs, i).Some? && |Lookup(l, bs, i).value| < end - Start(i, bs)
  {
    var i, cache := BlockOf(offset, bs), CacheOf(l, bs, cacheLimit, cached);
    if i == BlockOf(SatSub(end, 1), bs) {
      InBlockIsQuotient(SatSub(end, 1), i, bs);
      if (l.file, i) in l.recent {
        assert i in RecentOf(l);
        assert cache[i] == l.recent[(l.file, i)];
      } else {
        assert i !in RecentOf(l);
        assert i in cache ==> |cache[i]| == bs;
      }
    }
  }

  /** The read callback: through the buffered state if the handle has one, otherwise through
      the caches and the store, or past the caches. */
  method Read(fuse: FodFuse, fh: nat, file: nat, q: ReadRequest, faults: Faults) returns (r: ReadOutcome)
    requires HandleInv(fuse, fh, file)
    ensures r.Bytes? ==> r.data == ReadSlice(Contents(fuse, fh, file), q.offset, q.size)
    ensures faults == Faults({}, false, false) ==>
              (r.Bytes? <==> !ReadFails(ViewOf(fuse, fh, file), fuse.blockSize, q))
    ensures r.OutOfBounds? ==> fh in fuse.writeStates
    ensures fh !in fuse.writeStates && (faults.size || faults.loads != {}) ==> r.Eio?
    ensures fh in fuse.writeStates ==> !r.Einval? && (r.Eio? ==> faults.loads != {})
  {
    if fh in fuse.writeStates {
      var st := new WriteState.Clone(fuse.writeStates[fh]);
      r := ReadFromWriteState(fuse, st, q.offset, q.size, faults.loads);
    } else {
      if faults.size || faults.loads != {} { return Eio; }
      var l, f := fuse.LayersOf(file, map[]), fuse.files[file];
      if q.uncached {
        StoredContents(fuse, fh, file);
        r := ReadUncached(f, fuse.blockSize, q.offset, q.size);
        return;
      }
      var cache := CacheOf(l, fuse.blockSize, fuse.cacheLimit, q.cached);
      CacheOfAgrees(l, fuse.blockSize, fuse.cacheLimit, q.cached);
      StoredContents(fuse, fh, file);
      r := ReadFile(f, fuse.blockSize, cache, q.offset, q.size, q.settings.(cacheLimit := fuse.cacheLimit),
                    q.sequential, q.streak, q.schedule);
      if q.offset < f.size {
        ShortCopyIsRecent(l, fuse.blockSize, fuse.cacheLimit, q.cached, q.offset,
                          Min(SatAdd(q.offset, q.size), f.size));
      }
    }
  }

  datatype Op =
    | WriteOp(offset: nat, data: seq<byte>, openHandles: nat)
    | ReadOp(request: ReadRequest)
    | CopyOp(dst: nat, payload: seq<byte>, dedupe: bool)
    | TruncateOp(size: nat)
    | FsyncOp
    | EvictOp(keys: set<Key>)
    | ReloadOp(cacheLimit: nat)

  /** Offsets fit a u64, as the kernel guarantees. */
  predicate Representable(op: Op) {
    match op
    case WriteOp(offset, _, _) => offset <= U64_MAX
    case ReadOp(q) => q.offset <= U64_MAX
    case CopyOp(dst, payload, _) => dst + |payload| <= U64_MAX
    case TruncateOp(size) => size <= U64_MAX
    case _ => true
  }

  /** What one operation does to a flat byte array; reads and caching operations do nothing. */
  function FlatStep(s: seq<byte>, op: Op, applied: bool): seq<byte> {
    if !applied then s
    else match op
      case WriteOp(offset, data, _) => BufferedWrite(s, offset, data)
      case CopyOp(dst, payload, _) => PWrite(s, dst, payload)
      case TruncateOp(size) => FTruncate(s, size)
      case _ => s
  }

  function FlatRun(s: seq<byte>, ops: seq<Op>, applied: seq<bool>): seq<byte>
    requires |applied| == |ops|
  {
    if ops == [] then s
    else
      var n := |ops| - 1;
      FlatStep(FlatRun(s, ops[..n], applied[..n]), ops[n], applied[n])
  }

  /** The operation runs into a block copy that is too short for it. */
  predicate Overruns(v: HandleView, bs: nat, op: Op)
    requires bs >= 1
  {
    match op
    case CopyOp(dst, payload, dedupe) => dedupe && payload != [] && CopyOverruns(v, bs, dst, |payload|)
    case ReadOp(q) => ReadFails(v, bs, q)
    case _ => false
  }

  /** The bytes a view shows. */
  function Shown(v: HandleView, bs: nat): seq<byte>
    requires bs >= 1
  {
    View(v.layers, bs, v.size)
  }

  /** The bytes of the stored file beside a view. */
  function Stored(v: HandleView, bs: nat): seq<byte>
    requires bs >= 1
  {
    StoredView(StoredFile(v.stored, v.layers.rows), bs)
  }

  /** The operation leaves nothing buffered: a flush, a truncate, or a write that must be flushed. */
  predicate Publishes(v: HandleView, op: Op, threshold: nat) {
    match op
    case FsyncOp => true
    case TruncateOp(_) => true
    case WriteOp(_, data, openHandles) =>
      var buffered := if v.state.Some? then v.state.value.bufferedBytes else 0;
      data != [] && ((threshold > 0 && buffered + |data| >= threshold) || openHandles > 1)
    case _ => false
  }

  /** What an operation does to the store: without failures a publishing one leaves the handle's bytes
      there; reads and caching operations leave it alone. */
  ghost predicate StoreOk(v: HandleView, bs: nat, op: Op, faults: Faults, threshold: nat, after: HandleView)
    requires bs >= 1
  {
    && (faults == Faults({}, false, false) && Publishes(v, op, threshold) ==> Stored(after, bs) == Shown(after, bs))
    && (op.ReadOp? ==> after == v)
    && (op.EvictOp? || op.ReloadOp? ==> Stored(after, bs) == Stored(v, bs) && after.state == v.state)
  }

  /** A read takes effect by returning bytes, and those are a slice of the flat file. Without
      store failures an operation takes effect exactly when no block copy is too short for it. */
  ghost predicate StepOk(v: HandleView, bs: nat, op: Op, faults: Faults, applied: bool, reply: Option<ReadOutcome>)
    requires bs >= 1
  {
    && (reply.Some? <==> op.ReadOp?)
    && (op.ReadOp? && applied ==>
          reply.value == ReadOutcome.Bytes(ReadSlice(Shown(v, bs), op.request.offset, op.request.size)))
    && (op.ReadOp? && !applied ==> !reply.value.Bytes?)
    && (faults == Faults({}, false, false) ==> (applied <==> !Overruns(v, bs, op)))
  }

  /** Performs one operation; `applied` tells whether it took effect. */
  method Perform(fuse: FodFuse, fh: nat, file: nat, op: Op, faults: Faults)
    returns (applied: bool, reply: Option<ReadOutcome>)
    requires HandleInv(fuse, fh, file) && Representable(op)
    modifies fuse
    ensures HandleInv(fuse, fh, file)
    ensures Contents(fuse, fh, file) == FlatStep(old(Contents(fuse, fh, file)), op, applied)
    ensures StepOk(old(ViewOf(fuse, fh, file)), fuse.blockSize, op, faults, applied, reply)
    ensures StoreOk(old(ViewOf(fuse, fh, file)), fuse.blockSize, op, faults, fuse.flushThreshold,
                    ViewOf(fuse, fh, file))
  {
    applied, reply := true, None;
    match op {
      case WriteOp(offset, data, openHandles) =>
        var outcome := Write(fuse, fh, file, offset, data, openHandles, faults);
        applied := !outcome.Failed?;
        if fh !in fuse.writeStates { StoredContents(fuse, fh, file); }
      case ReadOp(q) =>
        var r := Read(fuse, fh, file, q, faults);
        applied, reply := r.Bytes?, Some(r);
      case CopyOp(dst, payload, dedupe) =>
        if payload != [] {
          var outcome := CopyInto(fuse, fh, file, dst, payload, dedupe, faults);
          applied := outcome.Copied?;
        }
      case TruncateOp(size) =>
        var outcome := Truncate(fuse, fh, file, size, faults);
        applied := outcome.Done?;
      case FsyncOp =>
        var outcome := Fsync(fuse, fh, file, faults);
      case EvictOp(keys) =>
        Evict(fuse, fh, file, keys);
      case ReloadOp(cacheLimit) =>
        Reload(fuse, fh, file, cacheLimit);
    }
  }

  /** A run that behaves like a flat byte array: `seen[n]` is what the handle sees before
      operation `n`. It always shows the bytes of a flat array after the operations that took
      effect so far, and operation `n` does what `StepOk` and `StoreOk` say of that view. */
  ghost predicate BehavesFlat(start: seq<byte>, bs: nat, threshold: nat, ops: seq<Op>, faults: seq<Faults>,
                              seen: seq<HandleView>, applied: seq<bool>, replies: seq<Option<ReadOutcome>>)
    requires bs >= 1
  {
    && |faults| == |applied| == |replies| == |ops| && |seen| == |ops| + 1
    && (forall n | 0 <= n <= |ops| :: Shown(seen[n], bs) == FlatRun(start, ops[..n], applied[..n]))
    && (forall n | 0 <= n < |ops| :: StepOk(seen[n], bs, ops[n], faults[n], applied[n], replies[n]))
    && (forall n | 0 <= n < |ops| :: StoreOk(seen[n], bs, ops[n], faults[n], threshold, seen[n + 1]))
  }

  lemma {:induction false} BehavesFlatOn(start: seq<byte>, bs: nat, threshold: nat, ops: seq<Op>, faults: seq<Faults>,
                                         seen: seq<HandleView>, applied: seq<bool>, replies: seq<Option<ReadOutcome>>,
                                         n: nat, took: bool, reply: Option<ReadOutcome>, after: HandleView)
    requires bs >= 1 && n < |ops| == |faults|
    requires BehavesFlat(start, bs, threshold, ops[..n], faults[..n], seen, applied, replies)
    requires StepOk(seen[n], bs, ops[n], faults[n], took, reply)
    requires StoreOk(seen[n], bs, ops[n], faults[n], threshold, after)
    requires Shown(after, bs) == FlatStep(Shown(seen[n], bs), ops[n], took)
    ensures BehavesFlat(start, bs, threshold, ops[..n + 1], faults[..n + 1], seen + [after], applied + [took],
                        replies + [reply])
  {
    var all, flags, views := ops[..n + 1], applied + [took], seen + [after];
    forall m | 0 <= m <= n + 1 ensures Shown(views[m], bs) == FlatRun(start, all[..m], flags[..m]) {
      if m <= n {
        assert all[..m] == ops[..n][..m] && flags[..m] == applied[..m];
      } else {
        assert all[..m] == all && flags[..m] == flags;
        assert all[..n] == ops[..n] == ops[..n][..n] && flags[..n] == applied == applied[..n];
      }
    }
    forall m | 0 <= m < n + 1
      ensures StepOk(views[m], bs, all[m], faults[..n + 1][m], flags[m], (replies + [reply])[m])
    {
      if m < n { assert StepOk(seen[m], bs, ops[..n][m], faults[..n][m], applied[m], replies[m]); }
    }
    forall m | 0 <= m < n + 1 ensures StoreOk(views[m], bs, all[m], faults[..n + 1][m], threshold, views[m + 1]) {
      if m < n { assert StoreOk(seen[m], bs, ops[..n][m], faults[..n][m], threshold, seen[m + 1]); }
    }
  }

  /** Every run of operations through one handle, with any store failures, behaves like a flat
      byte array. */
  method Run(fuse: FodFuse, fh: nat, file: nat, ops: seq<Op>, faults: seq<Faults>)
    returns (applied: seq<bool>, replies: seq<Option<ReadOutcome>>, ghost seen: seq<HandleView>)
    requires HandleInv(fuse, fh, file) && |faults| == |ops|
    requires forall n | 0 <= n < |ops| :: Representable(ops[n])
    modifies fuse
    ensures HandleInv(fuse, fh, file)
    ensures BehavesFlat(old(Contents(fuse, fh, file)), fuse.blockSize, fuse.flushThreshold, ops, faults, seen,
                        applied, replies)
    ensures seen[0] == old(ViewOf(fuse, fh, file)) && seen[|ops|] == ViewOf(fuse, fh, file)
  {
    applied, replies, seen := [], [], [ViewOf(fuse, fh, file)];
    ghost var start := Contents(fuse, fh, file);
    for n := 0 to |ops|
      invariant HandleInv(fuse, fh, file)
      invariant BehavesFlat(start, fuse.blockSize, fuse.flushThreshold, ops[..n], faults[..n], seen, applied, replies)
      invariant seen[0] == old(ViewOf(fuse, fh, file)) && seen[n] == ViewOf(fuse, fh, file)
    {
      var took, reply := Perform(fuse, fh, file, ops[n], faults[n]);
      BehavesFlatOn(start, fuse.blockSize, fuse.flushThreshold, ops, faults, seen, applied, replies, n, took, reply,
                    ViewOf(fuse, fh, file));
      applied, replies, seen := applied + [took], replies + [reply], seen + [ViewOf(fuse, fh, file)];
    }
    assert ops[..|ops|] == ops && faults[..|ops|] == faults;
  }

  /** The invariant does not rule short copies out: a write of four bytes cut to two by a truncate
      leaves a recent block of two bytes, and after a buffered write further on a read of the first
      four bytes runs off its end. */
  method ShortCopyOverrun(q: ReadRequest) returns (fuse: FodFuse, r: ReadOutcome)
    requires q.offset == 0 && q.size == 4
    ensures fresh(fuse) && HandleInv(fuse, 1, 7) && |Contents(fuse, 1, 7)| == 9
    ensures ReadFails(ViewOf(fuse, 1, 7), fuse.blockSize, q) && r.OutOfBounds?
  {
    var none := Faults({}, false, false);
    fuse := new FodFuse(4, CopyBinaryStaging, 0, 1, map[7 := StoredFile(0, map[])]);
    var first := Write(fuse, 1, 7, 0, [9, 9, 9, 9], 1, none);
    assert Contents(fuse, 1, 7)[0] == 9;
    var second := Truncate(fuse, 1, 7, 2, none);
    var third := Write(fuse, 1, 7, 8, [5], 1, none);
    r := Read(fuse, 1, 7, q, none);
  }
}
