/** The buffered write path of one mount: splicing writes into dirty blocks, repairing
the block a truncate cuts through, and flushing the overlay to the store. */
module WriteBuffer {
  import opened Bytes
  import opened PersistPlan
  import opened Layers

  /** How rows reach the store. Staging is the default; the other two write rows directly. */
  datatype Transport = CopyBinaryStaging | BinaryBytea | LegacyHex

  datatype PersistRow = PersistRow(index: nat, data: Block, usedLen: nat)

  /** Which accesses to the store fail during one operation. */
  datatype Faults = Faults(loads: set<nat>, size: bool, persist: bool)

  /** A write state as the handle table keeps it between callbacks. */
  datatype StateValue = StateValue(
    fileId: nat, fileSize: nat, truncatePending: bool, bufferedBytes: nat, loadError: bool, blocks: BlockMap)

  predicate HasChanges(v: StateValue) {
    v.truncatePending || v.bufferedBytes > 0 || v.loadError || v.blocks != map[]
  }

  /** The byte a persisted row leaves in the store. */
  function StoredByte(t: Transport, bs: nat, r: PersistRow, k: nat): byte {
    if t.CopyBinaryStaging? || r.usedLen >= bs then ByteIn(r.data, k) else 0
  }

  ghost predicate RowsAscend(rows: seq<PersistRow>) {
    forall a, b | 0 <= a < b < |rows| :: rows[a].index < rows[b].index
  }

  ghost predicate RowListed(rows: seq<PersistRow>, i: nat) {
    exists r :: r in rows && r.index == i
  }

  /** One row per planned block that is dirty, with the planned used length. */
  ghost predicate RowsForPlan(rows: seq<PersistRow>, blocks: BlockMap, plan: seq<PlanEntry>) {
    && (forall i: nat :: RowListed(rows, i) <==> Listed(plan, i) && i in blocks)
    && (forall m | 0 <= m < |rows| :: rows[m].index in blocks && rows[m].data == blocks[rows[m].index]
          && PlanEntry(rows[m].index, rows[m].usedLen) in plan)
  }

  lemma RowStep(rows: seq<PersistRow>, blocks: BlockMap, plan: seq<PlanEntry>, e: PlanEntry)
    requires RowsForPlan(rows, blocks, plan)
    ensures e.index in blocks ==>
              RowsForPlan(rows + [PersistRow(e.index, blocks[e.index], e.usedLen)], blocks, plan + [e])
    ensures e.index !in blocks ==> RowsForPlan(rows, blocks, plan + [e])
  {
  }

  /** The rows of a plan, taken from the dirty blocks. */
  function PersistRows(blocks: BlockMap, plan: seq<PlanEntry>): seq<PersistRow> {
    if plan == [] then []
    else
      var e := plan[|plan| - 1];
      PersistRows(blocks, plan[..|plan| - 1])
      + if e.usedLen != 0 && e.index in blocks then [PersistRow(e.index, blocks[e.index], e.usedLen)] else []
  }

  lemma {:induction false} PersistRowsForPlan(blocks: BlockMap, plan: seq<PlanEntry>)
    requires forall m | 0 <= m < |plan| :: plan[m].usedLen > 0
    ensures RowsForPlan(PersistRows(blocks, plan), blocks, plan)
  {
    if plan != [] {
      var n := |plan| - 1;
      PersistRowsForPlan(blocks, plan[..n]);
      RowStep(PersistRows(blocks, plan[..n]), blocks, plan[..n], plan[n]);
      assert plan[..n] + [plan[n]] == plan;
      if plan[n].index !in blocks { assert PersistRows(blocks, plan) == PersistRows(blocks, plan[..n]); }
    }
  }

  lemma {:induction false} PersistRowsAscend(blocks: BlockMap, plan: seq<PlanEntry>)
    requires forall a, b | 0 <= a < b < |plan| :: plan[a].index < plan[b].index
    ensures RowsAscend(PersistRows(blocks, plan))
    ensures plan == [] ==> PersistRows(blocks, plan) == []
    ensures plan != [] ==> forall r | r in PersistRows(blocks, plan) :: r.index <= plan[|plan| - 1].index
  {
    if plan != [] {
      PersistRowsAscend(blocks, plan[..|plan| - 1]);
    }
  }

  function DropRecentPast(recent: RecentMap, file: nat, total: nat): RecentMap {
    map key | key in recent && (key.0 != file || key.1 < total) :: recent[key]
  }

  function AddRecent(recent: RecentMap, file: nat, total: nat, blocks: BlockMap): (r: RecentMap)
    ensures forall key: Key :: key in r <==> key in recent || (key.0 == file && key.1 in blocks && key.1 < total)
    ensures forall key | key in r ::
              if key.0 == file && key.1 in blocks && key.1 < total then r[key] == blocks[key.1]
              else key in recent && r[key] == recent[key]
  {
    recent + map i | i in blocks && i < total :: (file, i) := blocks[i]
  }

  /** The recent map with a flush in it, before anything is evicted. */
  function MergedRecent(recent: RecentMap, file: nat, total: nat, cut: bool, blocks: BlockMap): RecentMap {
    AddRecent(if cut then DropRecentPast(recent, file, total) else recent, file, total, blocks)
  }

  /** It has the flushed blocks below the end, and what it had before but for the cut-off blocks of the file. */
  lemma MergedRecentMeaning(recent: RecentMap, file: nat, total: nat, cut: bool, blocks: BlockMap, key: Key)
    ensures var r := MergedRecent(recent, file, total, cut, blocks);
            var flushed := key.0 == file && key.1 in blocks && key.1 < total;
            && (key in r <==> flushed || (key in recent && !(cut && key.0 == file && key.1 >= total)))
            && (key in r ==> r[key] == if flushed then blocks[key.1] else recent[key])
  {
  }

  /** The largest keys are kept, as many as the limit allows. */
  ghost predicate KeepsLargest(all: RecentMap, kept: RecentMap, limit: nat) {
    && |kept| == Min(|all|, limit) && OldestGone(all.Keys, kept.Keys)
    && forall key | key in kept :: key in all && kept[key] == all[key]
  }

  /** What a flush leaves in the recent map. */
  ghost predicate RecentStored(before: RecentMap, after: RecentMap, file: nat, total: nat, cut: bool, blocks: BlockMap,
                               limit: nat) {
    forall all | all == MergedRecent(before, file, total, cut, blocks) :: KeepsLargest(all, after, limit)
  }

  /** Below the limit nothing is lost. */
  lemma AllKept(all: RecentMap, kept: RecentMap, limit: nat)
    requires KeepsLargest(all, kept, limit) && |all| <= limit
    ensures kept == all
  {
    assert kept.Keys <= all.Keys;
    SubsetSize(kept.Keys, all.Keys);
  }

  /** A file of few blocks fits into an empty recent map. */
  lemma {:induction false} OneFileFits(file: nat, total: nat, blocks: BlockMap)
    ensures |MergedRecent(map[], file, total, true, blocks)| <= total
  {
    var all := MergedRecent(map[], file, total, true, blocks);
    var indices := set i | 0 <= i < total :: (file, i);
    CountBelow(file, total);
    SubsetSize(all.Keys, indices);
    assert |all| == |all.Keys|;
  }

  /** A small file flushed into an empty recent map keeps its last block there. */
  lemma {:induction false} TailKept(recent: RecentMap, file: nat, size: nat, bs: nat, blocks: BlockMap, limit: nat)
    requires bs >= 1 && limit >= BlockCountForLength(size, bs, false) && OffsetIn(size, bs) != 0
    requires RecentStored(map[], recent, file, BlockCountForLength(size, bs, false), true, blocks, limit)
    ensures BlockOf(size, bs) in blocks ==>
              (file, BlockOf(size, bs)) in recent && recent[(file, BlockOf(size, bs))] == blocks[BlockOf(size, bs)]
  {
    var total := BlockCountForLength(size, bs, false);
    var all := MergedRecent(map[], file, total, true, blocks);
    assert KeepsLargest(all, recent, limit);
    OneFileFits(file, total, blocks);
    AllKept(all, recent, limit);
    BelowSize(BlockOf(size, bs), 0, bs, size);
  }

  lemma {:induction false} CountBelow(file: nat, total: nat)
    ensures |set i | 0 <= i < total :: (file, i)| == total
  {
    if total > 0 {
      CountBelow(file, total - 1);
      assert (set i | 0 <= i < total :: (file, i)) == (set i | 0 <= i < total - 1 :: (file, i)) + {(file, total - 1)};
    }
  }

  /** Every recent block is a flushed one or an older one that is still inside its file. */
  ghost predicate RecentMerged(before: RecentMap, after: RecentMap, file: nat, total: nat, cut: bool,
                               blocks: BlockMap) {
    forall key | key in after ::
      if key.0 == file && key.1 in blocks && key.1 < total then after[key] == blocks[key.1]
      else key in before && after[key] == before[key] && (key.0 == file && cut ==> key.1 < total)
  }

  /** The order in which recent blocks are evicted. */
  predicate KeyLess(a: Key, b: Key) {
    a.0 < b.0 || (a.0 == b.0 && a.1 < b.1)
  }

  /** What was evicted orders before everything that was kept. */
  ghost predicate OldestGone(all: set<Key>, kept: set<Key>) {
    forall gone, key | gone in all && gone !in kept && key in kept :: KeyLess(gone, key)
  }

  lemma EvictLeast(all: set<Key>, kept: set<Key>, least: Key)
    requires OldestGone(all, kept) && IsLeast(least, kept)
    ensures OldestGone(all, kept - {least})
  {
  }

  predicate IsLeast(least: Key, keys: set<Key>) {
    least in keys && forall key | key in keys :: key == least || KeyLess(least, key)
  }

  lemma {:induction false} LeastKey(keys: set<Key>) returns (least: Key)
    requires keys != {}
    ensures IsLeast(least, keys)
    decreases |keys|
  {
    var x :| x in keys;
    var rest := keys - {x};
    assert keys == rest + {x};
    if rest == {} { return x; }
    var y := LeastKey(rest);
    least := if KeyLess(x, y) then x else y;
    forall key | key in keys ensures key == least || KeyLess(least, key) {
      assert key == x || key in rest;
    }
  }

  /** Whether the rows replace every block of the file. */
  predicate CoversFullFile(rows: seq<PersistRow>, fileSize: nat, total: nat) {
    && fileSize > 0
    && |rows| == total
    && forall n | 0 <= n < |rows| :: rows[n].index == n
  }

  class WriteState {
    var fileId: nat
    var fileSize: nat
    var truncatePending: bool
    var bufferedBytes: nat
    var loadError: bool
    var blocks: BlockMap

    constructor New(fileId: nat, fileSize: nat, truncatePending: bool)
      ensures Value() == StateValue(fileId, fileSize, truncatePending, 0, false, map[])
    {
      this.fileId, this.fileSize, this.truncatePending := fileId, fileSize, truncatePending;
      bufferedBytes, loadError, blocks := 0, false, map[];
    }

    /** The clone a callback works on; later changes do not reach the original. */
    constructor Clone(v: StateValue)
      ensures Value() == v
    {
      fileId, fileSize, truncatePending := v.fileId, v.fileSize, v.truncatePending;
      bufferedBytes, loadError, blocks := v.bufferedBytes, v.loadError, v.blocks;
    }

    function Value(): StateValue
      reads this
    {
      StateValue(fileId, fileSize, truncatePending, bufferedBytes, loadError, blocks)
    }

    predicate HasPendingChanges()
      reads this
    {
      HasChanges(Value())
    }
  }

  class FodFuse {
    const blockSize: nat
    const transport: Transport
    const flushThreshold: nat
    var files: map<nat, StoredFile>
    var recent: RecentMap
    var cacheLimit: nat
    /** The write states of open handles between callbacks. */
    var writeStates: map<nat, StateValue>

    constructor (blockSize: nat, transport: Transport, flushThreshold: nat, cacheLimit: nat,
                 files: map<nat, StoredFile>)
      ensures this.blockSize == blockSize && this.transport == transport
      ensures this.flushThreshold == flushThreshold && this.cacheLimit == cacheLimit
      ensures this.files == files && recent == map[] && writeStates == map[]
    {
      this.blockSize, this.transport, this.flushThreshold := blockSize, transport, flushThreshold;
      this.cacheLimit, this.files, recent, writeStates := cacheLimit, files, map[], map[];
    }

    /** A zero cache limit bypasses resident recent blocks. */
    function VisibleRecent(): RecentMap
      reads this
    {
      if cacheLimit == 0 then map[] else recent
    }

    function LayersOf(file: nat, blocks: BlockMap): Layers
      requires file in files
      reads this
    {
      Layers(file, blocks, VisibleRecent(), files[file].rows)
    }

    /** The block sizes the layers are made of. */
    ghost predicate Sized(st: WriteState)
      reads this, st
    {
      blockSize >= 1 && st.fileId in files && Fits(st.blocks, blockSize) && RecentFits(recent, blockSize)
    }

    method LoadWriteBlock(st: WriteState, i: nat, faults: set<nat>) returns (r: Option<Block>)
      requires Sized(st)
      ensures r.None? <==> i in faults && i !in st.blocks && (st.fileId, i) !in VisibleRecent()
      ensures r.Some? ==> |r.value| <= blockSize
      ensures r.Some? ==> r.value == match Lookup(LayersOf(st.fileId, st.blocks), blockSize, i)
                                     case None => Resize([], blockSize)
                                     case Some(b) => b
    {
      if i in st.blocks { return Some(st.blocks[i]); }
      var visible := VisibleRecent();
      if (st.fileId, i) in visible { return Some(visible[(st.fileId, i)]); }
      if i in faults { return None; }
      var rows := files[st.fileId].rows;
      return Some(Resize(if i in rows then rows[i] else [], blockSize));
    }

    /** The block a splice into `from..to` starts from. It is loaded only when the write
        neither replaces it whole nor starts a block past the old end of file. */
    method BaseBlock(st: WriteState, i: nat, start: nat, from: nat, to: nat, slice: seq<byte>,
                     originalFileSize: nat, faults: set<nat>) returns (r: Option<Block>)
      requires Sized(st) && start == Start(i, blockSize) && from < to <= blockSize && |slice| == to - from
      ensures r.Some? ==> |r.value| <= blockSize && forall k: nat | k < blockSize && !(from <= k < to) ::
                ByteIn(r.value, k) == if from == 0 && start >= originalFileSize && i !in st.blocks then 0
                                      else LayerByte(LayersOf(st.fileId, st.blocks), blockSize, i, k)
      ensures r.None? ==> i in faults && i !in st.blocks && (st.fileId, i) !in VisibleRecent()
    {
      if from == 0 && to == blockSize {
        r := Some(slice);
      } else if i in st.blocks {
        r := Some(st.blocks[i]);
      } else if start >= originalFileSize && from == 0 {
        r := Some(Resize([], blockSize));
      } else {
        r := LoadWriteBlock(st, i, faults);
      }
    }

    /** The new contents of the one dirty block `i`. */
    method SplicedBlock(st: WriteState, i: nat, start: nat, offset: nat, end: nat, data: seq<byte>, cursor: nat,
                        originalFileSize: nat, faults: set<nat>) returns (r: Option<Block>, srcEnd: nat)
      requires Sized(st) && end <= offset + |data| && end <= U64_MAX
      requires start == Start(i, blockSize) && Max(offset, start) < Min(end, SatAdd(start, blockSize))
      requires cursor == Max(offset, start) - offset
      ensures srcEnd == Min(end, start + blockSize) - offset
      ensures r.Some? ==> |r.value| == blockSize && forall k: nat | k < blockSize ::
                r.value[k] ==
                WrittenByte(LayersOf(st.fileId, st.blocks), blockSize, originalFileSize, offset, end, data, i, k)
      ensures r.None? ==> i in faults && i !in st.blocks && (st.fileId, i) !in VisibleRecent()
    {
      var writeStart, writeEnd := Max(offset, start), Min(end, SatAdd(start, blockSize));
      var from, to := writeStart - start, writeEnd - start;
      srcEnd := cursor + (to - from);
      r := BaseBlock(st, i, start, from, to, data[cursor..srcEnd], originalFileSize, faults);
      if r.Some? {
        var block := Splice(Resize(r.value, blockSize), from, data[cursor..srcEnd]);
        SplicedBytes(LayersOf(st.fileId, st.blocks), blockSize, originalFileSize, i, start, offset, end, data, cursor,
                     from, to, r.value, block);
        r := Some(block);
      }
    }

    /** One turn of the splice loop: block `i` is rewritten and the cursor moves past its share. */
    method WriteOneBlock(st: WriteState, ghost l: Layers, first: nat, i: nat, start: nat, offset: nat, end: nat,
                         data: seq<byte>, cursor: nat, originalFileSize: nat, faults: set<nat>)
      returns (ok: bool, next: nat)
      requires Sized(st) && end <= offset + |data| && end <= U64_MAX && first <= i <= U64_MAX
      requires start == Start(i, blockSize) && start < end && offset < start + blockSize
      requires cursor == Max(offset, start) - offset
      requires l.file == st.fileId && (i in st.blocks <==> i in l.blocks)
      requires SplicedUpTo(l, LayersOf(st.fileId, st.blocks), blockSize, originalFileSize, offset, end, data, first, i)
      modifies st`blocks
      ensures Sized(st) && old(st.blocks.Keys) <= st.blocks.Keys <= old(st.blocks.Keys) + {i}
      ensures ok && offset < end ==> i in st.blocks
      ensures start + blockSize < end ==> next == start + blockSize - offset
      ensures ok ==>
                SplicedUpTo(l, LayersOf(st.fileId, st.blocks), blockSize, originalFileSize, offset, end, data, first,
                            i + 1)
      ensures !ok ==> i in faults && i !in old(st.blocks) && (st.fileId, i) !in VisibleRecent()
    {
      ghost var now := LayersOf(st.fileId, st.blocks);
      ok, next := true, cursor;
      // Only an end offset saturated onto `offset` itself leaves nothing to write.
      if Max(offset, start) < Min(end, SatAdd(start, blockSize)) {
        var block;
        block, next := SplicedBlock(st, i, start, offset, end, data, cursor, originalFileSize, faults);
        if block.None? { ok := false; return; }
        SpliceOne(l, now, blockSize, originalFileSize, offset, end, data, first, i, block.value);
        st.blocks := st.blocks[i := block.value];
        assert LayersOf(st.fileId, st.blocks) == now.(blocks := now.blocks[i := block.value]);
      } else {
        SkipOne(l, now, blockSize, originalFileSize, offset, end, data, first, i);
      }
    }

    /** Splices `data` into the dirty blocks of a state. */
    method UpdateWriteBuffer(st: WriteState, offset: nat, data: seq<byte>, faults: set<nat>) returns (ok: bool)
      requires Sized(st) && offset <= U64_MAX && st.fileSize <= U64_MAX
      modifies st
      ensures st.Value() == old(st.Value()).(fileSize := st.fileSize, blocks := st.blocks)
      ensures Sized(st)
      ensures data == [] ==> ok && st.Value() == old(st.Value())
      ensures ok && data != [] ==>
                && st.fileSize == Max(old(st.fileSize), SatAdd(offset, |data|))
                && Written(old(LayersOf(st.fileId, st.blocks)), LayersOf(st.fileId, st.blocks),
                           blockSize, old(st.fileSize), offset, SatAdd(offset, |data|), data)
      ensures !ok ==> exists i :: i in faults && i !in old(st.blocks) && (st.fileId, i) !in VisibleRecent()
      ensures forall i | i in st.blocks && i !in old(st.blocks) :: BlockOf(offset, blockSize) <= i
      ensures ok && data != [] && offset < U64_MAX ==> forall i: nat :: i in st.blocks <==>
                i in old(st.blocks)
                || BlockOf(offset, blockSize) <= i <= BlockOf(SatAdd(offset, |data|) - 1, blockSize)
    {
      if data == [] { return true; }
      var originalFileSize, end := st.fileSize, SatAdd(offset, |data|);
      ghost var l := LayersOf(st.fileId, st.blocks);
      if end > st.fileSize { st.fileSize := end; }
      var first: nat, last: nat := BlockOf(offset, blockSize), BlockOf(SatSub(end, 1), blockSize);
      var cursor, i, blockStart := 0, first, Start(first, blockSize);
      FirstBlockEnd(first, blockSize, offset);
      while i <= last
        invariant first <= i && blockStart == Start(i, blockSize) && offset < blockStart + blockSize
        invariant i <= last ==> cursor == Max(offset, blockStart) - offset
        invariant Sized(st) && old(st.blocks.Keys) <= st.blocks.Keys
        invariant forall j | j in st.blocks && j !in old(st.blocks) :: first <= j < i && j <= last
        invariant offset < end ==> forall j: nat | first <= j < i && j <= last :: j in st.blocks
        invariant st.Value() == old(st.Value()).(fileSize := st.fileSize, blocks := st.blocks)
        invariant st.fileSize == Max(originalFileSize, end)
        invariant SplicedUpTo(l, LayersOf(st.fileId, st.blocks), blockSize, originalFileSize, offset, end, data, first,
                              i)
      {
        LastBlockStart(i, last, blockSize, end);
        ok, cursor := WriteOneBlock(st, l, first, i, blockStart, offset, end, data, cursor, originalFileSize, faults);
        if !ok { return; }
        i, blockStart := i + 1, blockStart + blockSize;
        if i <= last { LastBlockStart(i, last, blockSize, end); }
      }
      UntouchedBlocks(l, LayersOf(st.fileId, st.blocks), blockSize, originalFileSize, offset, end, data, first, last,
                      i);
      return true;
    }

    method LoadBoundaryBlock(st: WriteState, i: nat, faults: set<nat>) returns (ok: bool, b: Option<Block>)
      requires Sized(st)
      ensures ok ==> b == Lookup(LayersOf(st.fileId, st.blocks), blockSize, i)
      ensures !ok <==> i in faults && i !in st.blocks && (st.fileId, i) !in VisibleRecent()
    {
      if i in st.blocks { return true, Some(st.blocks[i]); }
      var visible := VisibleRecent();
      if (st.fileId, i) in visible { return true, Some(visible[(st.fileId, i)]); }
      if i in faults { return false, None; }
      var rows := files[st.fileId].rows;
      return true, if i in rows then Some(Resize(rows[i], blockSize)) else None;
    }

    /** Keeps the first `keep` bytes of a block and pads it with zeroes to `target`;
        a missing block already reads as zero. */
    method CutExistingBlock(st: WriteState, i: nat, keep: nat, target: nat, faults: set<nat>) returns (ok: bool)
      requires Sized(st) && keep <= target <= blockSize && i <= U64_MAX
      modifies st`blocks
      ensures Sized(st)
      ensures ok ==>
                Cut(old(LayersOf(st.fileId, st.blocks)), LayersOf(st.fileId, st.blocks), blockSize, Some((i, keep)))
      ensures ok ==> st.blocks.Keys == old(st.blocks.Keys) +
                       if Lookup(old(LayersOf(st.fileId, st.blocks)), blockSize, i).Some? then {i} else {}
      ensures !ok ==> st.blocks == old(st.blocks) && i in faults
      ensures ok && Lookup(old(LayersOf(st.fileId, st.blocks)), blockSize, i).Some? ==> |st.blocks[i]| == target
    {
      var b;
      ok, b := LoadBoundaryBlock(st, i, faults);
      if !ok || b.None? { return; }
      ghost var l := LayersOf(st.fileId, st.blocks);
      var block := Resize(if |b.value| > keep then b.value[..keep] else b.value, target);
      st.blocks := st.blocks[i := block];
      forall j: nat, k: nat | k < blockSize
        ensures LayerByte(l.(blocks := st.blocks), blockSize, j, k) == CutByte(l, blockSize, Some((i, keep)), j, k)
      {
      }
    }

    method TrimExistingBlockAtEof(st: WriteState, eof: nat, faults: set<nat>) returns (ok: bool)
      requires Sized(st) && eof <= U64_MAX
      modifies st`blocks
      ensures Sized(st)
      ensures ok ==> Prepared(old(LayersOf(st.fileId, st.blocks)), LayersOf(st.fileId, st.blocks), blockSize,
                              Boundary(true, 0, eof, blockSize))
      ensures !ok ==> faults != {}
      ensures ok && EndsInside(old(LayersOf(st.fileId, st.blocks)), blockSize, eof) ==>
                BlockOf(eof, blockSize) in st.blocks && |st.blocks[BlockOf(eof, blockSize)]| == OffsetIn(eof, blockSize)
    {
      if eof == 0 || OffsetIn(eof, blockSize) == 0 { return true; }
      ok := CutExistingBlock(st, BlockOf(eof, blockSize), OffsetIn(eof, blockSize), OffsetIn(eof, blockSize), faults);
    }

    /** Rewrites the one block a pending truncate cuts through. */
    method PrepareTruncateBoundaryBlocks(st: WriteState, faults: Faults) returns (ok: bool)
      requires Sized(st) && st.fileSize <= U64_MAX && files[st.fileId].size <= U64_MAX
      modifies st`blocks
      ensures Sized(st)
      ensures ok ==> Prepared(old(LayersOf(st.fileId, st.blocks)), LayersOf(st.fileId, st.blocks), blockSize,
                              old(FlushBoundary(st)))
      ensures !ok ==> faults.size || faults.loads != {}
      ensures !st.truncatePending ==> ok && st.blocks == old(st.blocks)
      ensures ok && old(LeavesShortTail(st)) ==>
                BlockOf(st.fileSize, blockSize) in st.blocks
                && |st.blocks[BlockOf(st.fileSize, blockSize)]| == OffsetIn(st.fileSize, blockSize)
    {
      if !st.truncatePending { return true; }
      var newSize := st.fileSize;
      if st.bufferedBytes > 0 || st.blocks != map[] {
        ok := TrimExistingBlockAtEof(st, newSize, faults.loads);
        return;
      }
      if faults.size { return false; }
      var previousSize := files[st.fileId].size;
      if previousSize < newSize {
        var used := OffsetIn(previousSize, blockSize);
        if previousSize > 0 && used != 0 {
          var i := BlockOf(previousSize, blockSize);
          var blockStart := Start(i, blockSize);
          var target := if newSize < blockStart + blockSize then newSize - blockStart else blockSize;
          ok := CutExistingBlock(st, i, used, target, faults.loads);
          return;
        }
        return true;
      }
      ok := TrimExistingBlockAtEof(st, newSize, faults.loads);
    }

    /** Upserts the planned rows. Staging normalises a row to the block size and drops it
        when it is all zero; the direct transports drop every row that is not a whole block. */
    method UpsertRows(base: BlockMap, rows: seq<PersistRow>) returns (stored: BlockMap)
      requires RowsAscend(rows)
      ensures forall r, k: nat | r in rows && k < blockSize ::
                RowByte(stored, r.index, k) == StoredByte(transport, blockSize, r, k)
      ensures forall i: nat, k: nat | !RowListed(rows, i) :: RowByte(stored, i, k) == RowByte(base, i, k)
    {
      stored := base;
      for n := 0 to |rows|
        invariant forall m, k: nat | 0 <= m < n && k < blockSize ::
                    RowByte(stored, rows[m].index, k) == StoredByte(transport, blockSize, rows[m], k)
        invariant forall i: nat, k: nat | !RowListed(rows, i) :: RowByte(stored, i, k) == RowByte(base, i, k)
      {
        var row := rows[n];
        var whole := Resize(row.data, blockSize);
        var keep := if transport.CopyBinaryStaging? then whole != Resize([], blockSize) else row.usedLen >= blockSize;
        assert RowListed(rows, row.index);
        stored := if keep then stored[row.index := whole] else stored - {row.index};
        forall k: nat | k < blockSize
          ensures RowByte(stored, row.index, k) == StoredByte(transport, blockSize, row, k)
        {
          if !keep && transport.CopyBinaryStaging? { assert whole[k] == Resize([], blockSize)[k]; }
        }
      }
    }

    /** Writes the planned rows in one transaction. Rows that cover the whole file go to a
        fresh data object; a truncate first deletes the rows past the new end. */
    method PersistFileBlocks(file: nat, fileSize: nat, total: nat, truncatePending: bool, rows: seq<PersistRow>)
      requires blockSize >= 1 && file in files
      requires RowsAscend(rows) && forall r | r in rows :: r.index < total
      modifies this`files
      ensures file in files && files == old(files)[file := StoredFile(fileSize, files[file].rows)]
      ensures forall r, k: nat | r in rows && k < blockSize ::
                RowByte(files[file].rows, r.index, k) == StoredByte(transport, blockSize, r, k)
      ensures forall i: nat, k: nat | !RowListed(rows, i) ::
                RowByte(files[file].rows, i, k) ==
                if (truncatePending || CoversFullFile(rows, fileSize, total)) && i >= total then 0
                else RowByte(old(files)[file].rows, i, k)
      ensures fileSize == 0 && !truncatePending ==> forall i: nat, k: nat | !RowListed(rows, i) ::
                RowByte(files[file].rows, i, k) == RowByte(old(files)[file].rows, i, k)
    {
      var base: BlockMap := files[file].rows;
      if CoversFullFile(rows, fileSize, total) {
        base := map[];
        forall i: nat | i < total ensures RowListed(rows, i) { assert rows[i] in rows; }
      } else if truncatePending {
        base := map i | i in base && i < total :: base[i];
      }
      var stored := UpsertRows(base, rows);
      files := files[file := StoredFile(fileSize, stored)];
    }

    function RecentLimit(total: nat): nat
      reads this
    {
      if cacheLimit == 0 then 0 else Min(total, Max(cacheLimit * 16, 256))
    }

    /** Keeps the flushed blocks for read-after-write, then evicts in key order. */
    method StoreRecentWriteBlocks(file: nat, fileSize: nat, truncatePending: bool, blocks: BlockMap)
      modifies this`recent
      ensures var total := BlockCountForLength(fileSize, blockSize, false);
              && RecentStored(old(recent), recent, file, total, truncatePending || total == 0, blocks,
                              RecentLimit(total))
              && RecentMerged(old(recent), recent, file, total, truncatePending || total == 0, blocks)
    {
      var total := BlockCountForLength(fileSize, blockSize, false);
      if truncatePending || total == 0 {
        recent := DropRecentPast(recent, file, total);
      }
      recent := AddRecent(recent, file, total, blocks);
      EvictRecent(RecentLimit(total));
    }

    /** What a flush leaves in the recent map is bounded by the file's block count and the settings. */
    lemma RecentIsBounded(before: RecentMap, after: RecentMap, file: nat, total: nat, cut: bool, blocks: BlockMap)
      requires RecentStored(before, after, file, total, cut, blocks, RecentLimit(total))
      ensures |after| <= total && |after| <= Max(cacheLimit * 16, 256) && (cacheLimit == 0 ==> after == map[])
      ensures cacheLimit > 0 && |MergedRecent(before, file, total, cut, blocks)| <= Min(total, 256) ==>
                after == MergedRecent(before, file, total, cut, blocks)
    {
      var all := MergedRecent(before, file, total, cut, blocks);
      assert KeepsLargest(all, after, RecentLimit(total));
      if cacheLimit > 0 && |all| <= Min(total, 256) { AllKept(all, after, RecentLimit(total)); }
    }

    /** Removes the smallest keys until at most `keep` entries are left. */
    method EvictRecent(keep: nat)
      modifies this`recent
      ensures KeepsLargest(old(recent), recent, keep)
    {
      while |recent| > keep
        invariant |recent| <= |old(recent)|
        invariant |recent| >= Min(|old(recent)|, keep)
        invariant forall key | key in recent :: key in old(recent) && recent[key] == old(recent)[key]
        invariant OldestGone(old(recent).Keys, recent.Keys)
      {
        ghost var smallest := LeastKey(recent.Keys);
        var least :| least in recent && IsLeast(least, recent.Keys);
        ghost var before := recent;
        recent := recent - {least};
        assert recent.Keys == before.Keys - {least};
        EvictLeast(old(recent).Keys, before.Keys, least);
      }
    }

    /** Flushes a state: repair the cut block, plan, persist, keep the flushed blocks. */
    method FlushWriteState(st: WriteState, faults: Faults) returns (ok: bool)
      requires Sized(st) && st.fileSize <= U64_MAX && files[st.fileId].size <= U64_MAX
      requires RecentAgrees(recent, st.fileId, files[st.fileId].rows, blockSize)
      modifies this`files, this`recent, st
      ensures Sized(st)
      ensures !ok ==> files == old(files) && recent == old(recent)
                      && st.Value() == old(st.Value()).(blocks := st.blocks)
                      && (!st.truncatePending ==> st.blocks == old(st.blocks))
      ensures ok ==> st.Value() == StateValue(old(st.fileId), old(st.fileSize), false, 0, false, map[])
      ensures ok ==> files == old(files)[st.fileId := StoredFile(st.fileSize, files[st.fileId].rows)]
      ensures ok ==>
                FlushedTo(transport, old(LayersOf(st.fileId, st.blocks)), blockSize, old(FlushBoundary(st)),
                          st.fileSize,
                               old(NothingPast(st)), files[st.fileId].rows)
      ensures ok && transport.CopyBinaryStaging? && old(NothingPast(st)) ==>
                RecentAgrees(recent, st.fileId, files[st.fileId].rows, blockSize)
      ensures forall key | key in recent && key.0 != st.fileId :: key in old(recent) && recent[key] == old(recent)[key]
      ensures var total := BlockCountForLength(st.fileSize, blockSize, false);
              ok && !old(st.truncatePending) ==>
                RecentStored(old(recent), recent, st.fileId, total, total == 0, old(st.blocks), RecentLimit(total))
      ensures ok && old(LeavesShortTail(st)) && old(recent) == map[] && cacheLimit > 0
              && BlockCountForLength(st.fileSize, blockSize, false) <= 256 ==>
                TailIsShort(recent, st.fileId, blockSize, st.fileSize)
      ensures !faults.persist && !faults.size && faults.loads == {} && !old(st.loadError) ==> ok
    {
      if st.loadError { return false; }
      ghost var l, b, bounded := LayersOf(st.fileId, st.blocks), FlushBoundary(st), NothingPast(st);
      ok := PrepareTruncateBoundaryBlocks(st, faults);
      if !ok { return; }
      ok := ExecutePersistPlan(st, l, b, bounded, faults);
      if !ok { return; }
      ghost var flushed, cut := st.blocks, st.truncatePending;
      ghost var total := BlockCountForLength(st.fileSize, blockSize, false);
      PublishFlushed(st, l, b, bounded);
      if old(recent) == map[] && cut && cacheLimit > 0 && total <= 256 && OffsetIn(st.fileSize, blockSize) != 0 {
        TailKept(recent, st.fileId, st.fileSize, blockSize, flushed, RecentLimit(total));
      }
    }

    /** Moves the flushed blocks to the recent map and marks the state clean. */
    method PublishFlushed(st: WriteState, ghost l: Layers, ghost b: Option<(nat, nat)>, ghost bounded: bool)
      requires Sized(st) && l.file == st.fileId && (l.recent == recent || l.recent == map[])
      requires Prepared(l, l.(blocks := st.blocks), blockSize, b)
      requires RecentAgrees(recent, l.file, l.rows, blockSize)
      requires bounded && !st.truncatePending ==> ZeroFrom(l.rows, blockSize, st.fileSize)
      requires FlushedTo(transport, l, blockSize, b, st.fileSize, bounded, files[st.fileId].rows)
      modifies this`recent, st
      ensures Sized(st)
      ensures st.Value() == StateValue(old(st.fileId), old(st.fileSize), false, 0, false, map[])
      ensures transport.CopyBinaryStaging? && bounded ==>
                RecentAgrees(recent, st.fileId, files[st.fileId].rows, blockSize)
      ensures var total := BlockCountForLength(st.fileSize, blockSize, false);
              RecentStored(old(recent), recent, st.fileId, total, old(st.truncatePending) || total == 0, old(st.blocks),
                           RecentLimit(total))
      ensures forall key | key in recent && key.0 != st.fileId :: key in old(recent) && recent[key] == old(recent)[key]
    {
      var flushed := st.blocks;
      st.blocks := map[];
      StoreRecentWriteBlocks(st.fileId, st.fileSize, st.truncatePending, flushed);
      if bounded {
        FlushedRecent(transport, l, l.(blocks := flushed), blockSize, b, st.fileSize, st.truncatePending,
                      old(recent), recent, files[st.fileId].rows);
      }
      st.truncatePending, st.bufferedBytes, st.loadError := false, 0, false;
    }

    /** Plans the prepared state and writes its rows. */
    method ExecutePersistPlan(st: WriteState, ghost l: Layers, ghost b: Option<(nat, nat)>, ghost bounded: bool,
                              faults: Faults)
      returns (ok: bool)
      requires Sized(st) && st.fileSize <= U64_MAX
      requires LayersOf(st.fileId, st.blocks) == l.(blocks := st.blocks)
      requires Prepared(l, LayersOf(st.fileId, st.blocks), blockSize, b)
      requires RecentAgrees(l.recent, l.file, l.rows, blockSize)
      requires bounded && !st.truncatePending ==> ZeroFrom(l.rows, blockSize, st.fileSize)
      modifies this`files
      ensures ok <==> !faults.persist
      ensures !ok ==> files == old(files)
      ensures ok ==>
                st.fileId in files && files == old(files)[st.fileId := StoredFile(st.fileSize, files[st.fileId].rows)]
      ensures ok ==> FlushedTo(transport, l, blockSize, b, st.fileSize, bounded, files[st.fileId].rows)
    {
      ghost var l1 := LayersOf(st.fileId, st.blocks);
      var total, rows := PreparePersistRows(st.blocks, st.fileSize, st.truncatePending);
      if faults.persist { return false; }
      PersistFileBlocks(st.fileId, st.fileSize, total, st.truncatePending, rows);
      FlushedRows(transport, l, l1, blockSize, b, st.fileSize, st.truncatePending, bounded, rows,
                  files[st.fileId].rows);
      return true;
    }

    method PreparePersistRows(blocks: BlockMap, fileSize: nat, truncatePending: bool)
      returns (total: nat, rows: seq<PersistRow>)
      requires blockSize >= 1 && Fits(blocks, blockSize) && fileSize <= U64_MAX
      ensures total == BlockCountForLength(fileSize, blockSize, false)
      ensures RowsAscend(rows) && DirtyRows(blocks, blockSize, fileSize, rows)
      ensures forall r | r in rows :: r.index < total
    {
      var dirty := DirtyIndices(blocks);
      var plan := ChoosePersistExecutionPlan(fileSize, blockSize, truncatePending, dirty);
      total, rows := plan.totalBlocks, PersistRows(blocks, plan.blocks);
      PersistRowsForPlan(blocks, plan.blocks);
      PersistRowsAscend(blocks, plan.blocks);
      PlannedRows(blocks, blockSize, fileSize, plan, dirty, rows);
    }

    method DirtyIndices(blocks: BlockMap) returns (keys: seq<nat>)
      ensures forall i :: i in keys <==> i in blocks
    {
      keys := [];
      var todo := blocks.Keys;
      while todo != {}
        invariant forall i :: i in blocks <==> i in keys || i in todo
        invariant forall i :: i in keys ==> i !in todo
        decreases |todo|
      {
        var i :| i in todo;
        keys, todo := keys + [i], todo - {i};
      }
    }

    /** A truncating flush that ends inside an existing block cuts that block short. */
    predicate LeavesShortTail(st: WriteState)
      requires blockSize >= 1 && st.fileId in files
      reads this, st
    {
      && st.truncatePending && (st.bufferedBytes > 0 || st.blocks != map[] || files[st.fileId].size >= st.fileSize)
      && EndsInside(LayersOf(st.fileId, st.blocks), blockSize, st.fileSize)
    }

    /** The stored rows end with the state, or the flush deletes those that do not. */
    ghost predicate NothingPast(st: WriteState)
      requires st.fileId in files
      reads this, st
    {
      st.truncatePending || ZeroFrom(files[st.fileId].rows, blockSize, st.fileSize)
    }

    /** Where the flush of this state cuts a block, if anywhere. */
    function FlushBoundary(st: WriteState): Option<(nat, nat)>
      requires blockSize >= 1 && st.fileId in files
      reads this, st
    {
      if !st.truncatePending then None
      else Boundary(st.bufferedBytes > 0 || st.blocks != map[], files[st.fileId].size, st.fileSize, blockSize)
    }
  }

  /** The recent copy of the block a file ends in ends where the file does. */
  predicate TailIsShort(recent: RecentMap, file: nat, bs: nat, size: nat)
    requires bs >= 1
  {
    (file, BlockOf(size, bs)) in recent && |recent[(file, BlockOf(size, bs))]| == OffsetIn(size, bs)
  }

  /** The size falls inside a block that exists in some layer. */
  predicate EndsInside(l: Layers, bs: nat, size: nat)
    requires bs >= 1
  {
    OffsetIn(size, bs) != 0 && Lookup(l, bs, BlockOf(size, bs)).Some?
  }

  /** Whether the flush has a row to write for block `i`. */
  predicate DirtyAt(l: Layers, bs: nat, b: Option<(nat, nat)>, i: nat) {
    i in l.blocks || (b.Some? && i == b.value.0 && Lookup(l, bs, i).Some?)
  }

  /** The direct transports delete the row of a dirty block the file ends inside of. */
  predicate LosesTail(t: Transport, l: Layers, bs: nat, b: Option<(nat, nat)>, size: nat, i: nat)
    requires bs >= 1
  {
    !t.CopyBinaryStaging? && OffsetIn(size, bs) != 0 && i == BlockOf(size, bs) && DirtyAt(l, bs, b, i)
  }

  /** The byte the store holds after a flush. */
  function PersistedByte(t: Transport, l: Layers, bs: nat, b: Option<(nat, nat)>, size: nat, i: nat, k: nat): byte
    requires bs >= 1
  {
    if LosesTail(t, l, bs, b, size, i) then 0 else FlushedByte(l, bs, b, size, i, k)
  }

  /** The rows hold the flushed bytes of every block of the file, and beyond it nothing, if nothing was there. */
  ghost predicate FlushedTo(t: Transport, l: Layers, bs: nat, b: Option<(nat, nat)>, size: nat, bounded: bool,
                            rows: BlockMap)
    requires bs >= 1
  {
    forall i: nat, k: nat | k < bs && (bounded || i < BlockCountForLength(size, bs, false)) ::
      RowByte(rows, i, k) == PersistedByte(t, l, bs, b, size, i, k)
  }

  /** The store holds the flushed file exactly when the transport keeps partial blocks, the
      file ends on a block boundary, its last block was not flushed, or that block is zero. */
  lemma StoreKeepsFlushIff(t: Transport, l: Layers, bs: nat, b: Option<(nat, nat)>, size: nat)
    requires bs >= 1
    ensures (forall i: nat, k: nat | k < bs ::
               PersistedByte(t, l, bs, b, size, i, k) == FlushedByte(l, bs, b, size, i, k))
            <==> t.CopyBinaryStaging? || OffsetIn(size, bs) == 0 || !DirtyAt(l, bs, b, BlockOf(size, bs))
                 || forall k: nat | k < bs :: CutByte(l, bs, b, BlockOf(size, bs), k) == 0
  {
    var tail := BlockOf(size, bs);
    TailBlock(bs, size, tail);
    if LosesTail(t, l, bs, b, size, tail) {
      if k: nat :| k < bs && CutByte(l, bs, b, tail, k) != 0 {
        assert PersistedByte(t, l, bs, b, size, tail, k) != FlushedByte(l, bs, b, size, tail, k);
      }
    }
  }

  /** A concrete loss: two bytes written to an empty file with four-byte blocks. */
  lemma DirectTransportDropsPartialBlock()
    ensures var l := Layers(7, map[0 := [1, 2, 0, 0]], map[], map[]);
            FlushedByte(l, 4, None, 2, 0, 0) == 1 && PersistedByte(BinaryBytea, l, 4, None, 2, 0, 0) == 0
  {
  }

  /** The rows prepared from a plan are the dirty blocks inside the file. */
  ghost predicate DirtyRows(blocks: BlockMap, bs: nat, size: nat, rows: seq<PersistRow>) {
    && (forall i: nat :: RowListed(rows, i) <==> i in blocks && i < BlockCountForLength(size, bs, false))
    && (forall r | r in rows :: r.index in blocks && r.data == blocks[r.index]
          && r.usedLen == Min(SatSub(size, Start(r.index, bs)), bs))
  }

  lemma PlannedRows(blocks: BlockMap, bs: nat, size: nat, plan: ExecutionPlan, dirty: seq<nat>, rows: seq<PersistRow>)
    requires PlanOf(plan.blocks, size, bs, dirty) && forall i :: i in dirty <==> i in blocks
    requires RowsForPlan(rows, blocks, plan.blocks)
    ensures DirtyRows(blocks, bs, size, rows)
    ensures forall r | r in rows :: r.index < BlockCountForLength(size, bs, false)
  {
  }

  ghost predicate RowsPersisted(t: Transport, bs: nat, size: nat, truncate: bool, rows: seq<PersistRow>,
                                before: BlockMap, after: BlockMap) {
    var total := BlockCountForLength(size, bs, false);
    && (forall r, k: nat | r in rows && k < bs :: RowByte(after, r.index, k) == StoredByte(t, bs, r, k))
    && (forall i: nat, k: nat | !RowListed(rows, i) ::
          RowByte(after, i, k) == if (truncate || CoversFullFile(rows, size, total)) && i >= total then 0
                                  else RowByte(before, i, k))
  }

  /** What the store holds once the planned rows are in. */
  lemma FlushedRows(t: Transport, l: Layers, l1: Layers, bs: nat, b: Option<(nat, nat)>, size: nat, truncate: bool,
                    bounded: bool, rows: seq<PersistRow>, after: BlockMap)
    requires bs >= 1 && Prepared(l, l1, bs, b) && l1 == l.(blocks := l1.blocks)
    requires RecentAgrees(l.recent, l.file, l.rows, bs)
    requires DirtyRows(l1.blocks, bs, size, rows) && RowsPersisted(t, bs, size, truncate, rows, l.rows, after)
    requires bounded && !truncate ==> ZeroFrom(l.rows, bs, size)
    ensures FlushedTo(t, l, bs, b, size, bounded, after)
  {
    forall i: nat, k: nat | k < bs && (bounded || i < BlockCountForLength(size, bs, false))
      ensures RowByte(after, i, k) == PersistedByte(t, l, bs, b, size, i, k)
    {
      FlushedRowByte(t, l, l1, bs, b, size, truncate, bounded, rows, after, i, k);
    }
  }

  lemma FlushedRowByte(t: Transport, l: Layers, l1: Layers, bs: nat, b: Option<(nat, nat)>, size: nat, truncate: bool,
                       bounded: bool, rows: seq<PersistRow>, after: BlockMap, i: nat, k: nat)
    requires bs >= 1 && k < bs && Prepared(l, l1, bs, b) && l1 == l.(blocks := l1.blocks)
    requires RecentAgrees(l.recent, l.file, l.rows, bs)
    requires DirtyRows(l1.blocks, bs, size, rows) && RowsPersisted(t, bs, size, truncate, rows, l.rows, after)
    requires bounded && !truncate ==> ZeroFrom(l.rows, bs, size)
    requires bounded || i < BlockCountForLength(size, bs, false)
    ensures RowByte(after, i, k) == PersistedByte(t, l, bs, b, size, i, k)
  {
    var total := BlockCountForLength(size, bs, false);
    BelowSize(i, k, bs, size);
    TailBlock(bs, size, i);
    assert LayerByte(l1, bs, i, k) == CutByte(l, bs, b, i, k);
    LayerByteOverStore(l1, bs, i, k);
    assert i in l1.blocks <==> DirtyAt(l, bs, b, i);
    if i < total && i in l1.blocks {
      assert RowListed(rows, i);
      var r :| r in rows && r.index == i;
      assert RowByte(after, r.index, k) == StoredByte(t, bs, r, k);
    } else {
      assert !RowListed(rows, i);
      if i >= total && !truncate { assert RowByte(l.rows, i, k) == 0; }
    }
  }

  /** Only the last block of a file can be partly used. */
  lemma TailBlock(bs: nat, size: nat, i: nat)
    requires bs >= 1
    ensures i < BlockCountForLength(size, bs, false) ==>
              (Min(SatSub(size, Start(i, bs)), bs) < bs <==> OffsetIn(size, bs) != 0 && i == BlockOf(size, bs))
    ensures OffsetIn(size, bs) != 0 && i == BlockOf(size, bs) ==> i < BlockCountForLength(size, bs, false)
  {
    if i < BlockCountForLength(size, bs, false) {
      if size < Start(i, bs) + bs {
        BelowSize(i, bs - 1, bs, size);
      }
    }
    if OffsetIn(size, bs) != 0 && i == BlockOf(size, bs) { BelowSize(i, 0, bs, size); }
  }

  lemma FlushedRecent(t: Transport, l: Layers, l1: Layers, bs: nat, b: Option<(nat, nat)>, size: nat, truncate: bool,
                      before: RecentMap, recent: RecentMap, after: BlockMap)
    requires bs >= 1 && Prepared(l, l1, bs, b) && l1 == l.(blocks := l1.blocks)
    requires RecentAgrees(before, l.file, l.rows, bs) && (l.recent == before || l.recent == map[])
    requires FlushedTo(t, l, bs, b, size, true, after)
    requires !truncate ==> ZeroFrom(l.rows, bs, size)
    requires var total := BlockCountForLength(size, bs, false);
             RecentMerged(before, recent, l.file, total, truncate || total == 0, l1.blocks)
    ensures t.CopyBinaryStaging? ==> RecentAgrees(recent, l.file, after, bs)
  {
    if !t.CopyBinaryStaging? { return; }
    var total := BlockCountForLength(size, bs, false);
    forall i: nat, k: nat | (l.file, i) in recent && k < bs
      ensures ByteIn(recent[(l.file, i)], k) == RowByte(after, i, k)
    {
      BelowSize(i, k, bs, size);
      assert RowByte(after, i, k) == FlushedByte(l, bs, b, size, i, k);
      assert LayerByte(l1, bs, i, k) == CutByte(l, bs, b, i, k);
      LayerByteOverStore(l1, bs, i, k);
      if i in l1.blocks && i < total {
        assert recent[(l.file, i)] == l1.blocks[i];
      } else {
        assert recent[(l.file, i)] == before[(l.file, i)];
        assert ByteIn(before[(l.file, i)], k) == RowByte(l.rows, i, k);
        if i >= total { assert !truncate; assert RowByte(l.rows, i, k) == 0; }
      }
    }
  }

  /** The layers after the boundary repair: the cut bytes are zero, every other byte is
      as before, and at most the cut block became dirty. */
  ghost predicate Prepared(l: Layers, l': Layers, bs: nat, b: Option<(nat, nat)>) {
    && Cut(l, l', bs, b)
    && l'.blocks.Keys == l.blocks.Keys + if b.Some? && Lookup(l, bs, b.value.0).Some? then {b.value.0} else {}
  }

  lemma LastBlockStart(i: nat, last: nat, bs: nat, end: nat)
    requires bs >= 1 && i <= last && last == BlockOf(SatSub(end, 1), bs)
    ensures Start(i, bs) <= SatSub(end, 1) && i <= end
    ensures Start(i + 1, bs) == Start(i, bs) + bs
  {
  }

  lemma FirstBlockEnd(first: nat, bs: nat, offset: nat)
    requires bs >= 1 && first == BlockOf(offset, bs)
    ensures Start(first, bs) <= offset < Start(first, bs) + bs
  {
  }

  lemma SplicedBytes(l: Layers, bs: nat, size: nat, i: nat, start: nat, off: nat, end: nat, data: seq<byte>,
                     cursor: nat, from: nat, to: nat, base: Block, block: Block)
    requires start == Start(i, bs) && end <= off + |data|
    requires Max(off, start) < Min(end, start + bs) && cursor == Max(off, start) - off
    requires from == Max(off, start) - start && to == Min(end, start + bs) - start
    requires forall k: nat | k < bs && !(from <= k < to) ::
               ByteIn(base, k) == if from == 0 && start >= size && i !in l.blocks then 0 else LayerByte(l, bs, i, k)
    requires block == Splice(Resize(base, bs), from, data[cursor..cursor + (to - from)])
    ensures forall k: nat | k < bs :: block[k] == WrittenByte(l, bs, size, off, end, data, i, k)
  {
  }

  /** Blocks `first..i` hold the written bytes; the others are as they were. */
  ghost predicate SplicedUpTo(l: Layers, l': Layers, bs: nat, size: nat, off: nat, end: nat, data: seq<byte>,
                              first: nat, i: nat)
    requires end <= off + |data|
  {
    forall j: nat, k: nat | k < bs ::
      LayerByte(l', bs, j, k) ==
      if first <= j < i then WrittenByte(l, bs, size, off, end, data, j, k) else LayerByte(l, bs, j, k)
  }

  lemma SpliceOne(l: Layers, l': Layers, bs: nat, size: nat, off: nat, end: nat, data: seq<byte>, first: nat, i: nat,
                  block: Block)
    requires end <= off + |data| && first <= i && |block| == bs
    requires SplicedUpTo(l, l', bs, size, off, end, data, first, i)
    requires i in l'.blocks <==> i in l.blocks
    requires forall k: nat | k < bs :: block[k] == WrittenByte(l', bs, size, off, end, data, i, k)
    ensures SplicedUpTo(l, l'.(blocks := l'.blocks[i := block]), bs, size, off, end, data, first, i + 1)
  {
  }

  lemma SkipOne(l: Layers, l': Layers, bs: nat, size: nat, off: nat, end: nat, data: seq<byte>, first: nat, i: nat)
    requires end <= off + |data| && end <= U64_MAX && first <= i
    requires Max(off, Start(i, bs)) >= Min(end, SatAdd(Start(i, bs), bs))
    requires SplicedUpTo(l, l', bs, size, off, end, data, first, i)
    ensures SplicedUpTo(l, l', bs, size, off, end, data, first, i + 1)
  {
  }

  lemma UntouchedByte(l: Layers, bs: nat, size: nat, off: nat, end: nat, data: seq<byte>, j: nat, k: nat)
    requires bs >= 1 && end <= off + |data| && k < bs
    requires j < BlockOf(off, bs) || j > BlockOf(SatSub(end, 1), bs)
    ensures WrittenByte(l, bs, size, off, end, data, j, k) == LayerByte(l, bs, j, k)
  {
    if j < BlockOf(off, bs) {
      BlocksAreOrdered(j, BlockOf(off, bs), bs);
    } else {
      BlocksAreOrdered(BlockOf(SatSub(end, 1), bs), j, bs);
    }
  }

  /** No byte of a block outside `first..last` is in the written range. */
  lemma UntouchedBlocks(l: Layers, l': Layers, bs: nat, size: nat, off: nat, end: nat, data: seq<byte>, first: nat,
                        last: nat, i: nat)
    requires bs >= 1 && end <= off + |data| && first == BlockOf(off, bs) && last == BlockOf(SatSub(end, 1), bs)
    requires i > last && SplicedUpTo(l, l', bs, size, off, end, data, first, i)
    ensures Written(l, l', bs, size, off, end, data)
  {
    forall j: nat, k: nat | k < bs
      ensures LayerByte(l', bs, j, k) == WrittenByte(l, bs, size, off, end, data, j, k)
    {
      if !(first <= j < i) { UntouchedByte(l, bs, size, off, end, data, j, k); }
    }
  }
}
