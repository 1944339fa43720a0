/** The file callbacks of one open handle: what each does to the bytes the handle shows. */
module FileOps {
  import opened Bytes
  import opened PersistPlan
  import opened Layers
  import opened WriteBuffer
  import opened CopyPlan
  import opened ReadPath

  /** The store and the recent map of a file agree, and nothing is stored past its end. */
  ghost predicate Coherent(fuse: FodFuse, file: nat)
    reads fuse
  {
    && fuse.blockSize >= 1 && fuse.transport.CopyBinaryStaging?
    && file in fuse.files && fuse.files[file].size <= U64_MAX
    && RecentFits(fuse.recent, fuse.blockSize)
    && RecentAgrees(fuse.recent, file, fuse.files[file].rows, fuse.blockSize)
    && ZeroFrom(fuse.files[file].rows, fuse.blockSize, fuse.files[file].size)
  }

  /** A state at least as large as the stored file, with nothing buffered past its end. */
  ghost predicate StateFits(v: StateValue, file: nat, stored: nat, bs: nat) {
    && v.fileId == file && !v.truncatePending && !v.loadError
    && stored <= v.fileSize <= U64_MAX
    && Fits(v.blocks, bs) && ZeroFrom(v.blocks, bs, v.fileSize)
  }

  /** A state between callbacks: without buffered changes it has the stored size. */
  ghost predicate StateOk(v: StateValue, file: nat, stored: nat, bs: nat) {
    && StateFits(v, file, stored, bs)
    && (v.bufferedBytes == 0 && v.blocks == map[] ==> v.fileSize == stored)
  }

  ghost predicate HandleInv(fuse: FodFuse, fh: nat, file: nat)
    reads fuse
  {
    && Coherent(fuse, file)
    && (fh in fuse.writeStates ==> StateOk(fuse.writeStates[fh], file, fuse.files[file].size, fuse.blockSize))
  }

  ghost predicate OthersKept(before: map<nat, StateValue>, after: map<nat, StateValue>, fh: nat) {
    forall g | g != fh :: (g in before <==> g in after) && (g in before ==> before[g] == after[g])
  }

  /** What a reader of the handle sees: its buffered state over the mount's layers. */
  function Contents(fuse: FodFuse, fh: nat, file: nat): seq<byte>
    requires fuse.blockSize >= 1 && file in fuse.files
    reads fuse
  {
    if fh in fuse.writeStates
    then View(fuse.LayersOf(file, fuse.writeStates[fh].blocks), fuse.blockSize, fuse.writeStates[fh].fileSize)
    else View(fuse.LayersOf(file, map[]), fuse.blockSize, fuse.files[file].size)
  }

  /** What a handle sees: its buffered state if it has one, its layers and its size; and the size of
      the stored file. */
  datatype HandleView = HandleView(state: Option<StateValue>, layers: Layers, size: nat, stored: nat)

  function ViewOf(fuse: FodFuse, fh: nat, file: nat): HandleView
    requires file in fuse.files
    reads fuse
  {
    var stored := fuse.files[file].size;
    if fh in fuse.writeStates
    then HandleView(Some(fuse.writeStates[fh]), fuse.LayersOf(file, fuse.writeStates[fh].blocks),
                    fuse.writeStates[fh].fileSize, stored)
    else HandleView(None, fuse.LayersOf(file, map[]), stored, stored)
  }

  /** The invariant puts no nonzero byte at or past the end of file in any layer. */
  lemma EveryLayerIsZeroPastEof(fuse: FodFuse, fh: nat, file: nat)
    requires HandleInv(fuse, fh, file)
    ensures forall i: nat, k: nat | k < fuse.blockSize && Start(i, fuse.blockSize) + k >= |Contents(fuse, fh, file)| ::
              && RowByte(fuse.files[file].rows, i, k) == 0
              && ((file, i) in fuse.recent ==> ByteIn(fuse.recent[(file, i)], k) == 0)
              && (fh in fuse.writeStates ==> RowByte(fuse.writeStates[fh].blocks, i, k) == 0)
  {
  }

  lemma StateLayersZero(fuse: FodFuse, v: StateValue, file: nat)
    requires Coherent(fuse, file) && StateFits(v, file, fuse.files[file].size, fuse.blockSize)
    ensures LayersZeroFrom(fuse.LayersOf(file, v.blocks), fuse.blockSize, v.fileSize)
  {
    LayersZero(fuse.LayersOf(file, v.blocks), fuse.blockSize, fuse.files[file].size, v.fileSize);
  }

  /** When the rows hold `target` and the recent blocks agree, so does every view of them. */
  lemma StoreYields(file: nat, rows: BlockMap, recent: RecentMap, bs: nat, target: seq<byte>)
    requires bs >= 1 && RecentAgrees(recent, file, rows, bs)
    requires forall p: nat | p < |target| :: RowByte(rows, BlockOf(p, bs), OffsetIn(p, bs)) == target[p]
    ensures View(Layers(file, map[], recent, rows), bs, |target|) == target
    ensures StoredView(StoredFile(|target|, rows), bs) == target
  {
  }

  /** A flush without a pending truncate leaves the bytes as they were, now in the store. */
  lemma FlushKeepsBytes(l: Layers, bs: nat, size: nat, rows: BlockMap)
    requires bs >= 1 && LayersZeroFrom(l, bs, size)
    requires forall i: nat, k: nat | k < bs :: RowByte(rows, i, k) == FlushedByte(l, bs, None, size, i, k)
    ensures forall p: nat | p < size :: RowByte(rows, BlockOf(p, bs), OffsetIn(p, bs)) == View(l, bs, size)[p]
    ensures ZeroFrom(rows, bs, size)
  {
    forall p: nat | p < size ensures RowByte(rows, BlockOf(p, bs), OffsetIn(p, bs)) == View(l, bs, size)[p] {
      BelowSize(BlockOf(p, bs), OffsetIn(p, bs), bs, size);
    }
    forall i: nat, k: nat | k < bs && Start(i, bs) + k >= size ensures RowByte(rows, i, k) == 0 {
      assert LayerByte(l, bs, i, k) == 0;
    }
  }

  /** Flushes a clone of a buffered state. On success the store alone holds its bytes. */
  method FlushState(fuse: FodFuse, st: WriteState, file: nat, faults: Faults) returns (ok: bool)
    requires Coherent(fuse, file) && StateFits(st.Value(), file, fuse.files[file].size, fuse.blockSize)
    modifies fuse`files, fuse`recent, st
    ensures Coherent(fuse, file)
    ensures !ok ==> fuse.files == old(fuse.files) && fuse.recent == old(fuse.recent) && st.Value() == old(st.Value())
    ensures ok ==> st.Value() == StateValue(file, old(st.fileSize), false, 0, false, map[])
    ensures ok ==> fuse.files[file].size == st.fileSize
    ensures ok ==> StoredView(fuse.files[file], fuse.blockSize)
                   == old(View(fuse.LayersOf(file, st.blocks), fuse.blockSize, st.fileSize))
    ensures ok ==> View(fuse.LayersOf(file, map[]), fuse.blockSize, st.fileSize)
                   == old(View(fuse.LayersOf(file, st.blocks), fuse.blockSize, st.fileSize))
    ensures faults == Faults({}, false, false) ==> ok
  {
    ghost var l, size := fuse.LayersOf(file, st.blocks), st.fileSize;
    StateLayersZero(fuse, st.Value(), file);
    ok := fuse.FlushWriteState(st, faults);
    if ok {
      FlushKeepsBytes(l, fuse.blockSize, size, fuse.files[file].rows);
      StoreYields(file, fuse.files[file].rows, fuse.VisibleRecent(), fuse.blockSize, View(l, fuse.blockSize, size));
    }
  }

  /** How a write callback ended. An unflushed write replied with an error although its
      data stays buffered; a failed one left nothing behind. */
  datatype Outcome = Done | Failed | Unflushed

  /** The handle's state, or the state a first change starts from. */
  function StateOf(fuse: FodFuse, fh: nat, file: nat): StateValue
    requires file in fuse.files
    reads fuse
  {
    if fh in fuse.writeStates then fuse.writeStates[fh]
    else StateValue(file, fuse.files[file].size, false, 0, false, map[])
  }

  /** A write is flushed at once if the buffer reaches the threshold or the file is open elsewhere too. */
  predicate MustFlush(fuse: FodFuse, v: StateValue, len: nat, openHandles: nat) {
    (fuse.flushThreshold > 0 && v.bufferedBytes + len >= fuse.flushThreshold) || openHandles > 1
  }

  /** Loads the handle's state, or makes the state a first change starts from. */
  method StateForUpdate(fuse: FodFuse, fh: nat, file: nat) returns (st: WriteState)
    requires HandleInv(fuse, fh, file)
    ensures fresh(st) && StateOk(st.Value(), file, fuse.files[file].size, fuse.blockSize)
    ensures View(fuse.LayersOf(file, st.blocks), fuse.blockSize, st.fileSize) == Contents(fuse, fh, file)
    ensures st.Value() == StateOf(fuse, fh, file)
  {
    if fh in fuse.writeStates {
      st := new WriteState.Clone(fuse.writeStates[fh]);
    } else {
      st := new WriteState.New(file, fuse.files[file].size, false);
    }
  }

  /** Splices data into a clone and counts it as buffered. */
  method BufferWrite(fuse: FodFuse, st: WriteState, file: nat, offset: nat, data: seq<byte>, faults: set<nat>)
    returns (ok: bool)
    requires Coherent(fuse, file) && StateFits(st.Value(), file, fuse.files[file].size, fuse.blockSize)
    requires data != [] && offset <= U64_MAX
    modifies st
    ensures ok ==> StateOk(st.Value(), file, fuse.files[file].size, fuse.blockSize)
    ensures ok ==>
              st.fileSize == Max(old(st.fileSize), SatAdd(offset, |data|))
              && st.bufferedBytes == old(st.bufferedBytes) + |data|
    ensures ok ==> View(fuse.LayersOf(file, st.blocks), fuse.blockSize, st.fileSize)
                   == BufferedWrite(old(View(fuse.LayersOf(file, st.blocks), fuse.blockSize, st.fileSize)),
                                    offset, data)
    ensures forall i | i in st.blocks && i !in old(st.blocks) :: BlockOf(offset, fuse.blockSize) <= i
    ensures faults == {} ==> ok
  {
    ghost var l, size := fuse.LayersOf(file, st.blocks), st.fileSize;
    StateLayersZero(fuse, st.Value(), file);
    ok := fuse.UpdateWriteBuffer(st, offset, data, faults);
    if ok {
      WrittenView(l, fuse.LayersOf(file, st.blocks), fuse.blockSize, offset, data, size);
      OverlayZero(fuse.LayersOf(file, st.blocks), fuse.blockSize, st.fileSize);
      st.bufferedBytes := st.bufferedBytes + |data|;
    }
  }

  /** The overlay is on top, so it is zero wherever the layers are. */
  lemma OverlayZero(l: Layers, bs: nat, size: nat)
    requires LayersZeroFrom(l, bs, size)
    ensures ZeroFrom(l.blocks, bs, size)
  {
    forall i: nat, k: nat | k < bs && Start(i, bs) + k >= size ensures RowByte(l.blocks, i, k) == 0 {
      assert LayerByte(l, bs, i, k) == 0;
    }
  }

  /** The bytes at `offset` are already those of the write. */
  predicate Repeats(s: seq<byte>, offset: nat, data: seq<byte>)
    requires offset <= U64_MAX
  {
    var end := SatAdd(offset, |data|);
    end <= |s| && s[offset..end] == data
  }

  /** The probe for a write that repeats stored bytes. It never skips one that changes something. */
  method RepeatsStored(fuse: FodFuse, fh: nat, file: nat, offset: nat, data: seq<byte>, faults: Faults)
    returns (same: bool)
    requires HandleInv(fuse, fh, file) && fh !in fuse.writeStates && offset <= U64_MAX
    ensures same <==> faults.loads == {} && Repeats(Contents(fuse, fh, file), offset, data)
    ensures same ==> BufferedWrite(Contents(fuse, fh, file), offset, data) == Contents(fuse, fh, file)
  {
    StoredContents(fuse, fh, file);
    var end := SatAdd(offset, |data|);
    if end > fuse.files[file].size || faults.loads != {} { return false; }
    same := StoredView(fuse.files[file], fuse.blockSize)[offset..end] == data;
    if same { RewriteIsIdentity(Contents(fuse, fh, file), offset, data); }
  }

  /** The write callback of the only handle of a file. A write that repeats stored bytes is
      skipped; otherwise it is buffered, and flushed when the buffer is large or the file
      is open elsewhere. */
  method Write(fuse: FodFuse, fh: nat, file: nat, offset: nat, data: seq<byte>, openHandles: nat, faults: Faults)
    returns (outcome: Outcome)
    requires HandleInv(fuse, fh, file) && offset <= U64_MAX
    modifies fuse
    ensures HandleInv(fuse, fh, file) && fuse.cacheLimit == old(fuse.cacheLimit)
    ensures Contents(fuse, fh, file) ==
            if outcome.Failed? then old(Contents(fuse, fh, file))
            else BufferedWrite(old(Contents(fuse, fh, file)), offset, data)
    ensures faults == Faults({}, false, false) ==> outcome.Done?
    ensures OthersKept(old(fuse.writeStates), fuse.writeStates, fh)
    ensures outcome.Done? && data != [] && MustFlush(fuse, old(StateOf(fuse, fh, file)), |data|, openHandles) ==>
              fh !in fuse.writeStates
    ensures data == [] || (old(fh !in fuse.writeStates) && faults == Faults({}, false, false)
                           && Repeats(old(Contents(fuse, fh, file)), offset, data)) ==>
              fuse.files == old(fuse.files) && fuse.recent == old(fuse.recent)
              && fuse.writeStates == old(fuse.writeStates)
    ensures data != [] && old(fh !in fuse.writeStates) && faults.size ==>
              outcome.Failed? && fuse.writeStates == old(fuse.writeStates)
    ensures outcome.Failed? ==> fuse.files == old(fuse.files) && fuse.recent == old(fuse.recent)
    ensures outcome.Unflushed? ==> MustFlush(fuse, old(StateOf(fuse, fh, file)), |data|, openHandles)
    ensures outcome.Done? && data != [] && !MustFlush(fuse, old(StateOf(fuse, fh, file)), |data|, openHandles)
            && !(old(fh !in fuse.writeStates) && Repeats(old(Contents(fuse, fh, file)), offset, data)) ==>
              && fuse.files == old(fuse.files) && fuse.recent == old(fuse.recent)
              && fh in fuse.writeStates && fuse.writeStates[fh].bufferedBytes > 0
              && forall i | i in fuse.writeStates[fh].blocks && i !in old(StateOf(fuse, fh, file)).blocks ::
                   BlockOf(offset, fuse.blockSize) <= i
  {
    if data == [] { return Done; }
    if fh !in fuse.writeStates {
      if faults.size { return Failed; }
      var same := RepeatsStored(fuse, fh, file, offset, data, faults);
      if same { return Done; }
    }
    outcome := WriteThroughState(fuse, fh, file, offset, data, openHandles, faults);
  }

  method WriteThroughState(fuse: FodFuse, fh: nat, file: nat, offset: nat, data: seq<byte>, openHandles: nat,
                           faults: Faults)
    returns (outcome: Outcome)
    requires HandleInv(fuse, fh, file) && offset <= U64_MAX && data != []
    modifies fuse
    ensures HandleInv(fuse, fh, file) && fuse.cacheLimit == old(fuse.cacheLimit)
    ensures Contents(fuse, fh, file) ==
            if outcome.Failed? then old(Contents(fuse, fh, file))
            else BufferedWrite(old(Contents(fuse, fh, file)), offset, data)
    ensures faults == Faults({}, false, false) ==> outcome.Done?
    ensures OthersKept(old(fuse.writeStates), fuse.writeStates, fh)
    ensures outcome.Done? && data != [] && MustFlush(fuse, old(StateOf(fuse, fh, file)), |data|, openHandles) ==>
              fh !in fuse.writeStates
    ensures outcome.Failed? ==>
              && fuse.files == old(fuse.files) && fuse.recent == old(fuse.recent)
              && fuse.writeStates == old(fuse.writeStates)[fh := old(StateOf(fuse, fh, file))]
    ensures outcome.Unflushed? ==> MustFlush(fuse, old(StateOf(fuse, fh, file)), |data|, openHandles)
    ensures outcome.Done? && data != [] && !MustFlush(fuse, old(StateOf(fuse, fh, file)), |data|, openHandles) ==>
              && fuse.files == old(fuse.files) && fuse.recent == old(fuse.recent)
              && fh in fuse.writeStates && fuse.writeStates[fh].bufferedBytes > 0
              && forall i | i in fuse.writeStates[fh].blocks && i !in old(StateOf(fuse, fh, file)).blocks ::
                   BlockOf(offset, fuse.blockSize) <= i
  {
    var st := StateForUpdate(fuse, fh, file);
    var before := st.Value();
    var ok := BufferWrite(fuse, st, file, offset, data, faults.loads);
    if !ok {
      fuse.writeStates := fuse.writeStates[fh := before];
      return Failed;
    }
    outcome := Done;
    if (fuse.flushThreshold > 0 && st.bufferedBytes >= fuse.flushThreshold) || openHandles > 1 {
      ok := FlushState(fuse, st, file, faults);
      outcome := if ok then Done else Unflushed;
    }
    if st.HasPendingChanges() {
      fuse.writeStates := fuse.writeStates[fh := st.Value()];
    } else {
      fuse.writeStates := fuse.writeStates - {fh};
    }
  }

  /** Without a buffered state the handle shows the stored bytes. */
  lemma StoredContents(fuse: FodFuse, fh: nat, file: nat)
    requires HandleInv(fuse, fh, file) && fh !in fuse.writeStates
    ensures Contents(fuse, fh, file) == StoredView(fuse.files[file], fuse.blockSize)
  {
  }

  lemma RewriteIsIdentity(s: seq<byte>, offset: nat, data: seq<byte>)
    requires offset + |data| <= |s| <= U64_MAX && s[offset..offset + |data|] == data
    ensures BufferedWrite(s, offset, data) == s
  {
  }

  /** A truncate to `size` cuts an existing block, and the recent map has room for the whole file. */
  predicate CutsIntoRecent(fuse: FodFuse, v: StateValue, file: nat, size: nat)
    requires fuse.blockSize >= 1 && file in fuse.files
    reads fuse
  {
    && fuse.recent == map[] && fuse.cacheLimit > 0 && BlockCountForLength(size, fuse.blockSize, false) <= 256
    && (v.bufferedBytes > 0 || v.blocks != map[] || fuse.files[file].size >= size)
    && EndsInside(fuse.LayersOf(file, v.blocks), fuse.blockSize, size)
  }

  /** `ftruncate` through the handle: set the size and flush with the truncate pending. */
  method Truncate(fuse: FodFuse, fh: nat, file: nat, size: nat, faults: Faults) returns (outcome: Outcome)
    requires HandleInv(fuse, fh, file) && size <= U64_MAX
    modifies fuse
    ensures HandleInv(fuse, fh, file) && fuse.cacheLimit == old(fuse.cacheLimit)
    ensures outcome.Done? ==> Contents(fuse, fh, file) == FTruncate(old(Contents(fuse, fh, file)), size)
    ensures outcome.Done? ==>
              StoredView(fuse.files[file], fuse.blockSize) == Contents(fuse, fh, file) && fh !in fuse.writeStates
    ensures !outcome.Done? ==> Contents(fuse, fh, file) == old(Contents(fuse, fh, file))
    ensures outcome.Done? && old(CutsIntoRecent(fuse, StateOf(fuse, fh, file), file, size)) ==>
              TailIsShort(fuse.recent, file, fuse.blockSize, size)
    ensures faults == Faults({}, false, false) ==> outcome.Done?
  {
    var st := StateForUpdate(fuse, fh, file);
    var ok := TruncateState(fuse, st, file, size, faults);
    if !ok { return Failed; }
    fuse.writeStates := fuse.writeStates - {fh};
    return Done;
  }

  /** Flushes a clone with a truncate to `size` pending. */
  method TruncateState(fuse: FodFuse, st: WriteState, file: nat, size: nat, faults: Faults) returns (ok: bool)
    requires Coherent(fuse, file) && StateOk(st.Value(), file, fuse.files[file].size, fuse.blockSize) && size <= U64_MAX
    modifies fuse`files, fuse`recent, st
    ensures Coherent(fuse, file)
    ensures !ok ==> fuse.files == old(fuse.files) && fuse.recent == old(fuse.recent)
    ensures ok ==> st.Value() == StateValue(file, size, false, 0, false, map[]) && fuse.files[file].size == size
    ensures ok ==> StoredView(fuse.files[file], fuse.blockSize)
                   == FTruncate(old(View(fuse.LayersOf(file, st.blocks), fuse.blockSize, st.fileSize)), size)
    ensures ok ==> View(fuse.LayersOf(file, map[]), fuse.blockSize, size)
                   == FTruncate(old(View(fuse.LayersOf(file, st.blocks), fuse.blockSize, st.fileSize)), size)
    ensures ok && old(CutsIntoRecent(fuse, st.Value(), file, size)) ==>
              TailIsShort(fuse.recent, file, fuse.blockSize, size)
    ensures faults == Faults({}, false, false) ==> ok
  {
    ghost var l, before, stored := fuse.LayersOf(file, st.blocks), st.fileSize, fuse.files[file].size;
    ghost var dirty := st.bufferedBytes > 0 || st.blocks != map[];
    StateLayersZero(fuse, st.Value(), file);
    st.fileSize, st.truncatePending := size, true;
    ok := fuse.FlushWriteState(st, faults);
    if ok {
      TruncatedStore(l, fuse.blockSize, before, stored, dirty, size, fuse.files[file].rows, fuse.VisibleRecent());
    }
  }

  /** The rows a truncating flush leaves hold the old file cut or zero-extended. */
  lemma TruncatedStore(l: Layers, bs: nat, before: nat, stored: nat, dirty: bool, size: nat, rows: BlockMap,
                       recent: RecentMap)
    requires bs >= 1 && LayersZeroFrom(l, bs, before) && (!dirty ==> stored == before)
    requires RecentAgrees(recent, l.file, rows, bs)
    requires forall i: nat, k: nat | k < bs ::
               RowByte(rows, i, k) == FlushedByte(l, bs, Boundary(dirty, stored, size, bs), size, i, k)
    ensures ZeroFrom(rows, bs, size)
    ensures StoredView(StoredFile(size, rows), bs) == FTruncate(View(l, bs, before), size)
    ensures View(Layers(l.file, map[], recent, rows), bs, size) == FTruncate(View(l, bs, before), size)
  {
    TruncateMeansFTruncate(l, bs, before, stored, dirty, size);
    StoreYields(l.file, rows, recent, bs, FTruncate(View(l, bs, before), size));
  }

  /** `fsync`, `flush` and `release`: publish the buffered state, if any. */
  method Fsync(fuse: FodFuse, fh: nat, file: nat, faults: Faults) returns (outcome: Outcome)
    requires HandleInv(fuse, fh, file)
    modifies fuse
    ensures HandleInv(fuse, fh, file) && fuse.cacheLimit == old(fuse.cacheLimit)
    ensures Contents(fuse, fh, file) == old(Contents(fuse, fh, file))
    ensures outcome.Done? ==> StoredView(fuse.files[file], fuse.blockSize) == Contents(fuse, fh, file)
    ensures faults == Faults({}, false, false) ==> outcome.Done?
    ensures fuse.writeStates == if outcome.Done? && fh in old(fuse.writeStates) && HasChanges(old(fuse.writeStates)[fh])
                                then old(fuse.writeStates) - {fh} else old(fuse.writeStates)
    ensures !outcome.Done? ==> fuse.files == old(fuse.files) && fuse.recent == old(fuse.recent)
  {
    if fh !in fuse.writeStates {
      StoredContents(fuse, fh, file);
      return Done;
    }
    var st := StateForUpdate(fuse, fh, file);
    if !st.HasPendingChanges() {
      StoreYields(file, fuse.files[file].rows, fuse.VisibleRecent(), fuse.blockSize,
                  StoredView(fuse.files[file], fuse.blockSize));
      return Done;
    }
    var ok := FlushState(fuse, st, file, faults);
    if !ok { return Failed; }
    fuse.writeStates := fuse.writeStates - {fh};
    return Done;
  }

  /** Any other file's flush may evict recent blocks of this one. */
  method Evict(fuse: FodFuse, fh: nat, file: nat, keys: set<Key>)
    requires HandleInv(fuse, fh, file)
    modifies fuse`recent
    ensures HandleInv(fuse, fh, file) && Contents(fuse, fh, file) == old(Contents(fuse, fh, file))
    ensures forall key :: key in fuse.recent <==> key in old(fuse.recent) && key !in keys
  {
    ghost var v := ViewOf(fuse, fh, file);
    fuse.recent := fuse.recent - keys;
    EvictionKeepsView(v.layers, fuse.blockSize, v.size, fuse.VisibleRecent());
  }

  /** A settings reload; switching the cache off also empties the recent map. */
  method Reload(fuse: FodFuse, fh: nat, file: nat, cacheLimit: nat)
    requires HandleInv(fuse, fh, file)
    modifies fuse`recent, fuse`cacheLimit
    ensures HandleInv(fuse, fh, file) && Contents(fuse, fh, file) == old(Contents(fuse, fh, file))
    ensures fuse.cacheLimit == cacheLimit
    ensures fuse.recent == if cacheLimit == 0 && old(fuse.cacheLimit) > 0 then map[] else old(fuse.recent)
  {
    ghost var v := ViewOf(fuse, fh, file);
    var disabling := fuse.cacheLimit > 0 && cacheLimit == 0;
    fuse.cacheLimit := cacheLimit;
    if disabling { fuse.recent := map[]; }
    EvictionKeepsView(v.layers, fuse.blockSize, v.size, fuse.VisibleRecent());
  }

  // ---------------------------------------------------------------- reading a buffered state

  /** Splits a block range of a state into recent blocks and the span left to the store. */
  method ClassifyBlocks(fuse: FodFuse, st: WriteState, first: nat, last: nat)
    returns (recentBlocks: BlockMap, repoFirst: Option<nat>, repoLast: Option<nat>)
    requires fuse.Sized(st)
    ensures forall i | i in recentBlocks ::
              (st.fileId, i) in fuse.VisibleRecent() && recentBlocks[i] == fuse.VisibleRecent()[(st.fileId, i)]
    ensures repoFirst.Some? <==> repoLast.Some?
    ensures repoFirst.Some? ==> first <= repoFirst.value <= repoLast.value <= last
    ensures forall i: nat | first <= i <= last ::
              i in st.blocks || i in recentBlocks || (repoFirst.Some? && repoFirst.value <= i <= repoLast.value)
    ensures forall i: nat | first <= i <= last && i !in st.blocks && (st.fileId, i) in fuse.VisibleRecent() ::
              i in recentBlocks
  {
    var visible := fuse.VisibleRecent();
    recentBlocks, repoFirst, repoLast := map[], None, None;
    var i := first;
    while i <= last
      invariant first <= i
      invariant forall j | j in recentBlocks :: (st.fileId, j) in visible && recentBlocks[j] == visible[(st.fileId, j)]
      invariant repoFirst.Some? <==> repoLast.Some?
      invariant repoLast.Some? ==> first <= repoFirst.value <= repoLast.value < i && repoLast.value <= last
      invariant forall j: nat | first <= j < i ::
                  j in st.blocks || j in recentBlocks || (repoFirst.Some? && repoFirst.value <= j <= repoLast.value)
      invariant forall j: nat | first <= j < i && j !in st.blocks && (st.fileId, j) in visible :: j in recentBlocks
      decreases last + 1 - i
    {
      if i !in st.blocks {
        if (st.fileId, i) in visible {
          recentBlocks := recentBlocks[i := visible[(st.fileId, i)]];
        } else {
          if repoFirst.None? { repoFirst := Some(i); }
          repoLast := Some(i);
        }
      }
      i := i + 1;
    }
  }

  /** Some block of the range is in no layer but the store, and loading it fails. */
  ghost predicate LoadFails(l: Layers, faults: set<nat>, first: nat, last: nat) {
    exists i: nat | i in faults :: first <= i <= last && i !in l.blocks && (l.file, i) !in l.recent
  }

  /** A read through a state. It returns the bytes of the layered file, except that a
      request inside one block whose copy is too short runs off the end of that copy. */
  method ReadFromWriteState(fuse: FodFuse, st: WriteState, offset: nat, size: nat, faults: set<nat>)
    returns (r: ReadOutcome)
    requires fuse.Sized(st) && st.fileSize <= U64_MAX
    ensures var end := Min(SatAdd(offset, size), st.fileSize);
            && (r.Bytes? ==> r.data == if offset >= st.fileSize then []
                                       else View(fuse.LayersOf(st.fileId, st.blocks), fuse.blockSize,
                                                 st.fileSize)[offset..end])
            && (r.Eio? ==> faults != {}) && !r.Einval?
            && (r.OutOfBounds? ==> ShortBlock(fuse.LayersOf(st.fileId, st.blocks), fuse.blockSize, offset, end))
            && (faults == {} && offset < st.fileSize
                && ShortBlock(fuse.LayersOf(st.fileId, st.blocks), fuse.blockSize, offset, end)
                ==> r.OutOfBounds?)
    ensures var l, first := fuse.LayersOf(st.fileId, st.blocks), BlockOf(offset, fuse.blockSize);
            var last := BlockOf(SatSub(Min(SatAdd(offset, size), st.fileSize), 1), fuse.blockSize);
            && (offset < st.fileSize && LoadFails(l, faults, first, last) ==> r.Eio?)
            && (r.Eio? ==> exists i | i in faults :: first <= i <= last)
  {
    if offset >= st.fileSize { return Bytes([]); }
    var bs, end := fuse.blockSize, Min(SatAdd(offset, size), st.fileSize);
    var first: nat, last: nat := BlockOf(offset, bs), BlockOf(SatSub(end, 1), bs);
    if first == last {
      var block := fuse.LoadWriteBlock(st, first, faults);
      if block.None? { return Eio; }
      if end <= offset { return Bytes([]); }
      var start := Start(first, bs);
      if end - start > |block.value| { return OutOfBounds; }
      OneBlockSlice(fuse.LayersOf(st.fileId, st.blocks), bs, st.fileSize, first, start, offset, end, block.value);
      return Bytes(block.value[offset - start..end - start]);
    }
    var recentBlocks, repoFirst, repoLast := ClassifyBlocks(fuse, st, first, last);
    var repoBlocks: BlockMap := map[];
    if repoFirst.Some? {
      if exists i :: i in faults && repoFirst.value <= i <= repoLast.value { return Eio; }
      var rows := fuse.files[st.fileId].rows;
      repoBlocks := map i | i in rows && repoFirst.value <= i <= repoLast.value :: Resize(rows[i], bs);
    }
    var data := AssembleState(fuse, st, recentBlocks, repoBlocks, first, last, offset, end);
    return Bytes(data);
  }

  /** Whether a one-block request reaches past the end of the block copy it resolves to. */
  predicate ShortBlock(l: Layers, bs: nat, offset: nat, end: nat)
    requires bs >= 1
  {
    var i := BlockOf(offset, bs);
    offset < end && i == BlockOf(SatSub(end, 1), bs)
    && Lookup(l, bs, i).Some? && |Lookup(l, bs, i).value| < end - Start(i, bs)
  }

  lemma OneBlockSlice(l: Layers, bs: nat, size: nat, i: nat, start: nat, offset: nat, end: nat, block: Block)
    requires bs >= 1 && start == Start(i, bs) && start <= offset <= end <= size && end <= start + bs
    requires end - start <= |block|
    requires block == match Lookup(l, bs, i) case None => Resize([], bs) case Some(b) => b
    ensures block[offset - start..end - start] == View(l, bs, size)[offset..end]
  {
    forall q: nat | q < end - offset
      ensures block[offset - start..end - start][q] == View(l, bs, size)[offset..end][q]
    {
      InBlockIsQuotient(offset + q, i, bs);
      assert View(l, bs, size)[offset + q] == LayerByte(l, bs, i, offset + q - start);
    }
  }

  /** Copies every block of the range over a zeroed buffer, clamped to the block copies. */
  method AssembleState(fuse: FodFuse, st: WriteState, recentBlocks: BlockMap, repoBlocks: BlockMap,
                       first: nat, last: nat, offset: nat, end: nat) returns (data: seq<byte>)
    requires fuse.Sized(st) && offset <= end <= st.fileSize
    requires first == BlockOf(offset, fuse.blockSize) && last == BlockOf(SatSub(end, 1), fuse.blockSize)
    requires forall i: nat | first <= i <= last ::
               Chosen(st.blocks, recentBlocks, repoBlocks, i) ==
               Lookup(fuse.LayersOf(st.fileId, st.blocks), fuse.blockSize, i)
    ensures data == View(fuse.LayersOf(st.fileId, st.blocks), fuse.blockSize, st.fileSize)[offset..end]
  {
    var bs := fuse.blockSize;
    ghost var l := fuse.LayersOf(st.fileId, st.blocks);
    var output := new byte[end - offset](_ => 0);
    var i, start := first, Start(first, bs);
    while i <= last
      invariant first <= i && start == Start(i, bs)
      invariant fuse.Sized(st) && l == fuse.LayersOf(st.fileId, st.blocks)
      invariant CopiedUpTo(output[..], l, bs, offset, start)
    {
      var block := Chosen(st.blocks, recentBlocks, repoBlocks, i);
      ghost var before := output[..];
      if block.Some? { CopyOverlap(output, offset, end, start, bs, block.value); }
      CopiedBlock(before, output[..], l, bs, offset, i, start);
      NextStart(i, bs);
      i, start := i + 1, start + bs;
    }
    if offset < end { StartMonotone(last + 1, i, bs); NextStart(last, bs); }
    data := output[..];
    CopiedAll(data, l, bs, offset, end, st.fileSize, start);
  }

  lemma CopiedAll(out: seq<byte>, l: Layers, bs: nat, offset: nat, end: nat, size: nat, upTo: nat)
    requires bs >= 1 && offset <= end <= size && |out| == end - offset && (offset < end ==> end <= upTo)
    requires CopiedUpTo(out, l, bs, offset, upTo)
    ensures out == View(l, bs, size)[offset..end]
  {
  }

  /** The block a read uses: dirty, then recent, then fetched. */
  function Chosen(blocks: BlockMap, recentBlocks: BlockMap, repoBlocks: BlockMap, i: nat): Option<Block> {
    if i in blocks then Some(blocks[i])
    else if i in recentBlocks then Some(recentBlocks[i])
    else if i in repoBlocks then Some(repoBlocks[i])
    else None
  }

  ghost predicate CopiedUpTo(out: seq<byte>, l: Layers, bs: nat, offset: nat, upTo: nat)
    requires bs >= 1
  {
    forall q: nat | q < |out| ::
      out[q] == if offset + q < upTo then LayerByte(l, bs, BlockOf(offset + q, bs), OffsetIn(offset + q, bs)) else 0
  }

  lemma CopiedBlock(before: seq<byte>, after: seq<byte>, l: Layers, bs: nat, offset: nat, i: nat, start: nat)
    requires bs >= 1 && start == Start(i, bs) && |before| == |after| && CopiedUpTo(before, l, bs, offset, start)
    requires forall q: nat | q < |after| ::
               after[q] == match Lookup(l, bs, i)
                           case None => before[q]
                           case Some(b) => if start <= offset + q < start + Min(|b|, bs) then b[offset + q - start]
                                           else before[q]
    ensures CopiedUpTo(after, l, bs, offset, start + bs)
  {
    forall q: nat | q < |after|
      ensures after[q] == if offset + q >= start + bs then 0
                          else LayerByte(l, bs, BlockOf(offset + q, bs), OffsetIn(offset + q, bs))
    {
      InBlockIsQuotient(offset + q, i, bs);
    }
  }

  // ---------------------------------------------------------------- copying into a file

  /** A deduplicating copy through a buffered state compares inside one block whose copy is too short. */
  predicate CopyOverruns(v: HandleView, bs: nat, dst: nat, len: nat)
    requires bs >= 1
  {
    v.state.Some? && dst < v.size && ShortBlock(v.layers, bs, dst, dst + len)
  }

  /** The bytes a copy would overwrite, zero-padded to the copy's length. */
  method CopyDestination(fuse: FodFuse, fh: nat, file: nat, st: WriteState, dst: nat, size: nat, faults: Faults)
    returns (r: ReadOutcome)
    requires HandleInv(fuse, fh, file) && StateOk(st.Value(), file, fuse.files[file].size, fuse.blockSize)
    requires View(fuse.LayersOf(file, st.blocks), fuse.blockSize, st.fileSize) == Contents(fuse, fh, file)
    requires st.Value() == StateOf(fuse, fh, file)
    requires dst + size <= U64_MAX && dst < st.fileSize
    ensures r.Bytes? ==>
              |r.data| == size && forall q: nat | q < size :: r.data[q] == ByteIn(Contents(fuse, fh, file), dst + q)
    ensures !r.Einval? && (r.Eio? ==> faults.loads != {})
    ensures r.OutOfBounds? ==> CopyOverruns(ViewOf(fuse, fh, file), fuse.blockSize, dst, size)
    ensures faults.loads == {} && CopyOverruns(ViewOf(fuse, fh, file), fuse.blockSize, dst, size) ==> r.OutOfBounds?
  {
    if fh in fuse.writeStates {
      var compare := new WriteState.Clone(fuse.writeStates[fh]);
      compare.fileSize := Max(compare.fileSize, dst + size);
      assert Min(SatAdd(dst, size), compare.fileSize) == dst + size;
      r := ReadFromWriteState(fuse, compare, dst, size, faults.loads);
      if r.Bytes? {
        StateLayersZero(fuse, fuse.writeStates[fh], file);
        ZeroExtendedView(fuse.LayersOf(file, st.blocks), fuse.blockSize, st.fileSize, compare.fileSize);
        r := Bytes(Resize(r.data, size));
      }
    } else {
      if faults.loads != {} { return Eio; }
      StoredContents(fuse, fh, file);
      var end := Min(dst + size, fuse.files[file].size);
      r := Bytes(Resize(StoredView(fuse.files[file], fuse.blockSize)[dst..end], size));
    }
  }

  /** Extending the size of zero-ended layers shows zeroes. */
  lemma ZeroExtendedView(l: Layers, bs: nat, size: nat, larger: nat)
    requires bs >= 1 && size <= larger && LayersZeroFrom(l, bs, size)
    ensures View(l, bs, larger) == FTruncate(View(l, bs, size), larger)
  {
  }

  datatype CopyOutcome = Copied | CopyFailed | CopyCrashed

  /** Buffers the changed runs one after the other. */
  method WriteRuns(fuse: FodFuse, st: WriteState, file: nat, runs: seq<Run>, faults: set<nat>) returns (ok: bool)
    requires Coherent(fuse, file) && StateFits(st.Value(), file, fuse.files[file].size, fuse.blockSize)
    requires forall m | 0 <= m < |runs| :: runs[m].1 != [] && runs[m].0 + |runs[m].1| <= st.fileSize
    modifies st
    ensures ok ==> StateFits(st.Value(), file, fuse.files[file].size, fuse.blockSize)
    ensures ok ==> st.fileSize == old(st.fileSize)
    ensures ok ==> View(fuse.LayersOf(file, st.blocks), fuse.blockSize, st.fileSize)
                   == ApplyRuns(old(View(fuse.LayersOf(file, st.blocks), fuse.blockSize, st.fileSize)), runs)
    ensures faults == {} ==> ok
  {
    ghost var view := View(fuse.LayersOf(file, st.blocks), fuse.blockSize, st.fileSize);
    for n := 0 to |runs|
      invariant StateFits(st.Value(), file, fuse.files[file].size, fuse.blockSize) && st.fileSize == old(st.fileSize)
      invariant View(fuse.LayersOf(file, st.blocks), fuse.blockSize, st.fileSize) == ApplyRuns(view, runs[..n])
    {
      ok := BufferWrite(fuse, st, file, runs[n].0, runs[n].1, faults);
      if !ok { return; }
      BufferedWriteIsPWrite(ApplyRuns(view, runs[..n]), runs[n].0, runs[n].1);
      assert runs[..n + 1][..n] == runs[..n];
    }
    assert runs[..|runs|] == runs;
    ok := true;
  }

  /** Extends the size, buffers the changed runs and flushes. */
  method CopyRuns(fuse: FodFuse, st: WriteState, file: nat, size: nat, runs: seq<Run>, faults: Faults)
    returns (ok: bool)
    requires Coherent(fuse, file) && StateFits(st.Value(), file, fuse.files[file].size, fuse.blockSize)
    requires st.fileSize <= size <= U64_MAX
    requires forall m | 0 <= m < |runs| :: runs[m].1 != [] && runs[m].0 + |runs[m].1| <= size
    modifies fuse`files, fuse`recent, st
    ensures Coherent(fuse, file)
    ensures !ok ==> fuse.files == old(fuse.files) && fuse.recent == old(fuse.recent)
    ensures ok ==> st.Value() == StateValue(file, size, false, 0, false, map[]) && fuse.files[file].size == size
    ensures ok ==> View(fuse.LayersOf(file, map[]), fuse.blockSize, size)
                   == ApplyRuns(FTruncate(old(View(fuse.LayersOf(file, st.blocks), fuse.blockSize, st.fileSize)), size),
                                runs)
    ensures faults == Faults({}, false, false) ==> ok
  {
    StateLayersZero(fuse, st.Value(), file);
    ZeroExtendedView(fuse.LayersOf(file, st.blocks), fuse.blockSize, st.fileSize, size);
    st.fileSize := size;
    ok := WriteRuns(fuse, st, file, runs, faults.loads);
    if ok { ok := FlushState(fuse, st, file, faults); }
  }

  /** `copy_file_range` into the handle: with deduplication only the runs that differ are
      written, over a file whose size was extended first. Either way the result is that of
      writing the whole payload. */
  method CopyInto(fuse: FodFuse, fh: nat, file: nat, dst: nat, data: seq<byte>, dedupe: bool, faults: Faults)
    returns (outcome: CopyOutcome)
    requires HandleInv(fuse, fh, file) && data != [] && dst + |data| <= U64_MAX
    modifies fuse
    ensures HandleInv(fuse, fh, file) && fuse.cacheLimit == old(fuse.cacheLimit)
    ensures outcome.Copied? ==> Contents(fuse, fh, file) == PWrite(old(Contents(fuse, fh, file)), dst, data)
    ensures !outcome.Copied? ==> Contents(fuse, fh, file) == old(Contents(fuse, fh, file))
    ensures outcome.CopyCrashed? ==> dedupe && old(CopyOverruns(ViewOf(fuse, fh, file), fuse.blockSize, dst, |data|))
    ensures faults == Faults({}, false, false) ==>
              (outcome.Copied? <==> !(dedupe && old(CopyOverruns(ViewOf(fuse, fh, file), fuse.blockSize, dst, |data|))))
    ensures OthersKept(old(fuse.writeStates), fuse.writeStates, fh)
    ensures old(fh !in fuse.writeStates) && faults.size ==> outcome.CopyFailed?
    ensures !outcome.Copied? ==>
              fuse.files == old(fuse.files) && fuse.recent == old(fuse.recent)
              && fuse.writeStates == old(fuse.writeStates)
    ensures dedupe && faults == Faults({}, false, false) && Repeats(old(Contents(fuse, fh, file)), dst, data) ==>
              fuse.files == old(fuse.files) && fuse.recent == old(fuse.recent)
              && fuse.writeStates == old(fuse.writeStates)
    ensures outcome.Copied? && !dedupe ==>
              fh in fuse.writeStates
              && fuse.writeStates[fh] == StateValue(file, fuse.files[file].size, false, 0, false, map[])
  {
    if fh !in fuse.writeStates && faults.size { return CopyFailed; }
    var st := StateForUpdate(fuse, fh, file);
    var written;
    outcome, written := CopyThroughState(fuse, fh, file, st, dst, data, dedupe, faults);
    if outcome.Copied? && written { fuse.writeStates := fuse.writeStates[fh := st.Value()]; }
  }

  method CopyThroughState(fuse: FodFuse, fh: nat, file: nat, st: WriteState, dst: nat, data: seq<byte>, dedupe: bool,
                          faults: Faults)
    returns (outcome: CopyOutcome, written: bool)
    requires HandleInv(fuse, fh, file) && StateOk(st.Value(), file, fuse.files[file].size, fuse.blockSize)
    requires View(fuse.LayersOf(file, st.blocks), fuse.blockSize, st.fileSize) == Contents(fuse, fh, file)
    requires st.Value() == StateOf(fuse, fh, file)
    requires data != [] && dst + |data| <= U64_MAX
    modifies fuse`files, fuse`recent, st
    ensures Coherent(fuse, file) && (!dedupe ==> written)
    ensures !outcome.Copied? || !written ==> fuse.files == old(fuse.files) && fuse.recent == old(fuse.recent)
    ensures outcome.Copied? && !written ==>
              old(Contents(fuse, fh, file)) == PWrite(old(Contents(fuse, fh, file)), dst, data)
    ensures outcome.Copied? && written ==> st.Value() == StateValue(file, fuse.files[file].size, false, 0, false, map[])
    ensures outcome.Copied? && written ==> View(fuse.LayersOf(file, map[]), fuse.blockSize, st.fileSize)
                                           == PWrite(old(Contents(fuse, fh, file)), dst, data)
    ensures outcome.CopyCrashed? ==> dedupe && old(CopyOverruns(ViewOf(fuse, fh, file), fuse.blockSize, dst, |data|))
    ensures faults.loads == {} && dedupe && old(CopyOverruns(ViewOf(fuse, fh, file), fuse.blockSize, dst, |data|)) ==>
              outcome.CopyCrashed?
    ensures faults == Faults({}, false, false) ==> !outcome.CopyFailed?
    ensures dedupe && faults == Faults({}, false, false) && Repeats(old(Contents(fuse, fh, file)), dst, data) ==>
              !written || !outcome.Copied?
  {
    written := true;
    if dedupe && dst < st.fileSize {
      outcome, written := CopyChangedRuns(fuse, fh, file, st, dst, data, faults);
    } else {
      outcome := CopyWhole(fuse, st, file, dst, data, faults);
    }
  }

  /** Writes the whole payload and flushes. */
  method CopyWhole(fuse: FodFuse, st: WriteState, file: nat, dst: nat, data: seq<byte>, faults: Faults)
    returns (outcome: CopyOutcome)
    requires Coherent(fuse, file) && StateOk(st.Value(), file, fuse.files[file].size, fuse.blockSize)
    requires data != [] && dst + |data| <= U64_MAX
    modifies fuse`files, fuse`recent, st
    ensures Coherent(fuse, file) && !outcome.CopyCrashed?
    ensures !outcome.Copied? ==> fuse.files == old(fuse.files) && fuse.recent == old(fuse.recent)
    ensures outcome.Copied? ==> st.Value() == StateValue(file, fuse.files[file].size, false, 0, false, map[])
    ensures outcome.Copied? ==> View(fuse.LayersOf(file, map[]), fuse.blockSize, st.fileSize)
                                == PWrite(old(View(fuse.LayersOf(file, st.blocks), fuse.blockSize, st.fileSize)),
                                          dst, data)
    ensures faults == Faults({}, false, false) ==> outcome.Copied?
  {
    BufferedWriteIsPWrite(View(fuse.LayersOf(file, st.blocks), fuse.blockSize, st.fileSize), dst, data);
    var ok := BufferWrite(fuse, st, file, dst, data, faults.loads);
    if ok { ok := FlushState(fuse, st, file, faults); }
    outcome := if ok then Copied else CopyFailed;
  }

  lemma RepeatedHasNoRuns(s: seq<byte>, dst: nat, data: seq<byte>, current: seq<byte>, bs: nat)
    requires bs >= 1 && dst + |data| <= U64_MAX && Repeats(s, dst, data) && |current| == |data|
    requires forall q: nat | q < |data| :: current[q] == ByteIn(s, dst + q)
    ensures FlagRuns(ChangeMask(data, current, bs)) == []
  {
    forall q: nat | q < |data| ensures current[q] == data[q] { assert s[dst..dst + |data|][q] == data[q]; }
    assert current == data;
    NoRunsWithoutChange(data, bs);
  }

  /** Compares with the destination and writes only the runs that differ; `written` tells
      whether anything had to be written at all. */
  method CopyChangedRuns(fuse: FodFuse, fh: nat, file: nat, st: WriteState, dst: nat, data: seq<byte>, faults: Faults)
    returns (outcome: CopyOutcome, written: bool)
    requires HandleInv(fuse, fh, file) && StateOk(st.Value(), file, fuse.files[file].size, fuse.blockSize)
    requires View(fuse.LayersOf(file, st.blocks), fuse.blockSize, st.fileSize) == Contents(fuse, fh, file)
    requires st.Value() == StateOf(fuse, fh, file)
    requires data != [] && dst + |data| <= U64_MAX && dst < st.fileSize
    modifies fuse`files, fuse`recent, st
    ensures Coherent(fuse, file)
    ensures !outcome.Copied? || !written ==> fuse.files == old(fuse.files) && fuse.recent == old(fuse.recent)
    ensures outcome.Copied? && !written ==>
              old(Contents(fuse, fh, file)) == PWrite(old(Contents(fuse, fh, file)), dst, data)
    ensures outcome.Copied? && written ==> st.Value() == StateValue(file, fuse.files[file].size, false, 0, false, map[])
    ensures outcome.Copied? && written ==> View(fuse.LayersOf(file, map[]), fuse.blockSize, st.fileSize)
                                           == PWrite(old(Contents(fuse, fh, file)), dst, data)
    ensures outcome.CopyCrashed? ==> old(CopyOverruns(ViewOf(fuse, fh, file), fuse.blockSize, dst, |data|))
    ensures faults.loads == {} && old(CopyOverruns(ViewOf(fuse, fh, file), fuse.blockSize, dst, |data|)) ==>
              outcome.CopyCrashed?
    ensures faults == Faults({}, false, false) ==> !outcome.CopyFailed?
    ensures Repeats(old(Contents(fuse, fh, file)), dst, data) ==> !written || !outcome.Copied?
  {
    ghost var before := Contents(fuse, fh, file);
    written := false;
    var current := CopyDestination(fuse, fh, file, st, dst, |data|, faults);
    if current.OutOfBounds? { return CopyCrashed, false; }
    if current.Eio? { return CopyFailed, false; }
    var runs := PackCopySkipUnchangedRuns(dst, fuse.blockSize, data, current.data);
    SkippingUnchangedRunsIsAWrite(before, dst, fuse.blockSize, data, current.data, runs);
    RunsHaveBytes(data, current.data, dst, fuse.blockSize, runs);
    if Repeats(before, dst, data) { RepeatedHasNoRuns(before, dst, data, current.data, fuse.blockSize); }
    if runs == [] && dst + |data| <= st.fileSize {
      assert FTruncate(before, |before|) == before;
      return Copied, false;
    }
    var ok := CopyRuns(fuse, st, file, Max(st.fileSize, dst + |data|), runs, faults);
    return if ok then Copied else CopyFailed, true;
  }

  /** Shrinking and growing again exposes only zeroes. */
  method ShrinkThenExtend(fuse: FodFuse, fh: nat, file: nat, small: nat, large: nat) returns (outcome: Outcome)
    requires HandleInv(fuse, fh, file) && small <= large <= U64_MAX
    modifies fuse
    ensures HandleInv(fuse, fh, file) && outcome.Done? && |Contents(fuse, fh, file)| == large
    ensures forall p: nat | p < large ::
              Contents(fuse, fh, file)[p] == if p < small then ByteIn(old(Contents(fuse, fh, file)), p) else 0
  {
    var first := Truncate(fuse, fh, file, small, Faults({}, false, false));
    outcome := Truncate(fuse, fh, file, large, Faults({}, false, false));
  }

  /** Growing a clean file exposes zeroes even if the stored block at the old end carries stale
      bytes past it. */
  method ExtendOverStaleTail(fuse: FodFuse, file: nat, size: nat, faults: Faults) returns (ok: bool)
    requires fuse.blockSize >= 1 && fuse.transport.CopyBinaryStaging? && RecentFits(fuse.recent, fuse.blockSize)
    requires file in fuse.files && fuse.files[file].size < size <= U64_MAX
    requires RecentAgrees(fuse.recent, file, fuse.files[file].rows, fuse.blockSize)
    requires forall i: nat, k: nat | k < fuse.blockSize && Start(i, fuse.blockSize) >= fuse.files[file].size ::
               RowByte(fuse.files[file].rows, i, k) == 0
    modifies fuse`files, fuse`recent
    ensures !ok ==> fuse.files == old(fuse.files)
    ensures faults == Faults({}, false, false) ==> ok
    ensures ok ==> Coherent(fuse, file)
    ensures ok ==>
              StoredView(fuse.files[file], fuse.blockSize) ==
              FTruncate(old(StoredView(fuse.files[file], fuse.blockSize)), size)
  {
    var st := new WriteState.New(file, size, true);
    ghost var l, stored := fuse.LayersOf(file, map[]), fuse.files[file];
    forall i: nat, k: nat | k < fuse.blockSize && Start(i, fuse.blockSize) >= stored.size
      ensures LayerByte(l, fuse.blockSize, i, k) == 0
    {
      LayerByteOverStore(l, fuse.blockSize, i, k);
    }
    StoreYields(file, stored.rows, fuse.VisibleRecent(), fuse.blockSize, StoredView(stored, fuse.blockSize));
    ok := fuse.FlushWriteState(st, faults);
    if ok {
      ExtendHidesStaleTail(l, fuse.blockSize, stored.size, size);
      StoreYields(file, fuse.files[file].rows, fuse.VisibleRecent(), fuse.blockSize,
                  FTruncate(View(l, fuse.blockSize, stored.size), size));
    }
  }

  // ---------------------------------------------------------------- two handles

  /** A state without buffered changes shows the file exactly when it has the stored size. */
  lemma CleanStateIsCurrentIff(fuse: FodFuse, fh: nat, file: nat)
    requires Coherent(fuse, file) && fh in fuse.writeStates && fuse.writeStates[fh].blocks == map[]
    ensures Contents(fuse, fh, file) == StoredView(fuse.files[file], fuse.blockSize) <==>
            fuse.writeStates[fh].fileSize == fuse.files[file].size
  {
  }

  lemma AppendIsPWrite(s: seq<byte>, data: seq<byte>)
    requires |s| + |data| <= U64_MAX && data != []
    ensures BufferedWrite(s, |s|, data) == s + data
  {
  }

  /** Growth through one handle does not reach the clean state of another. */
  method AppendPastCleanState(fuse: FodFuse, a: nat, b: nat, file: nat, data: seq<byte>)
    requires HandleInv(fuse, b, file) && a != b && b !in fuse.writeStates && a in fuse.writeStates
    requires data != [] && fuse.files[file].size + |data| <= U64_MAX
    modifies fuse
    ensures HandleInv(fuse, b, file) && b !in fuse.writeStates && a in fuse.writeStates
    ensures fuse.writeStates[a] == old(fuse.writeStates[a])
    ensures Contents(fuse, b, file) == old(Contents(fuse, b, file)) + data
  {
    AppendIsPWrite(Contents(fuse, b, file), data);
    var outcome := Write(fuse, b, file, fuse.files[file].size, data, 2, Faults({}, false, false));
  }

  /** A copy leaves such a state behind, with the size of that moment. When another handle then
      grows the file, the copying handle goes on showing the old length. */
  method CopyLeavesStaleSize(fuse: FodFuse, a: nat, b: nat, file: nat, copied: seq<byte>, appended: seq<byte>)
    requires HandleInv(fuse, a, file) && a != b && a !in fuse.writeStates && b !in fuse.writeStates
    requires copied != [] && appended != [] && |copied| + fuse.files[file].size + |appended| <= U64_MAX
    modifies fuse
    ensures HandleInv(fuse, b, file) && a in fuse.writeStates && b !in fuse.writeStates
    ensures |Contents(fuse, a, file)| < |Contents(fuse, b, file)|
  {
    var outcome := CopyInto(fuse, a, file, 0, copied, false, Faults({}, false, false));
    AppendPastCleanState(fuse, a, b, file, appended);
  }

  /** The right result of a write is lost exactly when the state has another size than the file and
      the write does not reach the larger of the two. */
  predicate SizeGoesWrong(size: nat, stored: nat, end: nat) {
    size != stored && end < Max(size, stored)
  }

  lemma ResizedWrite(s: seq<byte>, off: nat, data: seq<byte>, size: nat)
    requires data != [] && off <= U64_MAX
    ensures var end := SatAdd(off, |data|);
            FTruncate(BufferedWrite(s, off, data), Max(size, end)) == BufferedWrite(s, off, data) <==>
            !SizeGoesWrong(size, |s|, end)
  {
    var end, written := SatAdd(off, |data|), BufferedWrite(s, off, data);
    assert |written| == Max(|s|, end);
    if Max(size, end) == |written| { assert FTruncate(written, |written|) == written; }
  }

  /** A write through a state without buffered changes, on a file that is open elsewhere too. The state's
      size decides: the file becomes the right one cut or zero-extended to it, or to the end of the
      write if that is larger, without any truncate. */
  method WriteThroughCleanState(fuse: FodFuse, fh: nat, file: nat, offset: nat, data: seq<byte>, faults: Faults)
    returns (ok: bool)
    requires Coherent(fuse, file) && fh in fuse.writeStates && fuse.writeStates[fh].fileSize <= U64_MAX
    requires fuse.writeStates[fh] == StateValue(file, fuse.writeStates[fh].fileSize, false, 0, false, map[])
    requires data != [] && offset <= U64_MAX
    modifies fuse`files, fuse`recent, fuse`writeStates
    ensures file in fuse.files && (!ok ==> fuse.files == old(fuse.files))
    ensures ok ==> fuse.writeStates == old(fuse.writeStates) - {fh}
    ensures !ok ==> OthersKept(old(fuse.writeStates), fuse.writeStates, fh) && fh in fuse.writeStates
                    && (fuse.writeStates[fh].bufferedBytes == |data|
                        || (faults.loads != {} && fuse.writeStates[fh] == old(fuse.writeStates)[fh]))
    ensures ok ==> StoredView(fuse.files[file], fuse.blockSize) ==
                   FTruncate(BufferedWrite(old(StoredView(fuse.files[file], fuse.blockSize)), offset, data),
                             Max(old(fuse.writeStates)[fh].fileSize, SatAdd(offset, |data|)))
    ensures ok ==> (StoredView(fuse.files[file], fuse.blockSize) ==
                      BufferedWrite(old(StoredView(fuse.files[file], fuse.blockSize)), offset, data) <==>
                    !SizeGoesWrong(old(fuse.writeStates)[fh].fileSize, old(fuse.files)[file].size,
                                   SatAdd(offset, |data|)))
    ensures faults == Faults({}, false, false) ==> ok
  {
    var st := new WriteState.Clone(fuse.writeStates[fh]);
    ResizedWrite(StoredView(fuse.files[file], fuse.blockSize), offset, data, st.fileSize);
    var buffered;
    ok, buffered := StoreThroughCleanState(fuse, st, file, offset, data, faults);
    if ok {
      fuse.writeStates := fuse.writeStates - {fh};
    } else if buffered {
      fuse.writeStates := fuse.writeStates[fh := st.Value()];
    }
  }

  /** Buffers the write in a clone of such a state and flushes it. */
  method StoreThroughCleanState(fuse: FodFuse, st: WriteState, file: nat, offset: nat, data: seq<byte>, faults: Faults)
    returns (ok: bool, buffered: bool)
    requires Coherent(fuse, file) && st.fileSize <= U64_MAX && data != [] && offset <= U64_MAX
    requires st.Value() == StateValue(file, st.fileSize, false, 0, false, map[])
    modifies fuse`files, fuse`recent, st
    ensures file in fuse.files && (!ok ==> fuse.files == old(fuse.files))
    ensures !ok ==> if buffered then st.bufferedBytes == |data| else faults.loads != {}
    ensures ok ==> StoredView(fuse.files[file], fuse.blockSize) ==
                   FTruncate(BufferedWrite(old(StoredView(fuse.files[file], fuse.blockSize)), offset, data),
                             Max(old(st.fileSize), SatAdd(offset, |data|)))
    ensures faults == Faults({}, false, false) ==> ok
  {
    ghost var l, size, stored := fuse.LayersOf(file, map[]), st.fileSize, fuse.files[file];
    LayersZero(l, fuse.blockSize, stored.size, stored.size);
    StoreYields(file, stored.rows, fuse.VisibleRecent(), fuse.blockSize, StoredView(stored, fuse.blockSize));
    buffered := fuse.UpdateWriteBuffer(st, offset, data, faults.loads);
    if !buffered { return false, false; }
    ghost var l1, after := fuse.LayersOf(file, st.blocks), st.fileSize;
    WrittenThroughAnySize(l, l1, fuse.blockSize, offset, data, size, stored.size);
    st.bufferedBytes := |data|;
    ok := fuse.FlushWriteState(st, faults);
    if ok { FlushedView(l1, fuse.blockSize, after, fuse.files[file].rows); }
  }

  /** The stored bytes below the size are those of the flushed layers. */
  lemma FlushedView(l: Layers, bs: nat, size: nat, rows: BlockMap)
    requires bs >= 1 && FlushedTo(CopyBinaryStaging, l, bs, None, size, false, rows)
    ensures StoredView(StoredFile(size, rows), bs) == View(l, bs, size)
  {
    forall p: nat | p < size ensures RowByte(rows, BlockOf(p, bs), OffsetIn(p, bs)) == View(l, bs, size)[p] {
      BelowSize(BlockOf(p, bs), OffsetIn(p, bs), bs, size);
    }
  }

  /** So a short write through the copying handle sets the file back to the length of the copy, and
      what the other handle appended is lost. */
  method StaleWriteLosesAppend(fuse: FodFuse, a: nat, b: nat, file: nat, copied: seq<byte>, appended: seq<byte>,
                               patch: seq<byte>)
    returns (grown: seq<byte>)
    requires HandleInv(fuse, a, file) && a != b && a !in fuse.writeStates && b !in fuse.writeStates
    requires copied != [] && appended != [] && |copied| + fuse.files[file].size + |appended| <= U64_MAX
    requires 0 < |patch| <= |copied|
    modifies fuse
    ensures file in fuse.files
    ensures grown == PWrite(old(Contents(fuse, a, file)), 0, copied) + appended
    ensures StoredView(fuse.files[file], fuse.blockSize) ==
            PWrite(PWrite(old(Contents(fuse, a, file)), 0, copied), 0, patch)
  {
    var outcome := CopyInto(fuse, a, file, 0, copied, false, Faults({}, false, false));
    ghost var whole := Contents(fuse, a, file);
    AppendPastCleanState(fuse, a, b, file, appended);
    StoredContents(fuse, b, file);
    grown := StoredView(fuse.files[file], fuse.blockSize);
    var ok := WriteThroughCleanState(fuse, a, file, 0, patch, Faults({}, false, false));
    CutAppend(whole, appended, patch);
  }

  lemma CutAppend(s: seq<byte>, appended: seq<byte>, patch: seq<byte>)
    requires patch != [] && |patch| <= |s| && |s| + |appended| <= U64_MAX
    ensures FTruncate(BufferedWrite(s + appended, 0, patch), |s|) == PWrite(s, 0, patch)
  {
  }
}
