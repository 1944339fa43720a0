/** The layered contents of one file: a per-handle overlay of dirty blocks over the
recently flushed blocks over the stored rows over zero. */
module Layers {
  import opened Bytes
  import opened PersistPlan

  type BlockMap = map<nat, Block>
  /** Recently flushed blocks of every file, keyed by file and block index. */
  type RecentMap = map<Key, Block>

  datatype StoredFile = StoredFile(size: nat, rows: BlockMap)

  datatype Layers = Layers(file: nat, blocks: BlockMap, recent: RecentMap, rows: BlockMap)

  /** A stored row as a load returns it: normalised to the block size. */
  function RowByte(rows: BlockMap, i: nat, k: nat): byte {
    if i in rows then ByteIn(rows[i], k) else 0
  }

  /** The block the load order finds: dirty first, then recent, then stored. */
  function Lookup(l: Layers, bs: nat, i: nat): Option<Block> {
    if i in l.blocks then Some(l.blocks[i])
    else if (l.file, i) in l.recent then Some(l.recent[(l.file, i)])
    else if i in l.rows then Some(Resize(l.rows[i], bs))
    else None
  }

  function LayerByte(l: Layers, bs: nat, i: nat, k: nat): byte {
    match Lookup(l, bs, i)
    case None => 0
    case Some(b) => ByteIn(b, k)
  }

  /** The flat file the layers stand for. */
  function View(l: Layers, bs: nat, size: nat): (r: seq<byte>)
    requires bs >= 1
    ensures |r| == size
    ensures forall p: nat | p < size :: r[p] == LayerByte(l, bs, BlockOf(p, bs), OffsetIn(p, bs))
  {
    seq(size, p requires 0 <= p => LayerByte(l, bs, BlockOf(p, bs), OffsetIn(p, bs)))
  }

  function StoredView(f: StoredFile, bs: nat): (r: seq<byte>)
    requires bs >= 1
    ensures |r| == f.size
    ensures forall p: nat | p < f.size :: r[p] == RowByte(f.rows, BlockOf(p, bs), OffsetIn(p, bs))
  {
    seq(f.size, p requires 0 <= p => RowByte(f.rows, BlockOf(p, bs), OffsetIn(p, bs)))
  }

  ghost predicate Fits(blocks: BlockMap, bs: nat) {
    forall i | i in blocks :: |blocks[i]| <= bs && i <= U64_MAX
  }

  ghost predicate RecentFits(recent: RecentMap, bs: nat) {
    forall key | key in recent :: |recent[key]| <= bs
  }

  /** No byte of this layer at or past `size` is nonzero. */
  ghost predicate ZeroFrom(blocks: BlockMap, bs: nat, size: nat) {
    forall i: nat, k: nat | k < bs && Start(i, bs) + k >= size :: RowByte(blocks, i, k) == 0
  }

  ghost predicate LayersZeroFrom(l: Layers, bs: nat, size: nat) {
    forall i: nat, k: nat | k < bs && Start(i, bs) + k >= size :: LayerByte(l, bs, i, k) == 0
  }

  /** Every recent block of the file agrees with the stored row, byte for byte. */
  ghost predicate RecentAgrees(recent: RecentMap, file: nat, rows: BlockMap, bs: nat) {
    forall i: nat, k: nat | (file, i) in recent && k < bs :: ByteIn(recent[(file, i)], k) == RowByte(rows, i, k)
  }

  /** With agreeing recent blocks, only the overlay can differ from the store. */
  lemma LayerByteOverStore(l: Layers, bs: nat, i: nat, k: nat)
    requires k < bs && RecentAgrees(l.recent, l.file, l.rows, bs)
    ensures LayerByte(l, bs, i, k) == if i in l.blocks then ByteIn(l.blocks[i], k) else RowByte(l.rows, i, k)
  {
  }

  lemma LayersZero(l: Layers, bs: nat, stored: nat, size: nat)
    requires RecentAgrees(l.recent, l.file, l.rows, bs) && stored <= size
    requires ZeroFrom(l.blocks, bs, size) && ZeroFrom(l.rows, bs, stored)
    ensures LayersZeroFrom(l, bs, size)
  {
    forall i: nat, k: nat | k < bs && Start(i, bs) + k >= size ensures LayerByte(l, bs, i, k) == 0 {
      LayerByteOverStore(l, bs, i, k);
      assert RowByte(l.blocks, i, k) == 0 && RowByte(l.rows, i, k) == 0;
    }
  }

  /** Dropping agreeing recent blocks does not change what the layers mean. */
  lemma EvictionKeepsView(l: Layers, bs: nat, size: nat, recent: RecentMap)
    requires bs >= 1 && RecentAgrees(l.recent, l.file, l.rows, bs)
    requires RecentAgrees(recent, l.file, l.rows, bs)
    ensures View(l.(recent := recent), bs, size) == View(l, bs, size)
  {
  }

  /** A block past the size that a write starts at its first byte: it is not loaded. */
  predicate IsFresh(l: Layers, bs: nat, size: nat, off: nat, end: nat, i: nat) {
    i !in l.blocks && Max(off, size) <= Start(i, bs) < end
  }

  /** What a write through a state of `size` bytes makes of every block byte. */
  function WrittenByte(l: Layers, bs: nat, size: nat, off: nat, end: nat, data: seq<byte>, i: nat, k: nat): byte
    requires end <= off + |data|
  {
    if off <= Start(i, bs) + k < end then data[Start(i, bs) + k - off]
    else if IsFresh(l, bs, size, off, end, i) then 0
    else LayerByte(l, bs, i, k)
  }

  ghost predicate Written(l: Layers, l': Layers, bs: nat, size: nat, off: nat, end: nat, data: seq<byte>)
    requires end <= off + |data|
  {
    forall i: nat, k: nat | k < bs :: LayerByte(l', bs, i, k) == WrittenByte(l, bs, size, off, end, data, i, k)
  }

  /** A buffered write as the source performs it: the end offset saturates, so bytes
      that would lie beyond the largest u64 offset are dropped. */
  function BufferedWrite(s: seq<byte>, off: nat, data: seq<byte>): seq<byte> {
    var end := SatAdd(off, |data|);
    if data == [] || end < off then s else Resize(PWrite(s, off, data[..end - off]), Max(|s|, end))
  }

  /** Below the saturation limit a buffered write is exactly a positioned write. */
  lemma BufferedWriteIsPWrite(s: seq<byte>, off: nat, data: seq<byte>)
    requires off + |data| <= U64_MAX
    ensures BufferedWrite(s, off, data) == PWrite(s, off, data)
  {
  }

  /** The byte a write leaves at a position below the state's new size. */
  lemma WrittenAt(l: Layers, l': Layers, bs: nat, size: nat, off: nat, end: nat, data: seq<byte>, p: nat)
    requires bs >= 1 && end <= off + |data| && Written(l, l', bs, size, off, end, data) && p < Max(size, end)
    ensures var i, k := BlockOf(p, bs), OffsetIn(p, bs);
            LayerByte(l', bs, i, k) == if off <= p < end then data[p - off] else LayerByte(l, bs, i, k)
  {
    var i, k := BlockOf(p, bs), OffsetIn(p, bs);
    assert Start(i, bs) + k == p;
    assert LayerByte(l', bs, i, k) == WrittenByte(l, bs, size, off, end, data, i, k);
  }

  /** Whatever size the state has, the file it shows is the right one cut or extended to its new size. */
  lemma WrittenThroughAnySize(l: Layers, l': Layers, bs: nat, off: nat, data: seq<byte>, size: nat, stored: nat)
    requires bs >= 1 && off <= U64_MAX && data != []
    requires Written(l, l', bs, size, off, SatAdd(off, |data|), data) && LayersZeroFrom(l, bs, stored)
    ensures var after := Max(size, SatAdd(off, |data|));
            View(l', bs, after) == FTruncate(BufferedWrite(View(l, bs, stored), off, data), after)
  {
    var end := SatAdd(off, |data|);
    var after, v := Max(size, end), View(l, bs, stored);
    forall p: nat | p < after ensures View(l', bs, after)[p] == ByteIn(BufferedWrite(v, off, data), p) {
      WrittenAt(l, l', bs, size, off, end, data, p);
      ByteOfView(l, bs, stored, p);
      BufferedByte(v, off, data, p);
    }
  }

  lemma ByteOfView(l: Layers, bs: nat, size: nat, p: nat)
    requires bs >= 1 && LayersZeroFrom(l, bs, size)
    ensures LayerByte(l, bs, BlockOf(p, bs), OffsetIn(p, bs)) == ByteIn(View(l, bs, size), p)
  {
    var i, k := BlockOf(p, bs), OffsetIn(p, bs);
    assert Start(i, bs) + k == p;
    if p >= size { assert LayerByte(l, bs, i, k) == 0; }
  }

  lemma BufferedByte(s: seq<byte>, off: nat, data: seq<byte>, p: nat)
    requires off <= U64_MAX && data != []
    ensures ByteIn(BufferedWrite(s, off, data), p) == if off <= p < SatAdd(off, |data|) then data[p - off]
                                                      else ByteIn(s, p)
  {
  }

  lemma WrittenView(l: Layers, l': Layers, bs: nat, off: nat, data: seq<byte>, size: nat)
    requires bs >= 1 && off <= U64_MAX && data != []
    requires Written(l, l', bs, size, off, SatAdd(off, |data|), data) && LayersZeroFrom(l, bs, size)
    ensures View(l', bs, Max(size, SatAdd(off, |data|))) == BufferedWrite(View(l, bs, size), off, data)
    ensures LayersZeroFrom(l', bs, Max(size, SatAdd(off, |data|)))
  {
    var end := SatAdd(off, |data|);
    WrittenThroughAnySize(l, l', bs, off, data, size, size);
    forall i: nat, k: nat | k < bs && Start(i, bs) + k >= Max(size, end) ensures LayerByte(l', bs, i, k) == 0 {
      assert LayerByte(l', bs, i, k) == WrittenByte(l, bs, size, off, end, data, i, k);
      assert LayerByte(l, bs, i, k) == 0;
    }
  }

  /** The byte after everything from offset `cut` of block `at` has been zeroed. */
  function CutByte(l: Layers, bs: nat, b: Option<(nat, nat)>, i: nat, k: nat): byte {
    if b.Some? && i == b.value.0 && k >= b.value.1 then 0 else LayerByte(l, bs, i, k)
  }

  ghost predicate Cut(l: Layers, l': Layers, bs: nat, b: Option<(nat, nat)>) {
    forall i: nat, k: nat | k < bs :: LayerByte(l', bs, i, k) == CutByte(l, bs, b, i, k)
  }

  /** The block and offset a pending truncate cuts at: the new end of file, or, when
      a clean file grows, the old one. An end on a block boundary needs no cut. */
  function Boundary(dirty: bool, stored: nat, size: nat, bs: nat): Option<(nat, nat)>
    requires bs >= 1
  {
    var eof := if dirty || stored >= size then size else stored;
    if OffsetIn(eof, bs) == 0 then None else Some((BlockOf(eof, bs), OffsetIn(eof, bs)))
  }

  /** The byte a completed flush leaves at every block offset. */
  function FlushedByte(l: Layers, bs: nat, b: Option<(nat, nat)>, size: nat, i: nat, k: nat): byte {
    if i < BlockCountForLength(size, bs, false) then CutByte(l, bs, b, i, k) else 0
  }

  /** Positions below the size are exactly those the block count covers, up to the
      last block's tail. */
  lemma BelowSize(i: nat, k: nat, bs: nat, size: nat)
    requires k < bs
    ensures Start(i, bs) + k < size ==> i < BlockCountForLength(size, bs, false)
    ensures i < BlockCountForLength(size, bs, false) && Start(i, bs) + k >= size
            ==> OffsetIn(size, bs) != 0 && i == BlockOf(size, bs) && k >= OffsetIn(size, bs)
  {
    var n := BlockCountForLength(size, bs, false);
    if n <= i && size > 0 {
      if n < i { BlocksAreOrdered(n, i, bs); }
    } else if i < n && Start(i, bs) + k >= size {
      if i < n - 1 { BlocksAreOrdered(i, n - 1, bs); assert false; }
      var r := size - Start(i, bs);
      assert Start(n, bs) == Start(i, bs) + bs;
      assert 0 < r <= k < bs;
      BlockCoordinates(i, r, bs);
    }
  }

  /** Truncating through a state whose layers are zero past the old end: the flushed
      bytes are the old file cut or zero-extended to the new size. */
  lemma TruncateMeansFTruncate(l: Layers, bs: nat, oldSize: nat, stored: nat, dirty: bool, size: nat)
    requires bs >= 1 && LayersZeroFrom(l, bs, oldSize)
    requires !dirty ==> stored == oldSize
    ensures var b := Boundary(dirty, stored, size, bs);
            && (forall i: nat, k: nat | k < bs && Start(i, bs) + k >= size :: FlushedByte(l, bs, b, size, i, k) == 0)
            && (forall p: nat | p < size ::
                  FlushedByte(l, bs, b, size, BlockOf(p, bs), OffsetIn(p, bs)) == ByteIn(View(l, bs, oldSize), p))
  {
    var b := Boundary(dirty, stored, size, bs);
    forall i: nat, k: nat | k < bs && Start(i, bs) + k >= size ensures FlushedByte(l, bs, b, size, i, k) == 0 {
      BelowSize(i, k, bs, size);
      if i < BlockCountForLength(size, bs, false) && !(dirty || stored >= size) {
        assert LayerByte(l, bs, i, k) == 0;
      }
    }
    forall p: nat | p < size
      ensures FlushedByte(l, bs, b, size, BlockOf(p, bs), OffsetIn(p, bs)) == ByteIn(View(l, bs, oldSize), p)
    {
      var i, k := BlockOf(p, bs), OffsetIn(p, bs);
      assert Start(i, bs) + k == p;
      BelowSize(i, k, bs, size);
      if p < oldSize {
        assert View(l, bs, oldSize)[p] == LayerByte(l, bs, i, k);
        CutIsPastEof(bs, if dirty || stored >= size then size else stored, i, k);
      } else {
        assert LayerByte(l, bs, i, k) == 0;
      }
    }
  }

  /** The cut never reaches a byte below the end it was computed from. */
  lemma CutIsPastEof(bs: nat, eof: nat, i: nat, k: nat)
    requires bs >= 1 && k < bs && Start(i, bs) + k < eof
    ensures i == BlockOf(eof, bs) ==> k < OffsetIn(eof, bs)
  {
  }

  /** Growing a clean file exposes zeroes even when the stored block that holds the
      old end carries stale bytes after it. Only whole blocks past the old end need
      to be zero. */
  lemma ExtendHidesStaleTail(l: Layers, bs: nat, stored: nat, size: nat)
    requires bs >= 1 && stored < size
    requires forall i: nat, k: nat | k < bs && Start(i, bs) >= stored :: LayerByte(l, bs, i, k) == 0
    ensures var b := Boundary(false, stored, size, bs);
            forall p: nat | p < size ::
              FlushedByte(l, bs, b, size, BlockOf(p, bs), OffsetIn(p, bs)) == ByteIn(View(l, bs, stored), p)
    ensures var b := Boundary(false, stored, size, bs);
            forall i: nat, k: nat | k < bs && Start(i, bs) + k >= size :: FlushedByte(l, bs, b, size, i, k) == 0
  {
    var b := Boundary(false, stored, size, bs);
    forall p: nat | p < size
      ensures FlushedByte(l, bs, b, size, BlockOf(p, bs), OffsetIn(p, bs)) == ByteIn(View(l, bs, stored), p)
    {
      var i, k := BlockOf(p, bs), OffsetIn(p, bs);
      assert Start(i, bs) + k == p;
      BelowSize(i, k, bs, size);
      if p < stored {
        assert View(l, bs, stored)[p] == LayerByte(l, bs, i, k);
        CutIsPastEof(bs, stored, i, k);
      } else {
        PastEofIsCutOrWholeBlock(bs, stored, i, k);
      }
    }
    forall i: nat, k: nat | k < bs && Start(i, bs) + k >= size ensures FlushedByte(l, bs, b, size, i, k) == 0 {
      PastEofIsCutOrWholeBlock(bs, stored, i, k);
    }
  }

  lemma PastEofIsCutOrWholeBlock(bs: nat, eof: nat, i: nat, k: nat)
    requires bs >= 1 && k < bs && eof <= Start(i, bs) + k
    ensures Start(i, bs) >= eof || (OffsetIn(eof, bs) != 0 && i == BlockOf(eof, bs) && k >= OffsetIn(eof, bs))
  {
    if Start(i, bs) < eof {
      BelowSize(i, k, bs, eof);
      BelowSize(i, 0, bs, eof);
    }
  }
}
