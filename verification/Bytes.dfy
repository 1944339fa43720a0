/** Bytes, blocks and the flat byte-array meaning of `pwrite` and `ftruncate`.

A block may be shorter than the block size; the missing tail reads as zero.
Positions and sizes are natural numbers, and `SatAdd` is the saturating u64
addition the source uses for end offsets. */
module Bytes {

  newtype byte = x: int | 0 <= x < 256
  type Block = seq<byte>

  /** A block of a file: file id and block index. */
  type Key = (nat, nat)

  const U64_MAX: nat := 0xFFFF_FFFF_FFFF_FFFF

  datatype Option<+T> = None | Some(value: T)

  function Min(a: nat, b: nat): nat { if a <= b then a else b }

  function Max(a: nat, b: nat): nat { if a <= b then b else a }

  function SatAdd(a: nat, b: nat): nat { Min(a + b, U64_MAX) }

  function SatSub(a: nat, b: nat): nat { if a <= b then 0 else a - b }

  /** The byte at index `k` of a block whose missing tail reads as zero. */
  function ByteIn(b: Block, k: nat): byte { if k < |b| then b[k] else 0 }

  /** `Vec::resize(n, 0)`, which is also the store's normalisation of a row. */
  function Resize(b: Block, n: nat): (r: Block)
    ensures |r| == n && forall k | 0 <= k < n :: r[k] == ByteIn(b, k)
  {
    seq(n, k requires 0 <= k => ByteIn(b, k))
  }

  /** Overwrites `b[from..from + |data|]`. */
  function Splice(b: Block, from: nat, data: seq<byte>): (r: Block)
    requires from + |data| <= |b|
    ensures |r| == |b|
    ensures forall k | 0 <= k < |b| ::
              r[k] == if from <= k < from + |data| then data[k - from] else b[k]
  {
    b[..from] + data + b[from + |data|..]
  }

  /** The flat meaning of a positioned write; an empty write changes nothing. */
  function PWrite(s: seq<byte>, off: nat, data: seq<byte>): (r: seq<byte>)
    ensures |r| == if data == [] then |s| else Max(|s|, off + |data|)
    ensures forall p: nat | p < |r| :: r[p] == if off <= p < off + |data| then data[p - off] else ByteIn(s, p)
  {
    if data == [] then s
    else seq(Max(|s|, off + |data|),
             p requires 0 <= p => if off <= p < off + |data| then data[p - off] else ByteIn(s, p))
  }

  /** The flat meaning of setting a file's length. */
  function FTruncate(s: seq<byte>, n: nat): seq<byte> { Resize(s, n) }

  /** The position of the first byte of block `i`. */
  function Start(i: nat, bs: nat): nat { i * bs }

  /** The block that holds position `p`. */
  function BlockOf(p: nat, bs: nat): (i: nat)
    requires bs >= 1
    ensures Start(i, bs) <= p < Start(i, bs) + bs && i <= p
  {
    QuotientBound(p, bs);
    p / bs
  }

  /** The offset of position `p` in its block. */
  function OffsetIn(p: nat, bs: nat): (k: nat)
    requires bs >= 1
    ensures k < bs && Start(BlockOf(p, bs), bs) + k == p
  {
    p % bs
  }

  /** `block_index.saturating_mul(block_size)`. */
  function SatStart(i: nat, bs: nat): nat { Min(Start(i, bs), U64_MAX) }

  lemma NextStart(i: nat, bs: nat)
    ensures Start(i + 1, bs) == Start(i, bs) + bs
  {
  }

  lemma QuotientBound(p: nat, bs: nat)
    requires bs >= 1
    ensures 0 <= p / bs <= p && p == p / bs * bs + p % bs
  {
  }

  /** Whole blocks before a later block end before that block starts. */
  lemma {:induction false} BlocksAreOrdered(i: nat, j: nat, bs: nat)
    requires i < j
    ensures Start(i, bs) + bs <= Start(j, bs)
    decreases j
  {
    NextStart(j - 1, bs);
    if i < j - 1 { BlocksAreOrdered(i, j - 1, bs); }
  }

  lemma StartMonotone(i: nat, j: nat, bs: nat)
    requires i <= j
    ensures Start(i, bs) <= Start(j, bs)
  {
  }

  lemma SameCoordinates(i: nat, k: nat, j: nat, r: nat, bs: nat)
    requires k < bs && r < bs && Start(i, bs) + k == Start(j, bs) + r
    ensures i == j && k == r
  {
    if i < j { BlocksAreOrdered(i, j, bs); }
    if j < i { BlocksAreOrdered(j, i, bs); }
  }

  /** A position splits into its block index and the offset in that block in one way. */
  lemma BlockCoordinates(i: nat, k: nat, bs: nat)
    requires k < bs
    ensures BlockOf(Start(i, bs) + k, bs) == i && OffsetIn(Start(i, bs) + k, bs) == k
  {
    var p := Start(i, bs) + k;
    SameCoordinates(BlockOf(p, bs), OffsetIn(p, bs), i, k, bs);
  }

  predicate InBlock(p: nat, i: nat, bs: nat) { Start(i, bs) <= p < Start(i, bs) + bs }

  lemma InBlockIsQuotient(p: nat, i: nat, bs: nat)
    requires bs >= 1
    ensures InBlock(p, i, bs) <==> BlockOf(p, bs) == i
    ensures InBlock(p, i, bs) ==> OffsetIn(p, bs) == p - Start(i, bs)
  {
    if InBlock(p, i, bs) { BlockCoordinates(i, p - Start(i, bs), bs); }
  }

  lemma QuotientMonotone(a: nat, b: nat, bs: nat)
    requires bs >= 1 && a <= b
    ensures BlockOf(a, bs) <= BlockOf(b, bs)
  {
    if BlockOf(b, bs) < BlockOf(a, bs) { BlocksAreOrdered(BlockOf(b, bs), BlockOf(a, bs), bs); }
  }

  /** A subset is no larger, and smaller unless it is the whole set. */
  lemma {:induction false} SubsetSize<T>(a: set<T>, b: set<T>)
    requires a <= b
    ensures |a| <= |b| && (|a| == |b| ==> a == b)
  {
    if a != {} {
      var x :| x in a;
      SubsetSize(a - {x}, b - {x});
    }
  }
}
