/** The read path over a block cache: probing a block range, fetching what is missing,
merging, and assembling the requested bytes. */
module ReadPath {
  import opened Bytes
  import opened PersistPlan
  import opened Layers

  type BlockRows = seq<(nat, Block)>

  /** Copies the part of a block at `start` that overlaps `[offset, end)`; bytes a short
      block lacks are left as they are. */
  method CopyOverlap(output: array<byte>, offset: nat, end: nat, start: nat, bs: nat, block: Block)
    requires offset <= end && output.Length == end - offset
    modifies output
    ensures forall q: nat | q < output.Length ::
              output[q] == if start <= offset + q < start + Min(|block|, bs) then block[offset + q - start]
                           else old(output[q])
  {
    var copyStart, copyEnd := Max(offset, start), Min(end, start + bs);
    if copyEnd <= copyStart || copyStart - start >= |block| { return; }
    var srcEnd := Min(copyEnd - start, |block|);
    var at, from := copyStart - offset, copyStart - start;
    forall q | at <= q < at + (srcEnd - from) {
      output[q] := block[from + (q - at)];
    }
  }

  /** The byte the last covering block supplies; zero when none does. */
  function AssembledByte(blocks: BlockRows, first: nat, last: nat, i: nat, k: nat): byte {
    if blocks == [] then 0
    else
      var (j, b) := blocks[|blocks| - 1];
      if j == i && first <= i <= last && k < |b| then b[k]
      else AssembledByte(blocks[..|blocks| - 1], first, last, i, k)
  }

  ghost predicate Assembled(out: seq<byte>, offset: nat, bs: nat, blocks: BlockRows, first: nat, last: nat)
    requires bs >= 1
  {
    forall q: nat | q < |out| ::
      out[q] == AssembledByte(blocks, first, last, BlockOf(offset + q, bs), OffsetIn(offset + q, bs))
  }

  method AssembleReadSlice(first: nat, last: nat, offset: nat, end: nat, blockSize: nat, blocks: BlockRows)
    returns (r: seq<byte>)
    requires end <= U64_MAX
    ensures first > last ==> r == []
    ensures first <= last ==> |r| == SatSub(end, offset) && Assembled(r, offset, Max(blockSize, 1), blocks, first, last)
  {
    var bs := Max(blockSize, 1);
    if first > last || end <= offset { return []; }
    var output := new byte[end - offset](_ => 0);
    for n := 0 to |blocks|
      invariant Assembled(output[..], offset, bs, blocks[..n], first, last)
    {
      var (i, b) := blocks[n];
      assert blocks[..n + 1][..n] == blocks[..n] && blocks[..n + 1][n] == blocks[n];
      ghost var before := output[..];
      if first <= i <= last {
        CopyOverlap(output, offset, end, SatStart(i, bs), bs, b);
      }
      forall q: nat | q < output.Length
        ensures output[..][q] ==
                AssembledByte(blocks[..n + 1], first, last, BlockOf(offset + q, bs), OffsetIn(offset + q, bs))
      {
        assert before[q] == AssembledByte(blocks[..n], first, last, BlockOf(offset + q, bs), OffsetIn(offset + q, bs));
        InBlockIsQuotient(offset + q, i, bs);
      }
    }
    assert blocks[..|blocks|] == blocks;
    return output[..];
  }

  /** Every listed block agrees with the stored row, its missing tail counting as zero. */
  ghost predicate Agrees(blocks: BlockRows, rows: BlockMap, bs: nat) {
    forall n, k: nat | 0 <= n < |blocks| && k < bs :: ByteIn(blocks[n].1, k) == RowByte(rows, blocks[n].0, k)
  }

  ghost predicate Has(blocks: BlockRows, i: nat) {
    exists n :: 0 <= n < |blocks| && blocks[n].0 == i
  }

  /** Every stored row of the range is listed. */
  ghost predicate Complete(blocks: BlockRows, rows: BlockMap, first: nat, last: nat) {
    forall i | i in rows && first <= i <= last :: Has(blocks, i)
  }

  lemma {:induction false} AgreeingBlocksAssemble(blocks: BlockRows, rows: BlockMap, bs: nat, first: nat, last: nat,
                                                  i: nat, k: nat)
    requires Agrees(blocks, rows, bs) && first <= i <= last && k < bs
    ensures Has(blocks, i) ==> AssembledByte(blocks, first, last, i, k) == RowByte(rows, i, k)
    ensures !Has(blocks, i) ==> AssembledByte(blocks, first, last, i, k) == 0
  {
    if blocks != [] {
      var n := |blocks| - 1;
      AgreeingBlocksAssemble(blocks[..n], rows, bs, first, last, i, k);
      assert ByteIn(blocks[n].1, k) == RowByte(rows, blocks[n].0, k);
      if Has(blocks, i) && blocks[n].0 != i {
        var m :| 0 <= m < |blocks| && blocks[m].0 == i;
        assert blocks[..n][m].0 == i;
      }
      if Has(blocks[..n], i) {
        var m :| 0 <= m < n && blocks[..n][m].0 == i;
        assert blocks[m].0 == i;
      }
    }
  }

  /** Agreeing, complete blocks assemble to the stored bytes, however they are ordered
      and however often a block is repeated. */
  lemma AssemblesToStored(r: seq<byte>, blocks: BlockRows, f: StoredFile, bs: nat, first: nat, last: nat, offset: nat,
                          end: nat)
    requires bs >= 1 && offset <= end <= f.size && |r| == end - offset
    requires Assembled(r, offset, bs, blocks, first, last)
    requires Agrees(blocks, f.rows, bs) && Complete(blocks, f.rows, first, last)
    requires offset < end ==> first <= BlockOf(offset, bs) && BlockOf(end - 1, bs) <= last
    ensures r == StoredView(f, bs)[offset..end]
  {
    forall q: nat | q < |r| ensures r[q] == StoredView(f, bs)[offset + q] {
      var i, k := BlockOf(offset + q, bs), OffsetIn(offset + q, bs);
      QuotientMonotone(offset, offset + q, bs);
      QuotientMonotone(offset + q, end - 1, bs);
      AgreeingBlocksAssemble(blocks, f.rows, bs, first, last, i, k);
    }
  }

  ghost predicate Sorted(blocks: BlockRows) {
    forall a, b | 0 <= a < b < |blocks| :: blocks[a].0 <= blocks[b].0
  }

  /** Ascending with every index once. */
  ghost predicate Strict(blocks: BlockRows) {
    forall a, b | 0 <= a < b < |blocks| :: blocks[a].0 < blocks[b].0
  }

  /** Splits a block range into what the cache holds and what it lacks. */
  method CachedBlocksAndMissing(cache: BlockMap, first: nat, last: nat) returns (cached: BlockRows, missing: seq<nat>)
    ensures Sorted(cached) && Ascending(missing)
    ensures forall i: nat :: Has(cached, i) <==> first <= i <= last && i in cache
    ensures forall n | 0 <= n < |cached| :: cached[n].0 in cache && cached[n].1 == cache[cached[n].0]
    ensures forall i: nat :: i in missing <==> first <= i <= last && i !in cache
  {
    cached, missing := [], [];
    if last < first { return; }
    for i := first to last + 1
      invariant Sorted(cached) && Ascending(missing)
      invariant forall n | 0 <= n < |cached| ::
                  cached[n].0 < i && cached[n].0 in cache && cached[n].1 == cache[cached[n].0]
      invariant forall n | 0 <= n < |missing| :: missing[n] < i
      invariant forall j: nat :: Has(cached, j) <==> first <= j < i && j in cache
      invariant forall j: nat :: j in missing <==> first <= j < i && j !in cache
    {
      if i in cache {
        forall j: nat ensures Has(cached + [(i, cache[i])], j) <==> Has(cached, j) || j == i {
          HasConcat(cached, [(i, cache[i])], j);
        }
        cached := cached + [(i, cache[i])];
      } else {
        missing := missing + [i];
      }
    }
  }

  lemma HasConcat(a: BlockRows, b: BlockRows, i: nat)
    ensures Has(a + b, i) <==> Has(a, i) || Has(b, i)
    ensures |a| == 1 ==> (Has(a, i) <==> a[0].0 == i)
    ensures |b| == 1 ==> (Has(b, i) <==> b[0].0 == i)
  {
    if |a| == 1 && a[0].0 == i { assert Has(a, i); }
    if Has(a, i) {
      var n :| 0 <= n < |a| && a[n].0 == i;
      assert (a + b)[n].0 == i;
    }
    if Has(b, i) {
      var n :| 0 <= n < |b| && b[n].0 == i;
      assert (a + b)[|a| + n].0 == i;
    }
    if |b| == 1 && b[0].0 == i { assert Has(b, i); }
  }

  /** The rows a range query returns: ascending and normalised to the block size. */
  function FetchBlockRange(rows: BlockMap, bs: nat, first: nat, last: nat): BlockRows
    decreases last + 1 - first
  {
    if first > last then []
    else (if first in rows then [(first, Resize(rows[first], bs))] else []) + FetchBlockRange(rows, bs, first + 1, last)
  }

  ghost predicate FullRows(blocks: BlockRows, rows: BlockMap, bs: nat) {
    forall n | 0 <= n < |blocks| :: blocks[n].0 in rows && blocks[n].1 == Resize(rows[blocks[n].0], bs)
  }

  ghost predicate FetchedFor(r: BlockRows, rows: BlockMap, bs: nat, first: nat, last: nat) {
    && Strict(r) && FullRows(r, rows, bs)
    && (forall i: nat :: Has(r, i) <==> first <= i <= last && i in rows)
    && (forall n | 0 <= n < |r| :: first <= r[n].0 <= last)
  }

  lemma FetchedCons(rows: BlockMap, bs: nat, first: nat, last: nat, tail: BlockRows)
    requires first <= last && first in rows && FetchedFor(tail, rows, bs, first + 1, last)
    ensures FetchedFor([(first, Resize(rows[first], bs))] + tail, rows, bs, first, last)
  {
    var head := [(first, Resize(rows[first], bs))];
    var all := head + tail;
    assert forall b | 0 < b < |all| :: all[b] == tail[b - 1];
    forall i: nat ensures Has(all, i) <==> first <= i <= last && i in rows {
      HasConcat(head, tail, i);
    }
    forall n | 0 <= n < |all|
      ensures first <= all[n].0 <= last && all[n].0 in rows && all[n].1 == Resize(rows[all[n].0], bs)
    {
      assert n > 0 ==> all[n] == tail[n - 1];
    }
  }

  lemma FetchedSkip(rows: BlockMap, bs: nat, first: nat, last: nat, tail: BlockRows)
    requires first !in rows && FetchedFor(tail, rows, bs, first + 1, last)
    ensures FetchedFor(tail, rows, bs, first, last)
  {
  }

  lemma {:induction false} FetchedRows(rows: BlockMap, bs: nat, first: nat, last: nat)
    ensures FetchedFor(FetchBlockRange(rows, bs, first, last), rows, bs, first, last)
    decreases last + 1 - first
  {
    if first <= last {
      var tail := FetchBlockRange(rows, bs, first + 1, last);
      FetchedRows(rows, bs, first + 1, last);
      if first in rows {
        FetchedCons(rows, bs, first, last, tail);
      } else {
        FetchedSkip(rows, bs, first, last, tail);
        assert FetchBlockRange(rows, bs, first, last) == tail;
      }
    }
  }

  method InsertByIndex(sorted: BlockRows, e: (nat, Block)) returns (r: BlockRows)
    requires Sorted(sorted)
    ensures Sorted(r) && multiset(r) == multiset(sorted) + multiset{e}
  {
    var at := 0;
    while at < |sorted| && sorted[at].0 <= e.0
      invariant 0 <= at <= |sorted|
      invariant forall j | 0 <= j < at :: sorted[j].0 <= e.0
    {
      at := at + 1;
    }
    InsertedAt(sorted, e, at);
    assert sorted == sorted[..at] + sorted[at..];
    r := sorted[..at] + [e] + sorted[at..];
  }

  lemma InsertedAt(sorted: BlockRows, e: (nat, Block), at: nat)
    requires at <= |sorted| && Sorted(sorted)
    requires forall j | 0 <= j < at :: sorted[j].0 <= e.0
    requires at < |sorted| ==> e.0 <= sorted[at].0
    ensures Sorted(sorted[..at] + [e] + sorted[at..])
  {
  }

  method SortByIndex(blocks: BlockRows) returns (sorted: BlockRows)
    ensures Sorted(sorted) && multiset(sorted) == multiset(blocks)
  {
    sorted := [];
    for n := 0 to |blocks|
      invariant Sorted(sorted) && multiset(sorted) == multiset(blocks[..n])
    {
      assert blocks[..n + 1] == blocks[..n] + [blocks[n]];
      sorted := InsertByIndex(sorted, blocks[n]);
    }
    assert blocks[..|blocks|] == blocks;
  }

  /** The ranges fetched one after the other. */
  function FetchRanges(rows: BlockMap, bs: nat, ranges: seq<Range>): BlockRows {
    if ranges == [] then []
    else
      var n := |ranges| - 1;
      FetchRanges(rows, bs, ranges[..n]) + FetchBlockRange(rows, bs, ranges[n].0, ranges[n].1)
  }

  ghost predicate FetchedIn(r: BlockRows, rows: BlockMap, bs: nat, ranges: seq<Range>) {
    && FullRows(r, rows, bs)
    && (forall i: nat :: Has(r, i) <==> Covered(ranges, i) && i in rows)
    && (Maximal(ranges) ==> Strict(r) && forall n | 0 <= n < |r| :: r[n].0 <= ranges[|ranges| - 1].1)
  }

  lemma {:induction false} FetchedRanges(rows: BlockMap, bs: nat, ranges: seq<Range>)
    ensures FetchedIn(FetchRanges(rows, bs, ranges), rows, bs, ranges)
  {
    if ranges != [] {
      var n := |ranges| - 1;
      FetchedRanges(rows, bs, ranges[..n]);
      FetchedRows(rows, bs, ranges[n].0, ranges[n].1);
      assert ranges == ranges[..n] + [ranges[n]];
      FetchedAppend(rows, bs, ranges[..n], ranges[n], FetchRanges(rows, bs, ranges[..n]),
                    FetchBlockRange(rows, bs, ranges[n].0, ranges[n].1));
    }
  }

  lemma {:induction false} FetchedAppend(rows: BlockMap, bs: nat, ranges: seq<Range>, r: Range, head: BlockRows,
                                         tail: BlockRows)
    requires FetchedIn(head, rows, bs, ranges) && FetchedFor(tail, rows, bs, r.0, r.1)
    ensures FetchedIn(head + tail, rows, bs, ranges + [r])
  {
    var all := ranges + [r];
    forall i: nat ensures Has(head + tail, i) <==> Covered(all, i) && i in rows {
      HasConcat(head, tail, i);
      CoveredAppend(ranges, r, i);
    }
    if Maximal(all) {
      assert Maximal(ranges) by { assert forall j | 0 <= j < |ranges| :: all[j] == ranges[j]; }
      assert all[|ranges|] == r && (ranges != [] ==> all[|ranges| - 1] == ranges[|ranges| - 1]);
      if ranges == [] { NothingCovered(head, ranges); }
    }
  }

  lemma NothingCovered(blocks: BlockRows, ranges: seq<Range>)
    requires ranges == [] && forall i: nat | Has(blocks, i) :: Covered(ranges, i)
    ensures blocks == []
  {
    if blocks != [] { assert Has(blocks, blocks[0].0); }
  }

  function Flat(collected: seq<BlockRows>): BlockRows {
    if collected == [] then [] else Flat(collected[..|collected| - 1]) + collected[|collected| - 1]
  }

  lemma {:induction false} FlatUpdate(collected: seq<BlockRows>, w: nat, chunk: BlockRows)
    requires w < |collected|
    ensures multiset(Flat(collected[w := collected[w] + chunk])) == multiset(Flat(collected)) + multiset(chunk)
  {
    var n, more := |collected| - 1, collected[w := collected[w] + chunk];
    if w < n {
      FlatUpdate(collected[..n], w, chunk);
      assert more[..n] == collected[..n][w := collected[..n][w] + chunk];
    } else {
      assert more[..n] == collected[..n];
    }
  }

  lemma {:induction false} FlatEmpty(n: nat)
    ensures Flat(seq(n, _ => [])) == []
  {
    if n > 0 {
      FlatEmpty(n - 1);
      assert seq(n, _ => [])[..n - 1] == seq<BlockRows>(n - 1, _ => []);
    }
  }

  /** There is one way to sort rows whose indices differ. */
  lemma {:induction false} SortedIsUnique(a: BlockRows, b: BlockRows)
    requires Sorted(a) && Strict(b) && multiset(a) == multiset(b)
    ensures a == b
  {
    assert |multiset(a)| == |a| && |multiset(b)| == |b|;
    if a != [] {
      SameFirst(a, b);
      DropFirst(a);
      DropFirst(b);
      SortedIsUnique(a[1..], b[1..]);
      assert a == [a[0]] + a[1..] && b == [b[0]] + b[1..];
    }
  }

  lemma DropFirst(s: BlockRows)
    requires s != []
    ensures multiset(s[1..]) == multiset(s) - multiset{s[0]}
    ensures Sorted(s) ==> Sorted(s[1..])
    ensures Strict(s) ==> Strict(s[1..])
  {
    assert s == [s[0]] + s[1..];
  }

  lemma {:induction false} SameFirst(a: BlockRows, b: BlockRows)
    requires Sorted(a) && Strict(b) && multiset(a) == multiset(b) && a != [] && b != []
    ensures a[0] == b[0]
  {
    assert a[0] in multiset(b) && b[0] in multiset(a);
    var p :| 0 <= p < |b| && b[p] == a[0];
    var q :| 0 <= q < |a| && a[q] == b[0];
  }

  /** Range workers drain a shared queue; `schedule(n)` is the worker that takes range `n`.
      The joined and sorted rows do not depend on the schedule. */
  method FetchBlockRangeParallel(rows: BlockMap, bs: nat, ranges: seq<Range>, workers: nat, schedule: nat -> nat)
    returns (blocks: BlockRows)
    ensures Sorted(blocks) && multiset(blocks) == multiset(FetchRanges(rows, bs, ranges))
    ensures Maximal(ranges) ==> blocks == FetchRanges(rows, bs, ranges)
  {
    blocks := [];
    if ranges == [] { return; }
    var workerCount := Max(Min(Max(workers, 1), |ranges|), 1);
    var collected := DrainRanges(rows, bs, ranges, workerCount, schedule);
    for w := 0 to workerCount
      invariant blocks == Flat(collected[..w])
    {
      assert collected[..w + 1][..w] == collected[..w];
      blocks := blocks + collected[w];
    }
    assert collected[..workerCount] == collected;
    blocks := SortByIndex(blocks);
    FetchedRanges(rows, bs, ranges);
    if Maximal(ranges) { SortedIsUnique(blocks, FetchRanges(rows, bs, ranges)); }
  }

  /** Each worker collects the rows of the ranges it took. */
  method DrainRanges(rows: BlockMap, bs: nat, ranges: seq<Range>, workerCount: nat, schedule: nat -> nat)
    returns (collected: seq<BlockRows>)
    requires workerCount >= 1
    ensures |collected| == workerCount && multiset(Flat(collected)) == multiset(FetchRanges(rows, bs, ranges))
  {
    collected := seq(workerCount, _ => []);
    FlatEmpty(workerCount);
    for n := 0 to |ranges|
      invariant |collected| == workerCount
      invariant multiset(Flat(collected)) == multiset(FetchRanges(rows, bs, ranges[..n]))
    {
      var w := schedule(n) % workerCount;
      var chunk := FetchBlockRange(rows, bs, ranges[n].0, ranges[n].1);
      FlatUpdate(collected, w, chunk);
      assert ranges[..n + 1][..n] == ranges[..n];
      collected := collected[w := collected[w] + chunk];
    }
    assert ranges[..|ranges|] == ranges;
  }

  function ParallelWorkerCount(requested: nat, minimumItems: nat, totalItems: nat, groups: nat): nat {
    if requested <= 1 || totalItems < minimumItems || groups <= 1 then 1 else Max(Min(requested, groups), 1)
  }

  /** One spanning query, or one query per missing run on several workers. */
  method FetchMissingReadBlocks(rows: BlockMap, bs: nat, missing: seq<nat>, workersRead: nat, workersMinBlocks: nat,
                                schedule: nat -> nat) returns (fetched: BlockRows)
    requires Ascending(missing) && forall i | i in missing :: i <= U64_MAX
    ensures Strict(fetched) && FullRows(fetched, rows, bs)
    ensures forall i | i in missing && i in rows :: Has(fetched, i)
    ensures missing == [] ==> fetched == []
    ensures forall i: nat | Has(fetched, i) :: missing != [] && missing[0] <= i <= missing[|missing| - 1]
    ensures forall i: nat | Has(fetched, i) && i !in missing :: workersRead <= 1 || |missing| < workersMinBlocks
    ensures workersRead <= 1 || |missing| < workersMinBlocks ==>
              forall i: nat | i in rows && missing != [] && missing[0] <= i <= missing[|missing| - 1] :: Has(fetched, i)
  {
    if missing == [] { return []; }
    var ranges := ContiguousRanges(missing);
    var workers := ParallelWorkerCount(workersRead, workersMinBlocks, |missing|, |ranges|);
    if workers <= 1 {
      var first, last := missing[0], missing[|missing| - 1];
      FetchedRows(rows, bs, first, last);
      fetched := FetchBlockRange(rows, bs, first, last);
    } else {
      fetched := FetchBlockRangeParallel(rows, bs, ranges, workers, schedule);
      FetchedRanges(rows, bs, ranges);
    }
  }

  /** The ordered merge of two index-ordered listings; on a tie the left block comes first. */
  function Merged(left: BlockRows, right: BlockRows): BlockRows {
    if left == [] then right
    else if right == [] then left
    else if left[0].0 <= right[0].0 then [left[0]] + Merged(left[1..], right)
    else [right[0]] + Merged(left, right[1..])
  }

  lemma {:induction false} MergedIsSorted(left: BlockRows, right: BlockRows)
    requires Sorted(left) && Sorted(right)
    ensures Sorted(Merged(left, right))
    ensures Merged(left, right) != [] ==>
              (left != [] && Merged(left, right)[0] == left[0]) || (right != [] && Merged(left, right)[0] == right[0])
  {
    if left != [] && right != [] {
      if left[0].0 <= right[0].0 {
        MergedIsSorted(left[1..], right);
        SortedCons(left[0], Merged(left[1..], right));
      } else {
        MergedIsSorted(left, right[1..]);
        SortedCons(right[0], Merged(left, right[1..]));
      }
    }
  }

  lemma {:induction false} MergedIsUnion(left: BlockRows, right: BlockRows)
    ensures multiset(Merged(left, right)) == multiset(left) + multiset(right)
  {
    if left != [] && right != [] {
      if left[0].0 <= right[0].0 {
        MergedIsUnion(left[1..], right);
        assert left == [left[0]] + left[1..];
      } else {
        MergedIsUnion(left, right[1..]);
        assert right == [right[0]] + right[1..];
      }
    }
  }

  lemma SortedCons(e: (nat, Block), rest: BlockRows)
    requires Sorted(rest) && (rest != [] ==> e.0 <= rest[0].0)
    ensures Sorted([e] + rest)
  {
  }

  /** The source's merge loop. */
  method MergeSortedBlocks(left: BlockRows, right: BlockRows) returns (merged: BlockRows)
    ensures merged == Merged(left, right)
  {
    if left == [] { return right; }
    if right == [] { return left; }
    merged := [];
    var a, b := 0, 0;
    while a < |left| && b < |right|
      invariant 0 <= a <= |left| && 0 <= b <= |right|
      invariant merged + Merged(left[a..], right[b..]) == Merged(left, right)
      decreases |left| + |right| - a - b
    {
      var l, r := left[a..], right[b..];
      if left[a].0 <= right[b].0 {
        assert merged + ([l[0]] + Merged(l[1..], r)) == merged + [l[0]] + Merged(l[1..], r);
        merged, a := merged + [left[a]], a + 1;
      } else {
        assert merged + ([r[0]] + Merged(l, r[1..])) == merged + [r[0]] + Merged(l, r[1..]);
        merged, b := merged + [right[b]], b + 1;
      }
    }
    merged := if a < |left| then merged + left[a..] else merged + right[b..];
  }

  ghost predicate CacheAgrees(cache: BlockMap, rows: BlockMap, bs: nat) {
    forall i, k: nat | i in cache && k < bs :: ByteIn(cache[i], k) == RowByte(rows, i, k)
  }

  /** The first listed block with this index. */
  function FirstWith(blocks: BlockRows, i: nat): (r: Option<Block>)
    ensures r.Some? <==> Has(blocks, i)
    ensures r.Some? ==> exists n :: 0 <= n < |blocks| && blocks[n] == (i, r.value)
  {
    if blocks == [] then None
    else if blocks[0].0 == i then
      assert Has(blocks, i);
      assert blocks[0] == (i, blocks[0].1);
      Some(blocks[0].1)
    else
      var rest := FirstWith(blocks[1..], i);
      assert blocks == [blocks[0]] + blocks[1..];
      HasConcat([blocks[0]], blocks[1..], i);
      assert forall n | 0 <= n < |blocks| - 1 :: blocks[1..][n] == blocks[n + 1];
      rest
  }

  /** In a merge the cached block is found before a fetched duplicate of it. */
  lemma {:induction false} MergePrefersLeft(left: BlockRows, right: BlockRows, i: nat)
    requires Sorted(left) && Sorted(right)
    ensures FirstWith(Merged(left, right), i) == if Has(left, i) then FirstWith(left, i) else FirstWith(right, i)
  {
    if left != [] && right != [] {
      HasConcat([left[0]], left[1..], i);
      assert left == [left[0]] + left[1..];
      if left[0].0 <= right[0].0 {
        MergePrefersLeft(left[1..], right, i);
        assert Merged(left, right)[1..] == Merged(left[1..], right);
      } else {
        MergePrefersLeft(left, right[1..], i);
        assert Merged(left, right)[1..] == Merged(left, right[1..]);
      }
    }
  }

  /** Every block comes from a source that agrees with the store, so their merge does. */
  lemma MergedAgrees(left: BlockRows, right: BlockRows, rows: BlockMap, bs: nat)
    requires Agrees(left, rows, bs) && Agrees(right, rows, bs)
    ensures Agrees(Merged(left, right), rows, bs)
    ensures forall i: nat :: Has(Merged(left, right), i) <==> Has(left, i) || Has(right, i)
  {
    MergedIsUnion(left, right);
    var m := Merged(left, right);
    forall e ensures e in m <==> e in left || e in right {
      assert e in multiset(m) <==> e in multiset(left) || e in multiset(right);
    }
    forall n, k: nat | 0 <= n < |m| && k < bs ensures ByteIn(m[n].1, k) == RowByte(rows, m[n].0, k) {
      assert m[n] in left || m[n] in right;
    }
    forall i: nat ensures Has(m, i) <==> Has(left, i) || Has(right, i) {
      if Has(m, i) { var n :| 0 <= n < |m| && m[n].0 == i; assert m[n] in left || m[n] in right; }
      if Has(left, i) { var n :| 0 <= n < |left| && left[n].0 == i; assert left[n] in m; }
      if Has(right, i) { var n :| 0 <= n < |right| && right[n].0 == i; assert right[n] in m; }
    }
  }

  datatype ReadSettings = ReadSettings(
    readAhead: nat, sequentialReadAhead: nat, directIoPrefetch: nat, cacheLimit: nat, smallFileThreshold: nat,
    workersRead: nat, workersMinBlocks: nat, directIo: bool)

  /** Reads a block range through the cache; nothing changes meanwhile. */
  method ReadBlockMap(rows: BlockMap, bs: nat, cache: BlockMap, first: nat, last: nat, settings: ReadSettings,
                      schedule: nat -> nat) returns (blocks: BlockRows)
    requires last <= U64_MAX && CacheAgrees(cache, rows, bs)
    ensures Agrees(blocks, rows, bs) && Complete(blocks, rows, first, last)
    ensures forall i: nat | first <= i <= last ::
              FirstWith(blocks, i) == if i in cache then Some(cache[i])
                                      else if i in rows then Some(Resize(rows[i], bs)) else None
  {
    if last < first { return []; }
    var cached, missing := CachedBlocksAndMissing(cache, first, last);
    var fetched := FetchMissingReadBlocks(rows, bs, missing, settings.workersRead, settings.workersMinBlocks, schedule);
    blocks := MergeSortedBlocks(cached, fetched);
    MergedAgrees(cached, fetched, rows, bs);
    forall i: nat | first <= i <= last
      ensures FirstWith(blocks, i) == if i in cache then Some(cache[i])
                                      else if i in rows then Some(Resize(rows[i], bs)) else None
    {
      MergePrefersLeft(cached, fetched, i);
      assert i !in cache ==> i in missing;
    }
  }

  /** The block window a read fetches: the whole of a small file, otherwise the requested
      blocks and a read-ahead the cache can hold. */
  function FetchWindow(totalBlocks: nat, firstBlock: nat, lastBlock: nat, s: ReadSettings, sequential: bool,
                       streak: nat): (nat, nat) {
    if totalBlocks <= s.smallFileThreshold then (0, SatSub(totalBlocks, 1))
    else
      var requested := SatAdd(SatSub(lastBlock, firstBlock), 1);
      var boosted := Min(s.sequentialReadAhead * Max(streak, 1), U64_MAX);
      var ahead0 := if sequential then Max(s.readAhead, boosted) else s.readAhead;
      var direct := SatSub(s.directIoPrefetch, requested);
      var ahead1 := if sequential && s.directIo && direct > 0 then Max(ahead0, direct) else ahead0;
      var ahead := Min(ahead1, SatSub(s.cacheLimit, 1));
      (firstBlock, Min(SatAdd(lastBlock, ahead), SatSub(totalBlocks, 1)))
  }

  datatype ReadOutcome = Bytes(data: seq<byte>) | Eio | Einval | OutOfBounds

  /** The single-block reply: a target block that ends before the slice does is an error. */
  function SingleBlockReply(block: Option<Block>, from: nat, to: nat): ReadOutcome
    requires from <= to
  {
    match block
    case None => Bytes(Resize([], to - from))
    case Some(b) => if to <= |b| then Bytes(b[from..to]) else Eio
  }

  /** The reply when the whole request lies in block `i`. */
  method ReadOneBlock(f: StoredFile, bs: nat, cache: BlockMap, total: nat, i: nat, start: nat, offset: nat, end: nat,
                      settings: ReadSettings, sequential: bool, streak: nat, schedule: nat -> nat)
    returns (r: ReadOutcome)
    requires bs >= 1 && f.size <= U64_MAX && CacheAgrees(cache, f.rows, bs)
    requires start == Start(i, bs) && start <= offset <= end <= f.size && end <= start + bs && i < total <= U64_MAX
    ensures r.Bytes? ==> r.data == StoredView(f, bs)[offset..end]
    ensures r.Eio? <==> i in cache && |cache[i]| < end - start
    ensures r.Bytes? || r.Eio?
  {
    var from, to := offset - start, end - start;
    SingleBlockBytes(f, bs, cache, i, start, offset, end);
    if i in cache && to <= |cache[i]| {
      r := SingleBlockReply(Some(cache[i]), from, to);
    } else {
      var window := FetchWindow(total, i, i, settings, sequential, streak);
      var blocks := ReadBlockMap(f.rows, bs, cache, window.0, window.1, settings, schedule);
      r := SingleBlockReply(FirstWith(blocks, i), from, to);
    }
  }

  /** The reply when the request spans several blocks; short blocks read as zero-padded. */
  method ReadManyBlocks(f: StoredFile, bs: nat, cache: BlockMap, total: nat, first: nat, last: nat, offset: nat,
                        end: nat, settings: ReadSettings, sequential: bool, streak: nat, schedule: nat -> nat)
    returns (data: seq<byte>)
    requires bs >= 1 && f.size <= U64_MAX && CacheAgrees(cache, f.rows, bs)
    requires offset <= end <= f.size && first == BlockOf(offset, bs) && last == BlockOf(SatSub(end, 1), bs)
    requires last < total <= U64_MAX && (offset < end ==> first <= last)
    ensures data == StoredView(f, bs)[offset..end]
  {
    var fetchFirst, fetchLast, blocks;
    var cached, missing := CachedBlocksAndMissing(cache, first, last);
    if missing == [] {
      fetchFirst, fetchLast, blocks := first, last, cached;
      forall i | i in f.rows && first <= i <= last ensures Has(blocks, i) { assert i !in missing; }
    } else {
      var window := FetchWindow(total, first, last, settings, sequential, streak);
      fetchFirst, fetchLast := window.0, window.1;
      blocks := ReadBlockMap(f.rows, bs, cache, fetchFirst, fetchLast, settings, schedule);
    }
    data := AssembleReadSlice(fetchFirst, fetchLast, offset, end, bs, blocks);
    if offset < end { AssemblesToStored(data, blocks, f, bs, fetchFirst, fetchLast, offset, end); }
  }

  /** A read of a file no handle has buffered changes for. Given a cache that agrees with
      the store it returns exactly the stored bytes, unless the request lies in one block
      whose cached copy is too short. */
  method ReadFile(f: StoredFile, bs: nat, cache: BlockMap, offset: nat, size: nat, settings: ReadSettings,
                  sequential: bool, streak: nat, schedule: nat -> nat) returns (r: ReadOutcome)
    requires bs >= 1 && f.size <= U64_MAX && CacheAgrees(cache, f.rows, bs)
    ensures r.Bytes? || r.Eio?
    ensures r.Bytes? ==>
              r.data == if offset >= f.size then [] else StoredView(f, bs)[offset..Min(SatAdd(offset, size), f.size)]
    ensures r.Eio? <==> offset < f.size && ShortTarget(cache, bs, offset, Min(SatAdd(offset, size), f.size))
  {
    if offset >= f.size { return Bytes([]); }
    var end := Min(SatAdd(offset, size), f.size);
    var first: nat, last: nat := BlockOf(offset, bs), BlockOf(SatSub(end, 1), bs);
    var total: nat := 1 + BlockOf(f.size - 1, bs);
    var start: nat := Start(first, bs);
    WindowFacts(bs, f.size, offset, end);
    if first == last {
      r := ReadOneBlock(f, bs, cache, total, first, start, offset, end, settings, sequential, streak, schedule);
    } else {
      var data := ReadManyBlocks(f, bs, cache, total, first, last, offset, end, settings, sequential, streak, schedule);
      r := Bytes(data);
    }
  }

  /** Whether a one-block request meets a cached block that ends before the request does. */
  predicate ShortTarget(cache: BlockMap, bs: nat, offset: nat, end: nat)
    requires bs >= 1
  {
    var i := BlockOf(offset, bs);
    i == BlockOf(SatSub(end, 1), bs) && i in cache && |cache[i]| < end - Start(i, bs)
  }

  lemma WindowFacts(bs: nat, size: nat, offset: nat, end: nat)
    requires bs >= 1 && offset < size <= U64_MAX && offset <= end <= size
    ensures BlockOf(SatSub(end, 1), bs) <= BlockOf(size - 1, bs) < size && BlockOf(offset, bs) <= BlockOf(size - 1, bs)
    ensures Start(BlockOf(offset, bs), bs) <= offset
    ensures offset < end ==> BlockOf(offset, bs) <= BlockOf(SatSub(end, 1), bs)
    ensures BlockOf(offset, bs) == BlockOf(SatSub(end, 1), bs) ==> end <= Start(BlockOf(offset, bs), bs) + bs
  {
    QuotientMonotone(offset, size - 1, bs);
    QuotientMonotone(SatSub(end, 1), size - 1, bs);
    if offset < end { QuotientMonotone(offset, end - 1, bs); }
  }

  lemma SingleBlockBytes(f: StoredFile, bs: nat, cache: BlockMap, i: nat, start: nat, offset: nat, end: nat)
    requires bs >= 1 && start == Start(i, bs) && start <= offset <= end <= f.size && end <= start + bs
    requires CacheAgrees(cache, f.rows, bs)
    ensures var reply := SingleBlockReply(if i in cache then Some(cache[i])
                                          else if i in f.rows then Some(Resize(f.rows[i], bs)) else None,
                                          offset - start, end - start);
            reply.Bytes? ==> reply.data == StoredView(f, bs)[offset..end]
  {
    var reply := SingleBlockReply(if i in cache then Some(cache[i])
                                  else if i in f.rows then Some(Resize(f.rows[i], bs)) else None,
                                  offset - start, end - start);
    if reply.Bytes? {
      forall q: nat | q < |reply.data| ensures reply.data[q] == StoredView(f, bs)[offset..end][q] {
        InBlockIsQuotient(offset + q, i, bs);
        var k := offset + q - start;
        assert StoredView(f, bs)[offset + q] == RowByte(f.rows, i, k);
        if i in cache { assert ByteIn(cache[i], k) == RowByte(f.rows, i, k); }
      }
    }
  }

  /** Keeps the rows of a block range. */
  function RowsIn(blocks: BlockRows, first: nat, last: nat): (r: BlockRows)
    ensures forall e :: e in r <==> e in blocks && first <= e.0 <= last
  {
    if blocks == [] then []
    else
      var n := |blocks| - 1;
      RowsIn(blocks[..n], first, last) + if first <= blocks[n].0 <= last then [blocks[n]] else []
  }

  lemma RowsInComplete(blocks: BlockRows, rows: BlockMap, bs: nat, first: nat, last: nat, lastKept: nat)
    requires FetchedFor(blocks, rows, bs, first, last) && lastKept <= last
    ensures Agrees(RowsIn(blocks, first, lastKept), rows, bs)
    ensures Complete(RowsIn(blocks, first, lastKept), rows, first, lastKept)
  {
    var kept := RowsIn(blocks, first, lastKept);
    forall n, k: nat | 0 <= n < |kept| && k < bs ensures ByteIn(kept[n].1, k) == RowByte(rows, kept[n].0, k) {
      assert kept[n] in blocks;
    }
    forall i | i in rows && first <= i <= lastKept ensures Has(kept, i) {
      assert Has(blocks, i);
      var n :| 0 <= n < |blocks| && blocks[n].0 == i;
      assert blocks[n] in kept;
    }
  }

  /** The read that bypasses the caches: one query for size and rows. It returns exactly the stored
      bytes, and fails only if the end of the request is no offset. */
  method ReadUncached(f: StoredFile, bs: nat, offset: nat, size: nat) returns (r: ReadOutcome)
    requires bs >= 1 && f.size <= U64_MAX
    ensures r.Bytes? || r.Einval?
    ensures r.Bytes? ==>
              r.data == if size == 0 || offset >= f.size then []
                        else StoredView(f, bs)[offset..Min(offset + size, f.size)]
    ensures r.Einval? <==> size > 0 && offset + size > U64_MAX
  {
    if size == 0 { return Bytes([]); }
    if offset + size > U64_MAX { return Einval; }
    var first: nat, requestedLast: nat := BlockOf(offset, bs), BlockOf(SatSub(offset + size, 1), bs);
    var blocks := FetchBlockRange(f.rows, bs, first, requestedLast);
    FetchedRows(f.rows, bs, first, requestedLast);
    if offset >= f.size { return Bytes([]); }
    var end := Min(offset + size, f.size);
    var last: nat := BlockOf(SatSub(end, 1), bs);
    QuotientMonotone(end - 1, offset + size - 1, bs);
    QuotientMonotone(offset, end - 1, bs);
    RowsInComplete(blocks, f.rows, bs, first, requestedLast, last);
    blocks := RowsIn(blocks, first, last);
    var data := AssembleReadSlice(first, last, offset, end, bs, blocks);
    AssemblesToStored(data, blocks, f, bs, first, last, offset, end);
    r := Bytes(data);
  }
}
