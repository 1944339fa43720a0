/** The dirty-block persist planner. */
module PersistPlan {
  import opened Bytes

  /** The number of blocks a file of `length` bytes occupies. */
  function BlockCountForLength(length: nat, blockSize: nat, minimumOne: bool): (n: nat)
    ensures length == 0 ==> n == if minimumOne then 1 else 0
    ensures length > 0 ==> n >= 1 && Start(n - 1, Max(blockSize, 1)) < length <= Start(n, Max(blockSize, 1))
  {
    if length == 0 then if minimumOne then 1 else 0
    else
      var count := 1 + BlockOf(length - 1, Max(blockSize, 1));
      if minimumOne then Max(count, 1) else count
  }

  /** How many bytes of block `index` lie below the end of the file. */
  function DirtyBlockSize(fileSize: nat, index: nat, blockSize: nat): nat {
    var bs := Max(blockSize, 1);
    var start := SatStart(index, bs);
    var end := Min(fileSize, SatAdd(start, bs));
    SatSub(end, start)
  }

  /** Exactly the blocks below the block count start before the end of the file. */
  lemma BlockCountIsExact(fileSize: nat, index: nat, bs: nat)
    requires bs >= 1
    ensures index < BlockCountForLength(fileSize, bs, false) <==> Start(index, bs) < fileSize
  {
    var n := BlockCountForLength(fileSize, bs, false);
    if index < n {
      StartMonotone(index, n - 1, bs);
    } else {
      StartMonotone(n, index, bs);
    }
  }

  lemma SaturationNeverShows(fileSize: nat, index: nat, bs: nat)
    requires fileSize <= U64_MAX && bs >= 1
    ensures DirtyBlockSize(fileSize, index, bs) == Min(SatSub(fileSize, Start(index, bs)), bs)
  {
  }

  /** The size is the block's share of the file, and it is zero exactly for the blocks
      at or past the block count. */
  lemma DirtyBlockSizeIsShare(fileSize: nat, index: nat, bs: nat)
    requires fileSize <= U64_MAX && bs >= 1
    ensures DirtyBlockSize(fileSize, index, bs) == Min(SatSub(fileSize, Start(index, bs)), bs)
    ensures 1 <= DirtyBlockSize(fileSize, index, bs) <= bs
            <==> index < BlockCountForLength(fileSize, bs, false)
  {
    SaturationNeverShows(fileSize, index, bs);
    BlockCountIsExact(fileSize, index, bs);
  }

  function UsedSum(fileSize: nat, bs: nat, n: nat): nat {
    if n == 0 then 0 else UsedSum(fileSize, bs, n - 1) + DirtyBlockSize(fileSize, n - 1, bs)
  }

  lemma {:induction false} UsedSumPrefix(fileSize: nat, bs: nat, n: nat)
    requires fileSize <= U64_MAX && bs >= 1
    ensures UsedSum(fileSize, bs, n) == Min(fileSize, Start(n, bs))
  {
    if n > 0 {
      UsedSumPrefix(fileSize, bs, n - 1);
      SaturationNeverShows(fileSize, n - 1, bs);
      NextStart(n - 1, bs);
      NextShare(fileSize, Start(n - 1, bs), bs);
    }
  }

  lemma NextShare(fileSize: nat, start: nat, bs: nat)
    ensures Min(fileSize, start) + Min(SatSub(fileSize, start), bs) == Min(fileSize, start + bs)
  {
  }

  /** The used lengths of all blocks of a file add up to its size. */
  lemma UsedLengthsSumToFileSize(fileSize: nat, bs: nat)
    requires fileSize <= U64_MAX && bs >= 1
    ensures UsedSum(fileSize, bs, BlockCountForLength(fileSize, bs, false)) == fileSize
  {
    UsedSumPrefix(fileSize, bs, BlockCountForLength(fileSize, bs, false));
  }

  type Range = (nat, nat)

  ghost predicate Ascending(values: seq<nat>) {
    forall i, j | 0 <= i < j < |values| :: values[i] < values[j]
  }

  ghost predicate Covered(ranges: seq<Range>, v: nat) {
    exists j :: 0 <= j < |ranges| && ranges[j].0 <= v <= ranges[j].1
  }

  /** Each range is nonempty and starts beyond the successor of the one before it,
      so no two can be joined. */
  ghost predicate Maximal(ranges: seq<Range>) {
    && (forall j | 0 <= j < |ranges| :: ranges[j].0 <= ranges[j].1)
    && (forall i, j | 0 <= i < j < |ranges| :: ranges[i].1 + 1 < ranges[j].0)
  }

  lemma CoveredAppend(ranges: seq<Range>, r: Range, v: nat)
    ensures Covered(ranges + [r], v) <==> Covered(ranges, v) || r.0 <= v <= r.1
  {
    var all := ranges + [r];
    if Covered(ranges, v) {
      var j :| 0 <= j < |ranges| && ranges[j].0 <= v <= ranges[j].1;
      assert all[j] == ranges[j];
    }
    assert all[|ranges|] == r;
  }

  lemma MaximalGrow(ranges: seq<Range>, start: nat, end: nat, value: nat)
    requires Maximal(ranges + [(start, end)]) && end < value
    ensures Maximal(ranges + [(start, value)])
    ensures end + 1 < value ==> Maximal(ranges + [(start, end)] + [(value, value)])
  {
    var before, grown := ranges + [(start, end)], ranges + [(start, value)];
    assert forall j | 0 <= j < |before| :: grown[j].0 == before[j].0 && (j < |ranges| ==> grown[j] == before[j]);
    assert before[|ranges|] == (start, end);
    assert forall j | 0 <= j < |ranges| :: before[j].1 + 1 < before[|ranges|].0;
  }

  /** The ranges list exactly the values, and cannot be joined when the values ascend. */
  ghost predicate Grouped(values: seq<nat>, ranges: seq<Range>) {
    && (forall v: nat :: Covered(ranges, v) <==> v in values)
    && (forall j | 0 <= j < |ranges| :: ranges[j].0 <= ranges[j].1)
    && (Ascending(values) ==> Maximal(ranges))
    && (ranges == [] <==> values == [])
    && (ranges != [] ==> ranges[0].0 == values[0] && ranges[|ranges| - 1].1 == values[|values| - 1])
  }

  lemma GroupStep(values: seq<nat>, ranges: seq<Range>, start: nat, end: nat, value: nat)
    requires values != [] && Grouped(values, ranges + [(start, end)]) && end <= U64_MAX && value <= U64_MAX
    ensures value == SatAdd(end, 1) ==> Grouped(values + [value], ranges + [(start, value)])
    ensures value != SatAdd(end, 1) ==> Grouped(values + [value], ranges + [(start, end)] + [(value, value)])
  {
    var before := ranges + [(start, end)];
    assert before[|ranges|] == (start, end);
    forall v: nat ensures Covered(ranges + [(start, value)], v) <==> Covered(ranges, v) || start <= v <= value
                  ensures Covered(before, v) <==> Covered(ranges, v) || start <= v <= end
                  ensures Covered(before + [(value, value)], v) <==> Covered(before, v) || v == value
    {
      CoveredAppend(ranges, (start, value), v);
      CoveredAppend(ranges, (start, end), v);
      CoveredAppend(before, (value, value), v);
    }
    forall v: nat ensures v in values + [value] <==> v in values || v == value {}
    assert value == SatAdd(end, 1) ==> value == end + 1 || value == end;
    forall j | 0 <= j <= |ranges| ensures before[j].0 <= before[j].1 && (j < |ranges| ==> ranges[j].0 <= ranges[j].1) {
      assert j < |ranges| ==> before[j] == ranges[j];
    }
    if Ascending(values + [value]) {
      AscendingLast(values, value);
      MaximalGrow(ranges, start, end, value);
    }
  }

  lemma AscendingLast(values: seq<nat>, value: nat)
    requires values != [] && Ascending(values + [value])
    ensures Ascending(values) && values[|values| - 1] < value
  {
    var all := values + [value];
    assert all[|values| - 1] < all[|values|];
    forall i, j | 0 <= i < j < |values| ensures values[i] < values[j] {
      assert all[i] < all[j];
    }
  }

  /** Groups block numbers into runs. The source spells this loop three times:
      for persist plans, for missing cache blocks and for fill claims. */
  method ContiguousRanges(values: seq<nat>) returns (ranges: seq<Range>)
    requires forall v | v in values :: v <= U64_MAX
    ensures Grouped(values, ranges)
  {
    ranges := [];
    if values == [] { return; }
    assert values[0] in values;
    var start, end, i := values[0], values[0], 1;
    forall v: nat ensures Covered([] + [(start, end)], v) <==> v in values[..1] {
      CoveredAppend([], (start, end), v);
    }
    while i < |values|
      invariant 1 <= i <= |values| && end == values[i - 1]
      invariant Grouped(values[..i], ranges + [(start, end)])
    {
      var value := values[i];
      assert value in values && end in values;
      assert values[..i + 1] == values[..i] + [value];
      GroupStep(values[..i], ranges, start, end, value);
      if value == SatAdd(end, 1) {
        end := value;
      } else {
        ranges := ranges + [(start, end)];
        start, end := value, value;
      }
      i := i + 1;
    }
    ranges := ranges + [(start, end)];
    assert values[..i] == values;
  }

  /** `sort_unstable` followed by `dedup`. */
  method SortDedup(values: seq<nat>) returns (sorted: seq<nat>)
    ensures Ascending(sorted)
    ensures forall v :: v in sorted <==> v in values
  {
    sorted := [];
    for n := 0 to |values|
      invariant Ascending(sorted)
      invariant forall v :: v in sorted <==> v in values[..n]
    {
      var value := values[n];
      var at := 0;
      while at < |sorted| && sorted[at] < value
        invariant 0 <= at <= |sorted|
        invariant forall j | 0 <= j < at :: sorted[j] < value
      {
        at := at + 1;
      }
      assert values[..n + 1] == values[..n] + [value];
      if at == |sorted| || sorted[at] != value {
        sorted := sorted[..at] + [value] + sorted[at..];
      }
    }
    assert values[..|values|] == values;
  }

  method SortedContiguousRanges(values: seq<nat>) returns (ranges: seq<Range>)
    requires forall v | v in values :: v <= U64_MAX
    ensures forall v: nat :: Covered(ranges, v) <==> v in values
    ensures Maximal(ranges)
  {
    var sorted := SortDedup(values);
    ranges := ContiguousRanges(sorted);
  }

  datatype PlanEntry = PlanEntry(index: nat, usedLen: nat)

  datatype WriteClass = NewObjectSequential | ExistingObjectPatch | TruncateOnly

  datatype ExecutionPlan = ExecutionPlan(totalBlocks: nat, writeClass: WriteClass, blocks: seq<PlanEntry>)

  ghost predicate Listed(blocks: seq<PlanEntry>, i: nat) {
    exists e :: e in blocks && e.index == i
  }

  /** The plan lists exactly the dirty blocks below the block count, in order. */
  ghost predicate PlanOf(blocks: seq<PlanEntry>, fileSize: nat, bs: nat, dirty: seq<nat>) {
    && (forall a, b | 0 <= a < b < |blocks| :: blocks[a].index < blocks[b].index)
    && (forall i: nat :: Listed(blocks, i) <==> i in dirty && i < BlockCountForLength(fileSize, bs, false))
    && (forall e | e in blocks ::
          e.usedLen == Min(SatSub(fileSize, Start(e.index, bs)), bs) && 1 <= e.usedLen <= bs)
  }

  lemma ListedAppend(blocks: seq<PlanEntry>, e: PlanEntry, i: nat)
    ensures Listed(blocks + [e], i) <==> Listed(blocks, i) || i == e.index
  {
  }

  /** Appends the plan entries of one dirty range, clipped to the file. */
  method PlanRange(blocks: seq<PlanEntry>, lo: nat, hi: nat, fileSize: nat, bs: nat)
    returns (more: seq<PlanEntry>)
    requires bs >= 1 && fileSize <= U64_MAX && lo <= hi
    requires forall e | e in blocks :: e.index < lo
    requires forall a, b | 0 <= a < b < |blocks| :: blocks[a].index < blocks[b].index
    ensures forall a, b | 0 <= a < b < |more| :: more[a].index < more[b].index
    ensures forall i: nat :: Listed(more, i) <==>
                        Listed(blocks, i) || (lo <= i <= hi && i < BlockCountForLength(fileSize, bs, false))
    ensures forall e | e in more :: e in blocks ||
              (lo <= e.index <= hi
               && e.usedLen == Min(SatSub(fileSize, Start(e.index, bs)), bs) && 1 <= e.usedLen <= bs)
  {
    var totalBlocks := BlockCountForLength(fileSize, bs, false);
    var startBlock := Min(lo, totalBlocks);
    var endBlock := Min(hi, SatSub(totalBlocks, 1));
    more := blocks;
    if startBlock > endBlock { return; }
    var index := startBlock;
    while index <= endBlock
      invariant startBlock <= index <= endBlock + 1
      invariant forall e | e in more :: e.index < index || e in blocks
      invariant forall a, b | 0 <= a < b < |more| :: more[a].index < more[b].index
      invariant forall i: nat :: Listed(more, i) <==>
                            Listed(blocks, i) || (lo <= i < index && i < totalBlocks)
      invariant forall e | e in more :: e in blocks ||
                  (lo <= e.index <= hi
                   && e.usedLen == Min(SatSub(fileSize, Start(e.index, bs)), bs) && 1 <= e.usedLen <= bs)
    {
      DirtyBlockSizeIsShare(fileSize, index, bs);
      var usedLen := DirtyBlockSize(fileSize, index, bs);
      if usedLen != 0 {
        var entry := PlanEntry(index, usedLen);
        forall i: nat ensures Listed(more + [entry], i) <==> Listed(more, i) || i == index {
          ListedAppend(more, entry, i);
        }
        more := more + [entry];
      }
      index := index + 1;
    }
  }

  method PersistBlockPlan(fileSize: nat, blockSize: nat, truncatePending: bool, dirty: seq<nat>)
    returns (totalBlocks: nat, truncateOnly: bool, blocks: seq<PlanEntry>)
    requires fileSize <= U64_MAX && forall v | v in dirty :: v <= U64_MAX
    ensures totalBlocks == BlockCountForLength(fileSize, Max(blockSize, 1), false)
    ensures truncateOnly <==> truncatePending && dirty == []
    ensures PlanOf(blocks, fileSize, Max(blockSize, 1), dirty)
  {
    var bs := Max(blockSize, 1);
    totalBlocks := BlockCountForLength(fileSize, bs, false);
    truncateOnly := truncatePending && dirty == [];
    blocks := [];
    if truncateOnly { return; }
    var ranges := SortedContiguousRanges(dirty);
    for n := 0 to |ranges|
      invariant forall e | e in blocks :: n < |ranges| ==> e.index < ranges[n].0
      invariant forall a, b | 0 <= a < b < |blocks| :: blocks[a].index < blocks[b].index
      invariant forall i: nat :: Listed(blocks, i) <==> Covered(ranges[..n], i) && i < totalBlocks
      invariant forall e | e in blocks ::
                  e.usedLen == Min(SatSub(fileSize, Start(e.index, bs)), bs) && 1 <= e.usedLen <= bs
    {
      assert ranges[..n + 1] == ranges[..n] + [ranges[n]];
      forall i: nat ensures Covered(ranges[..n + 1], i) <==>
                       Covered(ranges[..n], i) || ranges[n].0 <= i <= ranges[n].1
      {
        CoveredAppend(ranges[..n], ranges[n], i);
      }
      blocks := PlanRange(blocks, ranges[n].0, ranges[n].1, fileSize, bs);
    }
    assert ranges[..|ranges|] == ranges;
  }

  function ClassifyPersistWrite(newObjectSequential: bool, truncatePending: bool, hasPayload: bool): WriteClass {
    if newObjectSequential && hasPayload then NewObjectSequential
    else if truncatePending && !hasPayload then TruncateOnly
    else ExistingObjectPatch
  }

  method ChoosePersistExecutionPlan(fileSize: nat, blockSize: nat, truncatePending: bool, dirty: seq<nat>)
    returns (plan: ExecutionPlan)
    requires fileSize <= U64_MAX && forall v | v in dirty :: v <= U64_MAX
    ensures plan.totalBlocks == BlockCountForLength(fileSize, Max(blockSize, 1), false)
    ensures PlanOf(plan.blocks, fileSize, Max(blockSize, 1), dirty)
    ensures plan.writeClass.TruncateOnly? <==>
            truncatePending && forall i | i in dirty :: i >= plan.totalBlocks
    ensures !plan.writeClass.NewObjectSequential?
  {
    var total, _, blocks := PersistBlockPlan(fileSize, blockSize, truncatePending, dirty);
    plan := ExecutionPlan(total, ClassifyPersistWrite(false, truncatePending, blocks != []), blocks);
    if blocks != [] { assert Listed(blocks, blocks[0].index); }
  }
}
