/** Planning a range copy: worker segments, and the runs of a payload that differ from the
destination. */
module CopyPlan {
  import opened Bytes
  import opened PersistPlan

  datatype Segment = Segment(src: nat, dst: nat, length: nat)

  function SegmentSum(segments: seq<Segment>): nat {
    if segments == [] then 0 else segments[0].length + SegmentSum(segments[1..])
  }

  /** Segment `n` starts where its predecessor, a whole number of blocks, ends. */
  ghost predicate Follows(segments: seq<Segment>, n: nat, bs: nat)
    requires bs >= 1 && 0 < n < |segments|
  {
    && segments[n].src == SatAdd(segments[n - 1].src, segments[n - 1].length)
    && segments[n].dst == SatAdd(segments[n - 1].dst, segments[n - 1].length)
    && OffsetIn(segments[n - 1].length, bs) == 0
  }

  /** The segments are consecutive in source and destination (offsets saturate) and whole
      blocks except the last. */
  ghost predicate Consecutive(segments: seq<Segment>, offIn: nat, offOut: nat, bs: nat)
    requires bs >= 1
  {
    && (segments != [] ==> segments[0].src == offIn && segments[0].dst == offOut)
    && (forall n | 0 <= n < |segments| :: segments[n].length > 0)
    && (forall n: nat | 0 < n < |segments| :: Follows(segments, n, bs))
  }

  /** Cutting `remaining` bytes into shares. */
  function Cut(src: nat, dst: nat, remaining: nat, share: nat): seq<Segment>
    requires share >= 1
    decreases remaining
  {
    if remaining == 0 then []
    else
      var chunk := Min(remaining, share);
      [Segment(src, dst, chunk)] + Cut(SatAdd(src, chunk), SatAdd(dst, chunk), remaining - chunk, share)
  }

  lemma {:induction false} CutIsConsecutive(src: nat, dst: nat, remaining: nat, share: nat, bs: nat)
    requires share >= 1 && bs >= 1
    requires share < remaining ==> OffsetIn(share, bs) == 0
    ensures Consecutive(Cut(src, dst, remaining, share), src, dst, bs)
    ensures SegmentSum(Cut(src, dst, remaining, share)) == remaining
    decreases remaining
  {
    if remaining > 0 {
      var chunk := Min(remaining, share);
      var rest := Cut(SatAdd(src, chunk), SatAdd(dst, chunk), remaining - chunk, share);
      CutIsConsecutive(SatAdd(src, chunk), SatAdd(dst, chunk), remaining - chunk, share, bs);
      var all := [Segment(src, dst, chunk)] + rest;
      assert all[1..] == rest;
      forall n: nat | 0 < n < |all| ensures Follows(all, n, bs) {
        assert all[n] == rest[n - 1];
        if n > 1 {
          assert Follows(rest, n - 1, bs);
          assert all[n - 1] == rest[n - 2];
        }
      }
    }
  }

  lemma {:induction false} CutCount(src: nat, dst: nat, remaining: nat, share: nat, workers: nat)
    requires share >= 1 && remaining <= Start(workers, share)
    ensures |Cut(src, dst, remaining, share)| <= workers
    decreases remaining
  {
    if remaining > 0 {
      var chunk := Min(remaining, share);
      CutCount(SatAdd(src, chunk), SatAdd(dst, chunk), remaining - chunk, share, workers - 1);
    }
  }

  lemma {:induction false} CutIsEven(src: nat, dst: nat, remaining: nat, share: nat, n: nat)
    requires share >= 1 && n < |Cut(src, dst, remaining, share)|
    ensures var segments := Cut(src, dst, remaining, share);
            if n < |segments| - 1 then segments[n].length == share < remaining
            else segments[n].length <= Min(share, remaining)
    decreases remaining
  {
    var chunk := Min(remaining, share);
    if n > 0 { CutIsEven(SatAdd(src, chunk), SatAdd(dst, chunk), remaining - chunk, share, n - 1); }
  }

  /** `blocks` is the least whole share with which the workers copy the whole request. */
  ghost predicate FairShare(blocks: nat, length: nat, bs: nat, workers: nat) {
    && blocks >= 1 && length <= Start(Start(blocks, workers), bs)
    && (blocks > 1 ==> Start(Start(blocks - 1, workers), bs) < length)
  }

  /** Every worker but the last gets `blocks` blocks, and the last gets no more. */
  ghost predicate EvenlyShared(segments: seq<Segment>, blocks: nat, bs: nat) {
    && (forall n | 0 <= n < |segments| :: segments[n].length <= Start(blocks, bs))
    && (forall n | 0 <= n < |segments| - 1 :: segments[n].length == Start(blocks, bs))
  }

  /** The bytes each worker copies: an equal share of the blocks, rounded up. */
  function WorkerShare(length: nat, bs: nat, workerCount: nat): nat
    requires bs >= 1 && workerCount >= 1
  {
    var totalBlocks := BlockCountForLength(length, bs, false);
    SatStart(Max(BlockCountForLength(totalBlocks, workerCount, false), 1), bs)
  }

  /** Splits a copy among workers. */
  method CopySegments(offIn: nat, offOut: nat, length: nat, blockSize: nat, workers: nat)
    returns (segments: seq<Segment>)
    requires length <= U64_MAX
    ensures Consecutive(segments, offIn, offOut, Max(blockSize, 1))
    ensures SegmentSum(segments) == length && |segments| <= Max(workers, 1)
    ensures exists blocks :: EvenlyShared(segments, blocks, Max(blockSize, 1))
                             && (length > 0 ==> FairShare(blocks, length, Max(blockSize, 1), Max(workers, 1)))
  {
    segments := [];
    if length == 0 {
      assert EvenlyShared(segments, 1, Max(blockSize, 1));
      return;
    }
    var bs, wanted := Max(blockSize, 1), Max(workers, 1);
    var workerCount := Max(Min(wanted, BlockCountForLength(length, bs, false)), 1);
    var share := WorkerShare(length, bs, workerCount);
    ShareCovers(length, bs, workerCount, share);
    CutIsConsecutive(offIn, offOut, length, share, bs);
    CutCount(offIn, offOut, length, share, workerCount);
    segments := CutIntoShares(offIn, offOut, length, share);
    ghost var blocks := ShareIsFair(length, bs, wanted, share);
    forall n: nat | n < |segments| { CutIsEven(offIn, offOut, length, share, n); }
    assert EvenlyShared(segments, blocks, bs);
  }

  method CutIntoShares(offIn: nat, offOut: nat, length: nat, share: nat) returns (segments: seq<Segment>)
    requires share >= 1
    ensures segments == Cut(offIn, offOut, length, share)
  {
    segments := [];
    var src, dst, remaining := offIn, offOut, length;
    while remaining > 0
      invariant segments + Cut(src, dst, remaining, share) == Cut(offIn, offOut, length, share)
    {
      var chunk := Min(remaining, share);
      segments := segments + [Segment(src, dst, chunk)];
      src, dst, remaining := SatAdd(src, chunk), SatAdd(dst, chunk), remaining - chunk;
    }
  }

  /** The shares of all workers cover the request, and a share that leaves a rest is whole blocks. */
  lemma ShareCovers(length: nat, bs: nat, workerCount: nat, share: nat)
    requires bs >= 1 && 0 < length <= U64_MAX && workerCount >= 1
    requires share == WorkerShare(length, bs, workerCount)
    ensures share >= 1 && length <= Start(workerCount, share)
    ensures share < length ==> OffsetIn(share, bs) == 0
  {
    var total := BlockCountForLength(length, bs, false);
    var perWorker := Max(BlockCountForLength(total, workerCount, false), 1);
    StartMonotone(1, perWorker, bs);
    StartMonotone(1, workerCount, share);
    BlockCoordinates(perWorker, 0, bs);
    if share == Start(perWorker, bs) {
      StartMonotone(total, Start(perWorker, workerCount), bs);
      Reassociate(workerCount, perWorker, bs);
    }
  }

  lemma LeastShare(total: nat, wanted: nat, blocks: nat)
    requires total >= 1 && wanted >= 1
    requires blocks == Max(BlockCountForLength(total, Max(Min(wanted, total), 1), false), 1)
    ensures total <= Start(blocks, wanted) && (blocks > 1 ==> Start(blocks - 1, wanted) < total)
  {
    if wanted > total {
      assert Start(1, total) == total && Start(1, wanted) == wanted;
      if blocks > 1 { StartMonotone(1, blocks - 1, total); }
    }
  }

  lemma ShareIsFair(length: nat, bs: nat, wanted: nat, share: nat) returns (blocks: nat)
    requires bs >= 1 && 0 < length <= U64_MAX && wanted >= 1
    requires share == WorkerShare(length, bs, Max(Min(wanted, BlockCountForLength(length, bs, false)), 1))
    ensures FairShare(blocks, length, bs, wanted)
    ensures Min(share, length) <= Start(blocks, bs) && (share < length ==> share == Start(blocks, bs))
  {
    var total := BlockCountForLength(length, bs, false);
    var workerCount := Max(Min(wanted, total), 1);
    blocks := Max(BlockCountForLength(total, workerCount, false), 1);
    LeastShare(total, wanted, blocks);
    StartMonotone(total, Start(blocks, wanted), bs);
    if blocks > 1 { StartMonotone(Start(blocks - 1, wanted), total - 1, bs); }
  }

  /** `a` shares of `b` blocks are `b` times `a` blocks. */
  lemma Reassociate(a: nat, b: nat, c: nat)
    ensures Start(a, Start(b, c)) == Start(Start(b, a), c)
  {
  }

  // ---------------------------------------------------------------- changed runs

  /** The maximal runs of set flags, as half-open index intervals. */
  function FlagRuns(mask: seq<bool>): seq<Range> {
    if mask == [] then []
    else
      var n := |mask| - 1;
      var runs := FlagRuns(mask[..n]);
      if !mask[n] then runs
      else if runs != [] && runs[|runs| - 1].1 == n then runs[..|runs| - 1] + [(runs[|runs| - 1].0, n + 1)]
      else runs + [(n, n + 1)]
  }

  ghost predicate InRun(runs: seq<Range>, j: nat) {
    exists m :: 0 <= m < |runs| && runs[m].0 <= j < runs[m].1
  }

  /** The runs cover exactly the set flags, are nonempty, and cannot be joined. */
  ghost predicate RunsOf(runs: seq<Range>, mask: seq<bool>) {
    && (forall m | 0 <= m < |runs| :: runs[m].0 < runs[m].1 <= |mask|)
    && (forall a, b | 0 <= a < b < |runs| :: runs[a].1 < runs[b].0)
    && (forall j: nat | j < |mask| :: InRun(runs, j) <==> mask[j])
  }

  lemma {:induction false} FlagRunsAreMaximal(mask: seq<bool>)
    ensures RunsOf(FlagRuns(mask), mask)
  {
    if mask != [] {
      var n := |mask| - 1;
      FlagRunsAreMaximal(mask[..n]);
      RunsShape(FlagRuns(mask[..n]), FlagRuns(mask), n, mask[n]);
      forall j: nat | j < |mask| ensures InRun(FlagRuns(mask), j) <==> mask[j] {
        assert j < n ==> (InRun(FlagRuns(mask[..n]), j) <==> mask[..n][j]);
        ExtendedRuns(FlagRuns(mask[..n]), FlagRuns(mask), n, mask[n], j);
      }
    }
  }

  lemma RunsShape(before: seq<Range>, after: seq<Range>, n: nat, flag: bool)
    requires forall m | 0 <= m < |before| :: before[m].0 < before[m].1 <= n
    requires forall a, b | 0 <= a < b < |before| :: before[a].1 < before[b].0
    requires after == if !flag then before
                      else if before != [] && before[|before| - 1].1 == n
                      then before[..|before| - 1] + [(before[|before| - 1].0, n + 1)]
                      else before + [(n, n + 1)]
    ensures forall m | 0 <= m < |after| :: after[m].0 < after[m].1 <= n + 1
    ensures forall a, b | 0 <= a < b < |after| :: after[a].1 < after[b].0
  {
  }

  lemma ExtendedRuns(before: seq<Range>, after: seq<Range>, n: nat, flag: bool, j: nat)
    requires forall m | 0 <= m < |before| :: before[m].0 < before[m].1 <= n
    requires after == if !flag then before
                      else if before != [] && before[|before| - 1].1 == n
                      then before[..|before| - 1] + [(before[|before| - 1].0, n + 1)]
                      else before + [(n, n + 1)]
    requires j <= n
    ensures InRun(after, j) <==> if j == n then flag else InRun(before, j)
  {
    if InRun(before, j) {
      var m :| 0 <= m < |before| && before[m].0 <= j < before[m].1;
      assert after[m].0 <= j < after[m].1;
    }
    if flag {
      assert after[|after| - 1].0 <= n < after[|after| - 1].1;
    }
    if InRun(after, j) {
      var m :| 0 <= m < |after| && after[m].0 <= j < after[m].1;
      if j < n { assert before[m].0 <= j < before[m].1; }
    }
  }

  /** The byte interval of a run: it starts with its first block, and a run that reaches
      the end of the mask ends with the copy itself. */
  function RunBytes(run: Range, off: nat, total: nat, bs: nat, blocks: nat): Range {
    (SatAdd(off, SatStart(run.0, bs)),
     if run.1 < blocks then SatAdd(off, SatStart(run.1, bs)) else Max(SatAdd(off, total), off))
  }

  /** The closed runs and the open one, if any, after `n` flags. */
  ghost predicate OpenRun(runs: seq<Range>, open: Option<nat>, mask: seq<bool>) {
    match open
    case Some(a) => FlagRuns(mask) == runs + [(a, |mask|)]
    case None => FlagRuns(mask) == runs && (runs != [] ==> runs[|runs| - 1].1 < |mask|)
  }

  lemma StepRun(runs: seq<Range>, open: Option<nat>, mask: seq<bool>, n: nat)
    requires n < |mask| && OpenRun(runs, open, mask[..n])
    ensures !mask[n] ==> OpenRun(if open.Some? then runs + [(open.value, n)] else runs, None, mask[..n + 1])
    ensures mask[n] ==> OpenRun(runs, if open.Some? then open else Some(n), mask[..n + 1])
  {
    assert mask[..n + 1][..n] == mask[..n];
    if open.Some? {
      var all := runs + [(open.value, n)];
      assert all[..|all| - 1] == runs && all[|all| - 1] == (open.value, n);
    }
  }

  /** One byte range per run of set flags. */
  ghost predicate RangesFor(ranges: seq<Range>, mask: seq<bool>, off: nat, total: nat, bs: nat) {
    |ranges| == |FlagRuns(mask)|
    && forall m | 0 <= m < |ranges| :: ranges[m] == RunBytes(FlagRuns(mask)[m], off, total, bs, |mask|)
  }

  /** The byte ranges of the changed blocks. */
  method PackChangedRanges(off: nat, total: nat, blockSize: nat, mask: seq<bool>) returns (ranges: seq<Range>)
    requires off <= U64_MAX
    ensures RangesFor(ranges, mask, off, total, Max(blockSize, 1))
  {
    var bs, copyEnd := Max(blockSize, 1), SatAdd(off, total);
    ranges := [];
    var runStart: Option<nat> := None;
    ghost var runs: seq<Range>, open: Option<nat> := [], None;
    for n := 0 to |mask|
      invariant OpenRun(runs, open, mask[..n]) && forall m | 0 <= m < |runs| :: runs[m].1 < |mask|
      invariant |ranges| == |runs|
      invariant forall m | 0 <= m < |runs| :: ranges[m] == RunBytes(runs[m], off, total, bs, |mask|)
      invariant runStart == if open.Some? then Some(SatAdd(off, SatStart(open.value, bs))) else None
    {
      var blockStart := SatAdd(off, SatStart(n, bs));
      StepRun(runs, open, mask, n);
      if mask[n] {
        if runStart.None? { runStart, open := Some(blockStart), Some(n); }
      } else if runStart.Some? {
        ranges := ranges + [(runStart.value, blockStart)];
        runs := runs + [(open.value, n)];
        runStart, open := None, None;
      }
    }
    assert mask[..|mask|] == mask;
    if runStart.Some? {
      ranges := ranges + [(runStart.value, Max(copyEnd, off))];
    }
  }

  method PackChangedCopyPairs(off: nat, total: nat, blockSize: nat, pairs: seq<(seq<byte>, seq<byte>)>)
    returns (ranges: seq<Range>)
    requires off <= U64_MAX
    ensures RangesFor(ranges, PairMask(pairs), off, total, Max(blockSize, 1))
  {
    ranges := PackChangedRanges(off, total, blockSize, PairMask(pairs));
  }

  function PairMask(pairs: seq<(seq<byte>, seq<byte>)>): (mask: seq<bool>)
    ensures |mask| == |pairs|
  {
    seq(|pairs|, n requires 0 <= n < |pairs| => pairs[n].0 != pairs[n].1)
  }

  type Run = (nat, seq<byte>)

  /** Block-sized piece `j` of the payload. */
  function Chunk(payload: seq<byte>, bs: nat, j: nat): seq<byte> {
    var from := Min(Start(j, bs), |payload|);
    payload[from..Min(from + bs, |payload|)]
  }

  /** `len` bytes of the destination from `from`, zero where it has none. */
  function Padded(current: seq<byte>, from: nat, len: nat): (r: seq<byte>)
    ensures |r| == len && forall q: nat | q < len :: r[q] == ByteIn(current, from + q)
  {
    Resize(if from < |current| then current[from..] else [], len)
  }

  predicate Differs(payload: seq<byte>, current: seq<byte>, bs: nat, j: nat) {
    Chunk(payload, bs, j) != Padded(current, Start(j, bs), |Chunk(payload, bs, j)|)
  }

  /** Which pieces of the payload differ from the destination. */
  function ChangeMask(payload: seq<byte>, current: seq<byte>, bs: nat): (mask: seq<bool>) {
    seq(BlockCountForLength(|payload|, bs, false), j requires 0 <= j => Differs(payload, current, bs, j))
  }

  /** A run of changed pieces as it is written to the destination. */
  function RunData(payload: seq<byte>, dst: nat, bs: nat, span: Range): Run {
    var from := Min(Start(span.0, bs), |payload|);
    var to := Max(from, Min(Start(span.1, bs), |payload|));
    (dst + from, payload[from..to])
  }

  ghost predicate RunsFor(runs: seq<Run>, spans: seq<Range>, payload: seq<byte>, dst: nat, bs: nat) {
    |runs| == |spans| && forall m | 0 <= m < |runs| :: runs[m] == RunData(payload, dst, bs, spans[m])
  }

  /** Compares a piece with the destination, zero-padded where the destination ends. */
  method SameChunk(chunk: seq<byte>, current: seq<byte>, rel: nat) returns (same: bool)
    ensures same <==> chunk == Padded(current, rel, |chunk|)
  {
    var chunkLen := |chunk|;
    if rel + chunkLen <= |current| {
      same := current[rel..rel + chunkLen] == chunk;
      assert current[rel..rel + chunkLen] == Padded(current, rel, chunkLen);
    } else {
      var padded := Resize([], chunkLen);
      if rel < |current| { padded := Splice(padded, 0, current[rel..]); }
      same := padded == chunk;
      assert padded == Padded(current, rel, chunkLen);
    }
  }

  /** The planner's variables after `j` pieces, `rel` bytes: the closed runs, and the open
      run with the payload collected for it. */
  ghost predicate RunState(payload: seq<byte>, dst: nat, bs: nat, mask: seq<bool>, j: nat, rel: nat, runs: seq<Run>,
                           spans: seq<Range>, open: Option<nat>, runStart: Option<nat>, runPayload: seq<byte>) {
    && j <= |mask| && rel == Min(Start(j, bs), |payload|)
    && OpenRun(spans, open, mask[..j]) && RunsFor(runs, spans, payload, dst, bs)
    && (open.Some? <==> runStart.Some?)
    && (open.Some? ==> open.value < j && runStart.value == Start(open.value, bs) && runStart.value <= rel
                       && runStart.value < |payload| && runPayload == payload[runStart.value..rel])
    && (open.None? ==> runPayload == [])
  }

  lemma {:induction false} SameStep(payload: seq<byte>, dst: nat, bs: nat, mask: seq<bool>, j: nat, rel: nat,
                                    next: nat, runs: seq<Run>,
                 spans: seq<Range>, open: Option<nat>, runStart: Option<nat>, runPayload: seq<byte>)
    requires RunState(payload, dst, bs, mask, j, rel, runs, spans, open, runStart, runPayload)
    requires j < |mask| && !mask[j] && rel < |payload| && next == Min(Start(j + 1, bs), |payload|)
    ensures if runStart.Some?
            then RunState(payload, dst, bs, mask, j + 1, next, runs + [(dst + runStart.value, runPayload)],
                          spans + [(open.value, j)], None, None, [])
            else RunState(payload, dst, bs, mask, j + 1, next, runs, spans, None, None, [])
  {
    StepRun(spans, open, mask, j);
    if open.Some? { ClosedRun(payload, dst, bs, (open.value, j), runStart.value, rel); }
  }

  lemma {:induction false} ChangedStep(payload: seq<byte>, dst: nat, bs: nat, mask: seq<bool>, j: nat, rel: nat,
                                       next: nat, runs: seq<Run>,
                    spans: seq<Range>, open: Option<nat>, runStart: Option<nat>, runPayload: seq<byte>)
    requires RunState(payload, dst, bs, mask, j, rel, runs, spans, open, runStart, runPayload)
    requires j < |mask| && mask[j] && rel == Start(j, bs) < |payload| && next == Min(Start(j + 1, bs), |payload|)
    requires rel <= next
    ensures RunState(payload, dst, bs, mask, j + 1, next, runs, spans,
                     if open.Some? then open else Some(j), if runStart.Some? then runStart else Some(rel),
                     runPayload + payload[rel..next])
  {
    StepRun(spans, open, mask, j);
    JoinSlices(payload, if runStart.Some? then runStart.value else rel, rel, next);
  }

  /** One turn of the planner: a changed piece joins the open run, a same piece closes it. */
  method PackPiece(dst: nat, bs: nat, payload: seq<byte>, current: seq<byte>, rel: nat, runs: seq<Run>,
                   runStart: Option<nat>, runPayload: seq<byte>, ghost j: nat, ghost spans: seq<Range>,
                   ghost open: Option<nat>)
    returns (next: nat, runs': seq<Run>, runStart': Option<nat>, runPayload': seq<byte>,
             ghost spans': seq<Range>, ghost open': Option<nat>)
    requires bs >= 1 && rel < |payload|
    requires RunState(payload, dst, bs, ChangeMask(payload, current, bs), j, rel, runs, spans, open, runStart,
                      runPayload)
    ensures next > rel && j < |ChangeMask(payload, current, bs)|
    ensures next == |payload| <==> j + 1 == |ChangeMask(payload, current, bs)|
    ensures RunState(payload, dst, bs, ChangeMask(payload, current, bs), j + 1, next, runs', spans', open', runStart',
                     runPayload')
  {
    ghost var mask := ChangeMask(payload, current, bs);
    ChunkBounds(payload, bs, j, rel);
    var chunkLen := Min(|payload| - rel, bs);
    next := rel + chunkLen;
    var chunk := payload[rel..next];
    var same := SameChunk(chunk, current, rel);
    assert mask[j] == !same by { assert chunk == Chunk(payload, bs, j); }
    if same {
      SameStep(payload, dst, bs, mask, j, rel, next, runs, spans, open, runStart, runPayload);
      runs', spans' := runs, spans;
      if runStart.Some? {
        runs', spans' := runs + [(dst + runStart.value, runPayload)], spans + [(open.value, j)];
      }
      runStart', runPayload', open' := None, [], None;
    } else {
      ChangedStep(payload, dst, bs, mask, j, rel, next, runs, spans, open, runStart, runPayload);
      runs', spans', runStart', open' := runs, spans, runStart, open;
      if runStart.None? { runStart', open' := Some(rel), Some(j); }
      runPayload' := runPayload + chunk;
    }
  }

  /** The runs of the payload that differ from the destination, block by block. */
  method PackCopySkipUnchangedRuns(dst: nat, blockSize: nat, payload: seq<byte>, current: seq<byte>)
    returns (runs: seq<Run>)
    ensures var bs := Max(blockSize, 1); RunsFor(runs, FlagRuns(ChangeMask(payload, current, bs)), payload, dst, bs)
  {
    var bs := Max(blockSize, 1);
    runs := [];
    var runStart: Option<nat>, runPayload: seq<byte>, rel := None, [], 0;
    ghost var mask, j := ChangeMask(payload, current, bs), 0;
    ghost var spans: seq<Range>, open: Option<nat> := [], None;
    while rel < |payload|
      invariant RunState(payload, dst, bs, mask, j, rel, runs, spans, open, runStart, runPayload)
      invariant rel == |payload| <==> j == |mask|
    {
      rel, runs, runStart, runPayload, spans, open :=
        PackPiece(dst, bs, payload, current, rel, runs, runStart, runPayload, j, spans, open);
      j := j + 1;
    }
    LastRun(payload, dst, bs, mask, rel, runs, spans, open, runStart, runPayload);
    if runStart.Some? { runs := runs + [(dst + runStart.value, runPayload)]; }
  }

  /** After the last piece, closing the open run completes the list. */
  lemma {:induction false} LastRun(payload: seq<byte>, dst: nat, bs: nat, mask: seq<bool>, rel: nat, runs: seq<Run>,
                                   spans: seq<Range>, open: Option<nat>, runStart: Option<nat>, runPayload: seq<byte>)
    requires RunState(payload, dst, bs, mask, |mask|, rel, runs, spans, open, runStart, runPayload)
    ensures RunsFor(if runStart.Some? then runs + [(dst + runStart.value, runPayload)] else runs,
                    FlagRuns(mask), payload, dst, bs)
  {
    assert mask[..|mask|] == mask;
    if open.Some? {
      ClosedRun(payload, dst, bs, (open.value, |mask|), runStart.value, rel);
      RunsForAppend(runs, spans, (open.value, |mask|), payload, dst, bs);
    }
  }

  lemma RunsForAppend(runs: seq<Run>, spans: seq<Range>, span: Range, payload: seq<byte>, dst: nat, bs: nat)
    requires RunsFor(runs, spans, payload, dst, bs)
    ensures RunsFor(runs + [RunData(payload, dst, bs, span)], spans + [span], payload, dst, bs)
  {
  }

  lemma JoinSlices(s: seq<byte>, a: nat, b: nat, c: nat)
    requires a <= b <= c <= |s|
    ensures s[a..b] + s[b..c] == s[a..c]
  {
  }

  lemma ChunkBounds(payload: seq<byte>, bs: nat, j: nat, rel: nat)
    requires bs >= 1 && rel == Min(Start(j, bs), |payload|) && rel < |payload|
    ensures rel == Start(j, bs) && j < BlockCountForLength(|payload|, bs, false)
    ensures Start(j + 1, bs) == rel + bs
    ensures rel + bs >= |payload| <==> j + 1 == BlockCountForLength(|payload|, bs, false)
  {
    NextStart(j, bs);
    BlockCountIsExact(|payload|, j, bs);
    BlockCountIsExact(|payload|, j + 1, bs);
  }

  lemma ClosedRun(payload: seq<byte>, dst: nat, bs: nat, span: Range, start: nat, rel: nat)
    requires start == Start(span.0, bs) < |payload| && rel == Min(Start(span.1, bs), |payload|) && start <= rel
    ensures RunData(payload, dst, bs, span) == (dst + start, payload[start..rel])
  {
  }

  /** The payload cut into pieces, each beside the destination bytes it would replace. */
  function CopyPairs(payload: seq<byte>, current: seq<byte>, bs: nat): seq<(seq<byte>, seq<byte>)> {
    seq(BlockCountForLength(|payload|, bs, false),
        j requires 0 <= j => (Chunk(payload, bs, j), Padded(current, Start(j, bs), |Chunk(payload, bs, j)|)))
  }

  /** The two planners agree: on the pieces of one copy the pair planner returns exactly the
      intervals of the runs the payload planner returns. */
  lemma {:induction false} RunIntervalsAgree(payload: seq<byte>, current: seq<byte>, dst: nat, bs: nat, runs: seq<Run>,
                                             ranges: seq<Range>)
    requires bs >= 1 && dst + |payload| <= U64_MAX
    requires RunsFor(runs, FlagRuns(ChangeMask(payload, current, bs)), payload, dst, bs)
    requires RangesFor(ranges, PairMask(CopyPairs(payload, current, bs)), dst, |payload|, bs)
    ensures |ranges| == |runs| && forall m | 0 <= m < |runs| :: ranges[m] == (runs[m].0, runs[m].0 + |runs[m].1|)
  {
    assert PairMask(CopyPairs(payload, current, bs)) == ChangeMask(payload, current, bs);
    forall m | 0 <= m < |runs| ensures ranges[m] == (runs[m].0, runs[m].0 + |runs[m].1|) {
      OneIntervalAgrees(payload, dst, bs, ChangeMask(payload, current, bs), m, runs[m], ranges[m]);
    }
  }

  lemma {:induction false} OneIntervalAgrees(payload: seq<byte>, dst: nat, bs: nat, mask: seq<bool>, m: nat, run: Run,
                                             range: Range)
    requires bs >= 1 && dst + |payload| <= U64_MAX && m < |FlagRuns(mask)|
    requires |mask| == BlockCountForLength(|payload|, bs, false)
    requires run == RunData(payload, dst, bs, FlagRuns(mask)[m])
    requires range == RunBytes(FlagRuns(mask)[m], dst, |payload|, bs, |mask|)
    ensures range == (run.0, run.0 + |run.1|)
  {
    FlagRunIsInside(mask, m);
    SpanInterval(payload, dst, bs, FlagRuns(mask)[m]);
  }

  lemma {:induction false} FlagRunIsInside(mask: seq<bool>, m: nat)
    requires m < |FlagRuns(mask)|
    ensures FlagRuns(mask)[m].0 < FlagRuns(mask)[m].1 <= |mask|
  {
    FlagRunsAreMaximal(mask);
  }

  lemma SpanInterval(payload: seq<byte>, dst: nat, bs: nat, span: Range)
    requires bs >= 1 && dst + |payload| <= U64_MAX
    requires span.0 < span.1 <= BlockCountForLength(|payload|, bs, false)
    ensures var run := RunData(payload, dst, bs, span);
            (run.0, run.0 + |run.1|) == RunBytes(span, dst, |payload|, bs, BlockCountForLength(|payload|, bs, false))
  {
    SpanBytes(|payload|, bs, span);
  }

  /** A span of pieces starts inside the payload and ends inside it unless it is the last. */
  lemma SpanBytes(length: nat, bs: nat, span: Range)
    requires bs >= 1 && span.0 < span.1 <= BlockCountForLength(length, bs, false)
    ensures Start(span.0, bs) < length && Start(span.0, bs) < Start(span.1, bs)
    ensures span.1 < BlockCountForLength(length, bs, false) <==> Start(span.1, bs) < length
  {
    BlocksAreOrdered(span.0, span.1, bs);
    BlockCountIsExact(length, span.0, bs);
    BlockCountIsExact(length, span.1, bs);
  }

  /** Writes the runs one after the other. */
  function ApplyRuns(file: seq<byte>, runs: seq<Run>): seq<byte> {
    if runs == [] then file
    else
      var n := |runs| - 1;
      PWrite(ApplyRuns(file, runs[..n]), runs[n].0, runs[n].1)
  }

  ghost predicate Inside(run: Run, dst: nat, payload: seq<byte>) {
    && dst <= run.0 && run.0 + |run.1| <= dst + |payload|
    && run.1 == payload[run.0 - dst..run.0 - dst + |run.1|]
  }

  ghost predicate Touched(runs: seq<Run>, p: nat) {
    exists m :: 0 <= m < |runs| && runs[m].0 <= p < runs[m].0 + |runs[m].1|
  }

  lemma {:induction false} AppliedSize(file: seq<byte>, runs: seq<Run>, dst: nat, payload: seq<byte>)
    requires dst + |payload| <= |file| && forall m | 0 <= m < |runs| :: Inside(runs[m], dst, payload)
    ensures |ApplyRuns(file, runs)| == |file|
  {
    if runs != [] {
      AppliedSize(file, runs[..|runs| - 1], dst, payload);
      assert Inside(runs[|runs| - 1], dst, payload);
    }
  }

  lemma TouchedSplit(runs: seq<Run>, p: nat)
    requires runs != []
    ensures var n := |runs| - 1;
            Touched(runs, p) <==> Touched(runs[..n], p) || runs[n].0 <= p < runs[n].0 + |runs[n].1|
  {
  }

  lemma WriteInside(file: seq<byte>, run: Run, dst: nat, payload: seq<byte>, p: nat)
    requires dst + |payload| <= |file| && Inside(run, dst, payload) && p < |file|
    ensures |PWrite(file, run.0, run.1)| == |file|
    ensures ByteIn(PWrite(file, run.0, run.1), p) ==
            if run.0 <= p < run.0 + |run.1| then payload[p - dst] else file[p]
  {
  }

  lemma {:induction false} AppliedByte(file: seq<byte>, runs: seq<Run>, dst: nat, payload: seq<byte>, p: nat)
    requires dst + |payload| <= |file| && forall m | 0 <= m < |runs| :: Inside(runs[m], dst, payload)
    requires p < |file|
    ensures Touched(runs, p) ==> dst <= p < dst + |payload|
    ensures ByteIn(ApplyRuns(file, runs), p) == if Touched(runs, p) then payload[p - dst] else file[p]
  {
    if runs != [] {
      var n := |runs| - 1;
      AppliedSize(file, runs[..n], dst, payload);
      AppliedByte(file, runs[..n], dst, payload, p);
      TouchedSplit(runs, p);
      WriteInside(ApplyRuns(file, runs[..n]), runs[n], dst, payload, p);
    }
  }

  /** Every byte outside the runs already has its payload value. */
  lemma {:induction false} UntouchedIsUnchanged(payload: seq<byte>, current: seq<byte>, dst: nat, bs: nat,
                                                runs: seq<Run>, q: nat)
    requires bs >= 1 && q < |payload|
    requires RunsFor(runs, FlagRuns(ChangeMask(payload, current, bs)), payload, dst, bs)
    ensures Touched(runs, dst + q) || payload[q] == ByteIn(current, q)
  {
    var mask := ChangeMask(payload, current, bs);
    var j: nat, k: nat := BlockOf(q, bs), OffsetIn(q, bs);
    BlockCountIsExact(|payload|, j, bs);
    if mask[j] {
      FlagRunsAreMaximal(mask);
      ChangedIsTouched(payload, dst, bs, FlagRuns(mask), runs, j, k);
    } else {
      UnchangedByte(payload, current, bs, j, k);
    }
  }

  lemma {:induction false} ChangedIsTouched(payload: seq<byte>, dst: nat, bs: nat, spans: seq<Range>, runs: seq<Run>,
                                            j: nat, k: nat)
    requires RunsFor(runs, spans, payload, dst, bs) && InRun(spans, j) && k < bs && Start(j, bs) + k < |payload|
    ensures Touched(runs, dst + (Start(j, bs) + k))
  {
    var m :| 0 <= m < |spans| && spans[m].0 <= j < spans[m].1;
    RunCoversByte(payload, dst, bs, spans[m], j, k);
    assert runs[m] == RunData(payload, dst, bs, spans[m]);
  }

  lemma RunCoversByte(payload: seq<byte>, dst: nat, bs: nat, span: Range, j: nat, k: nat)
    requires span.0 <= j < span.1 && k < bs && Start(j, bs) + k < |payload|
    ensures var run := RunData(payload, dst, bs, span); run.0 <= dst + (Start(j, bs) + k) < run.0 + |run.1|
  {
    StartMonotone(span.0, j, bs);
    StartMonotone(j + 1, span.1, bs);
    assert Start(j + 1, bs) == Start(j, bs) + bs;
  }

  lemma UnchangedByte(payload: seq<byte>, current: seq<byte>, bs: nat, j: nat, k: nat)
    requires k < bs && Start(j, bs) + k < |payload| && !Differs(payload, current, bs, j)
    ensures payload[Start(j, bs) + k] == ByteIn(current, Start(j, bs) + k)
  {
  }

  lemma RunsAreInside(payload: seq<byte>, spans: seq<Range>, dst: nat, bs: nat, runs: seq<Run>)
    requires RunsFor(runs, spans, payload, dst, bs)
    ensures forall m | 0 <= m < |runs| :: Inside(runs[m], dst, payload)
  {
  }

  /** Every planned run is nonempty and inside the copied range. */
  lemma RunsHaveBytes(payload: seq<byte>, current: seq<byte>, dst: nat, bs: nat, runs: seq<Run>)
    requires bs >= 1 && RunsFor(runs, FlagRuns(ChangeMask(payload, current, bs)), payload, dst, bs)
    ensures forall m | 0 <= m < |runs| :: runs[m].1 != [] && runs[m].0 + |runs[m].1| <= dst + |payload|
  {
    var spans := FlagRuns(ChangeMask(payload, current, bs));
    FlagRunsAreMaximal(ChangeMask(payload, current, bs));
    forall m | 0 <= m < |runs| ensures runs[m].1 != [] && runs[m].0 + |runs[m].1| <= dst + |payload| {
      SpanBytes(|payload|, bs, spans[m]);
      assert runs[m] == RunData(payload, dst, bs, spans[m]);
    }
  }

  /** A payload that repeats the destination has no runs. */
  lemma NoRunsWithoutChange(payload: seq<byte>, bs: nat)
    requires bs >= 1
    ensures FlagRuns(ChangeMask(payload, payload, bs)) == []
  {
    var mask := ChangeMask(payload, payload, bs);
    var runs := FlagRuns(mask);
    FlagRunsAreMaximal(mask);
    forall j: nat | j < |mask| ensures !mask[j] {
      StartMonotone(j, |mask| - 1, bs);
      assert Chunk(payload, bs, j) == Padded(payload, Start(j, bs), |Chunk(payload, bs, j)|);
    }
    assert runs != [] ==> InRun(runs, runs[0].0);
  }

  /** Writing only the changed runs over a file extended to the target size is the same as
      writing the whole payload. */
  lemma SkippingUnchangedRunsIsAWrite(file: seq<byte>, dst: nat, bs: nat, payload: seq<byte>, current: seq<byte>,
                                      runs: seq<Run>)
    requires bs >= 1 && payload != []
    requires forall q: nat | q < |payload| :: ByteIn(current, q) == ByteIn(file, dst + q)
    requires RunsFor(runs, FlagRuns(ChangeMask(payload, current, bs)), payload, dst, bs)
    ensures ApplyRuns(FTruncate(file, Max(|file|, dst + |payload|)), runs) == PWrite(file, dst, payload)
  {
    var base := FTruncate(file, Max(|file|, dst + |payload|));
    RunsAreInside(payload, FlagRuns(ChangeMask(payload, current, bs)), dst, bs, runs);
    AppliedSize(base, runs, dst, payload);
    forall p: nat | p < |base| ensures ApplyRuns(base, runs)[p] == PWrite(file, dst, payload)[p] {
      AppliedByte(base, runs, dst, payload, p);
      WrittenOrUnchanged(file, dst, bs, payload, current, runs, p);
    }
  }

  lemma WrittenOrUnchanged(file: seq<byte>, dst: nat, bs: nat, payload: seq<byte>, current: seq<byte>, runs: seq<Run>,
                           p: nat)
    requires bs >= 1
    requires forall q: nat | q < |payload| :: ByteIn(current, q) == ByteIn(file, dst + q)
    requires RunsFor(runs, FlagRuns(ChangeMask(payload, current, bs)), payload, dst, bs)
    ensures dst <= p < dst + |payload| && !Touched(runs, p) ==> payload[p - dst] == ByteIn(file, p)
  {
    if dst <= p < dst + |payload| {
      UntouchedIsUnchanged(payload, current, dst, bs, runs, p - dst);
      assert ByteIn(current, p - dst) == ByteIn(file, dst + (p - dst));
    }
  }

  // ---------------------------------------------------------------- copy bounds

  datatype CopyBounds = CopyBounds(src: nat, dst: nat, length: nat, srcEnd: nat, dstEnd: nat,
                                   srcFirst: nat, srcLast: nat, dstFirst: nat, dstLast: nat)

  function CopyRangeBounds(blockSize: nat, src: nat, dst: nat, len: nat, srcSize: nat): Option<CopyBounds> {
    if src >= srcSize || Min(len, srcSize - src) == 0 then None
    else
      var n, bs := Min(len, srcSize - src), Max(blockSize, 1);
      var srcEnd, dstEnd := SatAdd(src, n), SatAdd(dst, n);
      Some(CopyBounds(src, dst, n, srcEnd, dstEnd, BlockOf(src, bs), BlockOf(SatSub(srcEnd, 1), bs),
                      BlockOf(dst, bs), BlockOf(SatSub(dstEnd, 1), bs)))
  }

  predicate CanAdoptWholeObject(b: CopyBounds, srcSize: nat, dstSize: nat, srcDirty: bool, dstDirty: bool) {
    b.src == 0 && b.dst == 0 && b.length == srcSize && dstSize == 0 && !srcDirty && !dstDirty
  }

  /** The block has a byte in `from..to`. */
  ghost predicate BlockMeets(i: nat, bs: nat, from: nat, to: nat) {
    exists p: nat | from <= p < to :: InBlock(p, i, bs)
  }

  lemma BlocksOfRange(from: nat, to: nat, bs: nat, i: nat)
    requires bs >= 1 && from < to
    ensures BlockOf(from, bs) <= i <= BlockOf(to - 1, bs) <==> BlockMeets(i, bs, from, to)
  {
    var first, last := BlockOf(from, bs), BlockOf(to - 1, bs);
    if first < i { BlocksAreOrdered(first, i, bs); }
    if i < last { BlocksAreOrdered(i, last, bs); }
    if first <= i <= last { assert InBlock(Max(from, Start(i, bs)), i, bs); }
    if p: nat :| from <= p < to && InBlock(p, i, bs) {
      InBlockIsQuotient(p, i, bs);
      QuotientMonotone(from, p, bs);
      QuotientMonotone(p, to - 1, bs);
    }
  }

  /** The bounds of a copy: the bytes of the request that the source has, and in source and target exactly
      the blocks that meet them. There are none exactly if there is nothing to copy. */
  lemma BoundsOfCopy(blockSize: nat, src: nat, dst: nat, len: nat, srcSize: nat, i: nat)
    requires srcSize <= U64_MAX && dst + len <= U64_MAX
    ensures var b := CopyRangeBounds(blockSize, src, dst, len, srcSize);
            && (b.None? <==> src >= srcSize || len == 0)
            && (b.Some? ==>
                  && b.value.src == src && b.value.srcEnd == Min(src + len, srcSize)
                  && b.value.dst == dst && b.value.dstEnd - dst == b.value.length == b.value.srcEnd - src
                  && (b.value.srcFirst <= i <= b.value.srcLast
                      <==> BlockMeets(i, Max(blockSize, 1), src, b.value.srcEnd))
                  && (b.value.dstFirst <= i <= b.value.dstLast
                      <==> BlockMeets(i, Max(blockSize, 1), dst, b.value.dstEnd)))
  {
    var b := CopyRangeBounds(blockSize, src, dst, len, srcSize);
    if b.Some? {
      BlocksOfRange(src, b.value.srcEnd, Max(blockSize, 1), i);
      BlocksOfRange(dst, b.value.dstEnd, Max(blockSize, 1), i);
    }
  }

  /** Sharing the source's data object is allowed exactly for a request that covers a clean, nonempty
      source from its start, into the start of a clean and empty target; and then it is the same as
      copying the requested bytes. */
  lemma AdoptionIsACopy(source: seq<byte>, target: seq<byte>, blockSize: nat, src: nat, dst: nat, len: nat,
                        srcDirty: bool, dstDirty: bool)
    requires |source| <= U64_MAX
    ensures var b := CopyRangeBounds(blockSize, src, dst, len, |source|);
            var adopted := b.Some? && CanAdoptWholeObject(b.value, |source|, |target|, srcDirty, dstDirty);
            && (adopted <==> src == 0 && dst == 0 && 0 < |source| <= len && target == [] && !srcDirty && !dstDirty)
            && (adopted ==> PWrite(target, b.value.dst, source[b.value.src..b.value.srcEnd]) == source)
  {
  }
}
