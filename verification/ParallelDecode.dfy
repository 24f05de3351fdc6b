/**
  Parallel and batched decoding of sealed CMP2 streams (crates/compact-core/src/parallel/mod.rs): the
  scanner checks the envelopes in order, workers decode the blocks, the collector writes the texts in order.
*/
module ParallelDecode {
  import opened Wrappers
  import opened Bytes
  import opened Limits
  import opened BlockStream
  import opened Lines
  import opened Writer
  import opened Reader
  import opened WorkerPool
  import opened BlockReader
  import AppendLog

  datatype DecodedJob = DecodedJob(index: u64, firstRow: u64, jsonl: seq<byte>)

  datatype Delivered = Delivered(nextRow: nat, output: seq<byte>)

  // ----- the scanner -----

  /** The blocks sent to the pool behind `found`, and whether the stream then ended as it should. */
  function ScheduleFrom(crc: Checksum, data: seq<byte>, found: seq<Block>): (seq<Block>, bool)
    decreases |data| - Position(crc, found)
  {
    var step := ReadStep(crc, data, found);
    if !step.StepBlock? then ([], step.StepSealed?)
    else if |found| >= MAX_STREAM_BLOCKS then ([], false)
    else if TotalRows(found) + step.block.rows >= U64_LIMIT then ([step.block], false)
    else
      StepBlockIff(crc, data, found, step.block); FoundGrows(crc, found, step.block);
      var rest := ScheduleFrom(crc, data, found + [step.block]);
      ([step.block] + rest.0, rest.1)
  }

  /** `schedule_decode_jobs`, with the jobs it sends in `jobs`. */
  method ScheduleDecodeJobs(crc: Checksum, data: seq<byte>) returns (jobs: seq<Block>, ok: bool)
    requires |data| < U64_LIMIT
    ensures (jobs, ok) == ScheduleFrom(crc, data, [])
  {
    StartOfScan(crc);
    hide FrameBlock, ReadIndex, Index, BlocksBytes, MetadataOf, BlockFrame, TotalRows, Position, ReadRecord, ReadStep;
    hide ScheduleFrom;
    var metadata: seq<BlockMetadata> := [];
    var expectedIndex: nat, expectedRow: nat, nextOffset: nat := 0, 0, STREAM_HEADER_LEN;
    jobs := [];
    ghost var goal := ScheduleFrom(crc, data, []);
    assert [] + goal.0 == goal.0;
    while true
      invariant metadata == Index(crc, jobs, STREAM_HEADER_LEN)
      invariant expectedIndex == |jobs| && expectedRow == TotalRows(jobs) && nextOffset == Position(crc, jobs)
      invariant goal == (jobs + ScheduleFrom(crc, data, jobs).0, ScheduleFrom(crc, data, jobs).1)
      decreases |data| - Position(crc, jobs)
    {
      RecordStep(crc, data, jobs);
      ScheduleUnfolds(crc, data, jobs);
      match ReadRecord(data, nextOffset)
      case EndOfInput => return jobs, false;
      case Malformed => return jobs, false;
      case IndexRecord(entries) =>
        return jobs, entries == metadata && nextOffset + 12 + INDEX_ENTRY_LEN * |entries| == |data|;
      case FrameRecord(frame) =>
        var parsed := FrameBlock(crc, frame);
        if parsed.None? || parsed.value.index != expectedIndex || parsed.value.firstRow != expectedRow {
          return jobs, false;
        }
        var b := parsed.value;
        if |metadata| >= MAX_STREAM_BLOCKS {
          return jobs, false;
        }
        var block := MetadataOf(crc, b, nextOffset);
        if expectedRow + b.rows >= U64_LIMIT {
          return jobs + [b], false;
        }
        FoundGrows(crc, jobs, b);
        FrameLength(crc, data, nextOffset, frame, b);
        BlockInside(crc, data, jobs, b);
        expectedIndex := expectedIndex + 1;
        expectedRow := expectedRow + b.rows;
        nextOffset := nextOffset + |frame|;
        metadata := metadata + [block];
        jobs := jobs + [b];
    }
  }

  lemma {:induction false} ScheduleUnfolds(crc: Checksum, data: seq<byte>, found: seq<Block>)
    ensures found + [] == found
    ensures var step := ReadStep(crc, data, found);
            && (!step.StepBlock? ==> ScheduleFrom(crc, data, found) == ([], step.StepSealed?))
            && (step.StepBlock? && |found| >= MAX_STREAM_BLOCKS ==> ScheduleFrom(crc, data, found) == ([], false))
            && (step.StepBlock? && |found| < MAX_STREAM_BLOCKS && TotalRows(found) + step.block.rows >= U64_LIMIT ==>
                  ScheduleFrom(crc, data, found) == ([step.block], false))
            && (step.StepBlock? && |found| < MAX_STREAM_BLOCKS && TotalRows(found) + step.block.rows < U64_LIMIT ==>
                  var rest := ScheduleFrom(crc, data, found + [step.block]);
                  && ScheduleFrom(crc, data, found) == ([step.block] + rest.0, rest.1)
                  && found + ([step.block] + rest.0) == (found + [step.block]) + rest.0)
  {
    hide ReadStep, TotalRows, Position;
  }

  /** The scanner finishes exactly on the sealed streams of at most MAX_STREAM_BLOCKS blocks, and sends their blocks. */
  lemma {:induction false} ScheduleIsScan(crc: Checksum, data: seq<byte>, found: seq<Block>)
    requires |data| < U64_LIMIT
    ensures var (blocks, ok) := ScheduleFrom(crc, data, found);
            && (ok <==> ScanFrom(crc, data, found).1.StepSealed?)
            && (ok ==> blocks == ScanFrom(crc, data, found).0)
    decreases |data| - Position(crc, found)
  {
    ScheduleUnfolds(crc, data, found);
    ScanEnds(crc, data, found);
    hide ReadStep, TotalRows, Position, ScheduleFrom, ScanFrom;
    var step := ReadStep(crc, data, found);
    if step.StepBlock? && TotalRows(found) + step.block.rows < U64_LIMIT {
      BlockInside(crc, data, found, step.block);
      ScanGoesOn(crc, data, found, step.block);
      if |found| < MAX_STREAM_BLOCKS {
        ScheduleIsScan(crc, data, found + [step.block]);
      } else {
        TooManyBlocks(crc, data, found + [step.block]);
      }
    }
  }

  /** No index can match more than MAX_STREAM_BLOCKS blocks, so a longer stream never ends as a sealed one. */
  lemma {:induction false} TooManyBlocks(crc: Checksum, data: seq<byte>, found: seq<Block>)
    requires |data| < U64_LIMIT && |found| > MAX_STREAM_BLOCKS
    ensures !ScanFrom(crc, data, found).1.StepSealed?
    decreases |data| - Position(crc, found)
  {
    StepSealedIff(crc, data, found);
    ScanEnds(crc, data, found);
    hide ReadStep, TotalRows, Position, ScanFrom, IndexFooter, Index;
    var step := ReadStep(crc, data, found);
    if step.StepBlock? && TotalRows(found) + step.block.rows < U64_LIMIT {
      BlockInside(crc, data, found, step.block);
      ScanGoesOn(crc, data, found, step.block);
      TooManyBlocks(crc, data, found + [step.block]);
    }
  }

  // ----- workers and collector -----

  /** `decode_job` */
  function DecodeJob(codec: RowCodec, b: Block): Option<DecodedJob> {
    match BlockText(codec, b)
    case None => None
    case Some(text) => Some(DecodedJob(b.index, b.firstRow, text))
  }

  /** What the collector does with the next text in order. */
  function Deliver(d: Delivered, job: DecodedJob): Option<Delivered> {
    if job.firstRow != d.nextRow then None
    else if d.nextRow + |RowsOf(job.jsonl)| >= U64_LIMIT then None
    else Some(Delivered(d.nextRow + |RowsOf(job.jsonl)|, d.output + job.jsonl))
  }

  function DecodeTask(crc: Checksum, codec: RowCodec, data: seq<byte>): Task<Block, DecodedJob, Delivered> {
    var (blocks, ok) := ScheduleFrom(crc, data, []);
    Task(blocks, ok, (b: Block) => DecodeJob(codec, b), Deliver, Delivered(0, []))
  }

  function DeliveredText(d: Option<Delivered>): Option<seq<byte>> {
    match d case None => None case Some(x) => Some(x.output)
  }

  /** One thread delivering a chain of blocks delivers their texts. */
  lemma {:induction false} FoldDelivers(crc: Checksum, codec: RowCodec, data: seq<byte>, n: nat)
    requires var blocks := ScheduleFrom(crc, data, []).0;
             n <= |blocks| && Chain(blocks, 0, 0)
    ensures var blocks := ScheduleFrom(crc, data, []).0;
            Fold(DecodeTask(crc, codec, data), n) ==
            match Texts(codec, blocks[..n]) case None => None case Some(text) => Some(Delivered(TotalRows(blocks[..n]), text))
    decreases n
  {
    hide ScheduleFrom, BlockText, Texts, Deliver, TotalRows, Chain;
    var blocks := ScheduleFrom(crc, data, []).0;
    if n == 0 {
      assert Texts(codec, []) == Some([]) && TotalRows([]) == 0 by { NoTexts(codec); }
    } else {
      FoldDelivers(crc, codec, data, n - 1);
      PrefixTexts(crc, codec, blocks, n - 1);
      ChainAt(blocks, n - 1);
      if Texts(codec, blocks[..n - 1]).Some? {
        DeliverNext(codec, Texts(codec, blocks[..n - 1]).value, TotalRows(blocks[..n - 1]), blocks[n - 1]);
      }
    }
  }

  lemma {:induction false} NoTexts(codec: RowCodec)
    ensures Texts(codec, []) == Some([]) && TotalRows([]) == 0
  {
  }

  lemma {:induction false} DeliverNext(codec: RowCodec, before: seq<byte>, row: nat, b: Block)
    requires b.firstRow == row && row + b.rows < U64_LIMIT
    ensures (match DecodeJob(codec, b) case None => None case Some(job) => Deliver(Delivered(row, before), job))
            == match BlockText(codec, b) case None => None case Some(text) => Some(Delivered(row + b.rows, before + text))
  {
    hide RowsOf;
    if BlockText(codec, b).Some? {
      TextRows(codec, b);
    }
  }

  lemma {:induction false} PrefixTexts(crc: Checksum, codec: RowCodec, blocks: seq<Block>, n: nat)
    requires n < |blocks|
    ensures Texts(codec, blocks[..n + 1]) ==
            match (Texts(codec, blocks[..n]), BlockText(codec, blocks[n])) case (Some(x), Some(y)) => Some(x + y) case (_, _) => None
    ensures TotalRows(blocks[..n + 1]) == TotalRows(blocks[..n]) + blocks[n].rows
  {
    hide BlockText;
    assert blocks[..n + 1] == blocks[..n] + [blocks[n]];
    AppendLog.TextsAppend(codec, blocks[..n], [blocks[n]]);
    OneText(codec, blocks[n]);
    BlocksAppend(crc, blocks[..n], [blocks[n]]);
  }

  lemma {:induction false} OneText(codec: RowCodec, b: Block)
    ensures Texts(codec, [b]) == BlockText(codec, b)
    ensures TotalRows([b]) == b.rows
  {
    hide BlockText;
    assert [b][1..] == [];
    if BlockText(codec, b).Some? {
      assert BlockText(codec, b).value + [] == BlockText(codec, b).value;
    }
  }

  lemma {:induction false} TextRows(codec: RowCodec, b: Block)
    requires BlockText(codec, b).Some?
    ensures |RowsOf(BlockText(codec, b).value)| == b.rows
  {
  }

  lemma {:induction false} ChainSplit(bs: seq<Block>, k: nat)
    requires k < |bs| && Chain(bs, 0, 0)
    ensures Chain(bs[k..], k, TotalRows(bs[..k]))
  {
    hide Chain, TotalRows;
    assert bs == bs[..k] + bs[k..];
    ChainAppend(bs[..k], bs[k..], 0, 0);
  }

  lemma {:induction false} ChainFirst(bs: seq<Block>, index: nat, row: nat)
    requires bs != [] && Chain(bs, index, row)
    ensures bs[0].firstRow == row && row + bs[0].rows < U64_LIMIT
  {
  }

  lemma {:induction false} ChainAt(bs: seq<Block>, k: nat)
    requires k < |bs| && Chain(bs, 0, 0)
    ensures bs[k].firstRow == TotalRows(bs[..k]) && TotalRows(bs[..k]) + bs[k].rows < U64_LIMIT
  {
    ChainSplit(bs, k);
    hide Chain, TotalRows;
    ChainFirst(bs[k..], k, TotalRows(bs[..k]));
  }

  /** The pool's reference is the sequential sealed decoder, on any bytes. */
  lemma {:induction false} ReferenceIs(crc: Checksum, codec: RowCodec, data: seq<byte>)
    requires |data| < U64_LIMIT && HeaderOk(data)
    ensures DeliveredText(Sequential(DecodeTask(crc, codec, data))) == DecodeStream(crc, codec, data, true)
  {
    ScheduleIsScan(crc, data, []);
    DecodeIsScan(crc, codec, data, true, []);
    var (blocks, ok) := ScheduleFrom(crc, data, []);
    if ok {
      SealedIff(crc, data, blocks);
      FoldDelivers(crc, codec, data, |blocks|);
      assert blocks[..|blocks|] == blocks;
    }
    hide ScheduleFrom, ScanFrom, DecodeFrom, Texts, Fold, HeaderOk, SealedBytes, Chain;
  }

  /**
    Parallel decoding is sequential decoding, on arbitrary bytes: for any number of workers and under every
    schedule in which no worker dies, a finished run fails exactly when the sealed reader fails, and
    otherwise has written the same text.
  */
  lemma {:induction false} ParallelDecodeAgrees(crc: Checksum, codec: RowCodec, data: seq<byte>, workers: nat,
                             actions: seq<Action>, s: State<Block, DecodedJob, Delivered>)
    requires |data| < U64_LIMIT && HeaderOk(data) && 0 < workers <= MAX_PARALLEL_WORKERS
    requires Execute(DecodeTask(crc, codec, data), 2 * workers, Initial(DecodeTask(crc, codec, data), workers), actions) == Some(s)
    requires Over(s) && !s.panicked
    ensures DeliveredText(Outcome(s)) == DecodeStream(crc, codec, data, true)
  {
    hide Apply, Outcome, Sequential, Execute, Initial, Over, DecodeTask, HeaderOk, DecodeStream;
    EveryInterleaving(DecodeTask(crc, codec, data), 2 * workers, workers, actions, s);
    ReferenceIs(crc, codec, data);
  }

  // ----- batches for an asynchronous sink -----

  /** `decode_batch`: every job of a batch is decoded; one that fails fails the batch. */
  method DecodeBatch(codec: RowCodec, jobs: seq<Block>) returns (text: Option<seq<byte>>)
    ensures text == Texts(codec, jobs)
  {
    hide BlockText;
    var output: seq<byte> := [];
    var failed := false;
    ghost var goal := Texts(codec, jobs);
    PrefixedNothing(goal);
    for k := 0 to |jobs|
      invariant failed ==> goal.None?
      invariant !failed ==> goal == Prefixed(output, Texts(codec, jobs[k..]))
    {
      assert jobs[k..][0] == jobs[k] && jobs[k..][1..] == jobs[k + 1..];
      var decoded := BlockText(codec, jobs[k]);
      if decoded.None? {
        failed := true;
      } else {
        PrefixedTwice(output, decoded.value, Texts(codec, jobs[k + 1..]));
        output := output + decoded.value;
      }
    }
    assert output + [] == output;
    return if failed then None else Some(output);
  }

  /** The inner loop: the envelopes of up to `workers` more blocks behind the blocks `before`. */
  method ReadBatch(crc: Checksum, data: seq<byte>, workers: nat, ghost before: seq<Block>,
                   ghost all: (seq<Block>, Step),
                   metadata0: seq<BlockMetadata>, row0: nat, offset0: nat)
    returns (ok: bool, jobs: seq<Block>, metadata: seq<BlockMetadata>, nextRow: nat, nextOffset: nat, finished: bool)
    requires |data| < U64_LIMIT && 0 < workers
    requires metadata0 == Index(crc, before, STREAM_HEADER_LEN) && row0 == TotalRows(before) && offset0 == Position(crc, before)
    requires all == (before + ScanFrom(crc, data, before).0, ScanFrom(crc, data, before).1)
    ensures !ok ==> !all.1.StepSealed?
    ensures ok ==> metadata == Index(crc, before + jobs, STREAM_HEADER_LEN) && nextRow == TotalRows(before + jobs)
                   && nextOffset == Position(crc, before + jobs)
    ensures ok && finished ==> all == (before + jobs, StepSealed)
    ensures ok && !finished ==> all == (before + jobs + ScanFrom(crc, data, before + jobs).0, ScanFrom(crc, data, before + jobs).1)
                                && Position(crc, before) < Position(crc, before + jobs) <= |data|
  {
    hide FrameBlock, ReadIndex, Index, MetadataOf, BlockFrame, TotalRows, Position, ReadRecord, ReadStep, ScanFrom;
    jobs, metadata, nextRow, nextOffset, finished := [], metadata0, row0, offset0, false;
    ghost var found := before;
    assert before + [] == before;
    while |jobs| < workers && !finished
      invariant found == before + jobs
      invariant metadata == Index(crc, found, STREAM_HEADER_LEN) && |metadata| == |found|
      invariant nextRow == TotalRows(found) && nextOffset == Position(crc, found)
      invariant finished ==> all == (found, StepSealed)
      invariant !finished ==> all == (found + ScanFrom(crc, data, found).0, ScanFrom(crc, data, found).1)
      invariant jobs != [] ==> Position(crc, before) < Position(crc, found) <= |data|
      decreases if finished then 0 else 1, workers - |jobs|
    {
      RecordStep(crc, data, found);
      ScanEnds(crc, data, found);
      match ReadRecord(data, nextOffset)
      case EndOfInput =>
        ok := false;
        return;
      case Malformed =>
        ok := false;
        return;
      case IndexRecord(entries) =>
        if entries != metadata || nextOffset + 12 + INDEX_ENTRY_LEN * |entries| != |data| {
          ok := false;
          return;
        }
        finished := true;
      case FrameRecord(frame) =>
        var parsed := FrameBlock(crc, frame);
        if parsed.None? || parsed.value.index != |metadata| || parsed.value.firstRow != nextRow {
          ok := false;
          return;
        }
        var b := parsed.value;
        if |metadata| >= MAX_STREAM_BLOCKS || nextRow + b.rows >= U64_LIMIT {
          LimitMeansUnsealed(crc, data, found, b);
          ok := false;
          return;
        }
        FoundGrows(crc, found, b);
        FrameLength(crc, data, nextOffset, frame, b);
        BlockInside(crc, data, found, b);
        ScanGoesOn(crc, data, found, b);
        metadata := metadata + [MetadataOf(crc, b, nextOffset)];
        nextRow := nextRow + b.rows;
        nextOffset := nextOffset + |frame|;
        jobs := jobs + [b];
        found := found + [b];
    }
    ok := true;
  }

  lemma {:induction false} LimitMeansUnsealed(crc: Checksum, data: seq<byte>, found: seq<Block>, b: Block)
    requires |data| < U64_LIMIT && ReadStep(crc, data, found) == StepBlock(b)
    requires |found| >= MAX_STREAM_BLOCKS || TotalRows(found) + b.rows >= U64_LIMIT
    ensures !ScanFrom(crc, data, found).1.StepSealed?
  {
    ScanEnds(crc, data, found);
    hide ReadStep, TotalRows, Position, ScanFrom;
    if TotalRows(found) + b.rows < U64_LIMIT {
      ScanGoesOn(crc, data, found, b);
      TooManyBlocks(crc, data, found + [b]);
    }
  }

  /**
    `decode_jsonl_stream_parallel_async_writer`: read up to one job per worker, decode that batch, write its
    text, and go on. For every batch size the result is the sequential one.
  */
  method DecodeBatched(crc: Checksum, codec: RowCodec, data: seq<byte>, workers: nat) returns (text: Option<seq<byte>>)
    requires |data| < U64_LIMIT && 0 < workers <= MAX_PARALLEL_WORKERS
    ensures text == DecodeStream(crc, codec, data, true)
  {
    StartOfScan(crc);
    DecodeIsScan(crc, codec, data, true, []);
    hide HeaderOk, Texts, Index, ReadStep, ScanFrom, DecodeFrom, Position, TotalRows, BlocksBytes;
    if !HeaderOk(data) {
      return None;
    }
    var output: seq<byte> := [];
    var finished := false;
    var metadata: seq<BlockMetadata> := [];
    var nextRow: nat, nextOffset: nat := 0, STREAM_HEADER_LEN;
    ghost var done: seq<Block> := [];
    ghost var all := ScanFrom(crc, data, []);
    assert [] + all.0 == all.0;
    NoTexts(codec);
    while !finished
      invariant metadata == Index(crc, done, STREAM_HEADER_LEN)
      invariant nextRow == TotalRows(done) && nextOffset == Position(crc, done)
      invariant finished ==> all == (done, StepSealed)
      invariant !finished ==> all == (done + ScanFrom(crc, data, done).0, ScanFrom(crc, data, done).1)
      invariant Texts(codec, done) == Some(output)
      decreases if finished then 0 else 1, |data| - Position(crc, done)
    {
      var ok, jobs;
      ghost var before := done;
      ok, jobs, metadata, nextRow, nextOffset, finished := ReadBatch(crc, data, workers, before, all, metadata, nextRow, nextOffset);
      if !ok {
        return None;
      }
      done := before + jobs;
      AppendLog.TextsAppend(codec, before, jobs);
      var decoded := DecodeBatch(codec, jobs);
      if decoded.None? {
        AppendLog.TextsAppend(codec, done, if finished then [] else ScanFrom(crc, data, done).0);
        assert done + [] == done;
        return None;
      }
      output := output + decoded.value;
    }
    return Some(output);
  }
}
