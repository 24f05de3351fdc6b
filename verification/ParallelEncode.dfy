/**
  Parallel encoding of a CMP2 stream (crates/compact-core/src/parallel/mod.rs): the scheduler splits the
  input into numbered jobs, the workers encode them, the collector writes the frames in order.
*/
module ParallelEncode {
  import opened Wrappers
  import opened Bytes
  import opened Limits
  import opened BlockStream
  import opened Lines
  import opened Writer
  import opened WorkerPool

  datatype RowGroupJob = RowGroupJob(blockIndex: u64, firstRow: u64, jsonl: seq<byte>)

  datatype EncodedBlock = EncodedBlock(index: u64, rows: u64, rawSize: u64, encodedSize: u64, checksum: u32, frame: seq<byte>)

  datatype Written = Written(bytes: nat, output: seq<byte>, metadata: seq<BlockMetadata>)


  // ----- the scheduler -----

  /** The scheduler's row group; unlike the writer's it hands its content over as a job. */
  class PendingRowGroup {
    var data: seq<byte>
    var rowCount: nat
    var rawBytes: nat
    ghost var rows: seq<Line>

    ghost predicate Valid()
      reads this
    {
      data == Concat(rows) && rowCount == |rows| && rawBytes == |data|
    }

    constructor ()
      ensures Valid() && rows == []
    {
      data, rowCount, rawBytes, rows := [], 0, 0, [];
    }

    method PushLine(line: Line)
      requires Valid()
      modifies this
      ensures Valid() && rows == old(rows) + [line]
    {
      ConcatPush(rows, line);
      data := data + line;
      rowCount := rowCount + 1;
      rawBytes := rawBytes + |line|;
      rows := rows + [line];
    }

    predicate IsEmpty()
      reads this
    {
      rowCount == 0
    }

    predicate WouldExceedWith(line: Line, o: BlockOptions)
      requires Valid()
      reads this
      ensures WouldExceedWith(line, o) <==> WouldExceed(o, rows, line)
    {
      !IsEmpty() && (rowCount + 1 > o.maxRows || rawBytes + |line| > o.maxBytes)
    }

    predicate ReachedLimit(o: BlockOptions)
      requires Valid()
      reads this
      ensures ReachedLimit(o) <==> Reached(o, rows)
    {
      rowCount >= o.maxRows || rawBytes >= o.maxBytes
    }

    method TakeJob(blockIndex: nat, firstRow: nat) returns (job: RowGroupJob, count: nat)
      requires Valid()
      modifies this
      ensures Valid() && rows == []
      ensures job == RowGroupJob(AsU64(blockIndex), AsU64(firstRow), Concat(old(rows))) && count == |old(rows)|
    {
      job := RowGroupJob(AsU64(blockIndex), AsU64(firstRow), data);
      count := rowCount;
      data, rowCount, rawBytes, rows := [], 0, 0, [];
    }
  }

  /** The row groups sent while the lines last, and whether the loop ended without an error. */
  function Schedule(o: BlockOptions, buffer: seq<Line>, raws: seq<Line>, readOk: bool): (seq<seq<Line>>, bool)
    decreases |raws|
  {
    if raws == [] then (if readOk && buffer != [] then [buffer] else [], readOk)
    else
      match SplitLine(o, buffer, raws[0])
      case None => ([], false)
      case Some((groups, rest)) =>
        var (more, ok) := Schedule(o, rest, raws[1..], readOk);
        (groups + more, ok)
  }

  /** The jobs of consecutive row groups: `index` and `row` number the first of them. */
  function JobsOf(groups: seq<seq<Line>>, index: nat, row: nat): (jobs: seq<RowGroupJob>)
    ensures |jobs| == |groups|
  {
    if groups == [] then []
    else [RowGroupJob(AsU64(index), AsU64(row), Concat(groups[0]))] + JobsOf(groups[1..], index + 1, row + |groups[0]|)
  }

  lemma {:induction false} JobsAppend(a: seq<seq<Line>>, b: seq<seq<Line>>, index: nat, row: nat)
    ensures JobsOf(a + b, index, row) == JobsOf(a, index, row) + JobsOf(b, index + |a|, row + |Flatten(a)|)
    decreases |a|
  {
    hide Concat;
    if a == [] {
      assert a + b == b;
    } else {
      assert (a + b)[0] == a[0] && (a + b)[1..] == a[1..] + b;
      JobsAppend(a[1..], b, index + 1, row + |a[0]|);
    }
  }

  lemma {:induction false} OneJob(groups: seq<seq<Line>>, group: seq<Line>)
    ensures JobsOf(groups + [group], 0, 0) ==
            JobsOf(groups, 0, 0) + [RowGroupJob(AsU64(|groups|), AsU64(|Flatten(groups)|), Concat(group))]
    ensures Flatten(groups + [group]) == Flatten(groups) + group
  {
    hide Concat, Flatten, JobsOf, AsU64;
    JobsAppend(groups, [group], 0, 0);
    JobAlone(group, |groups|, |Flatten(groups)|);
    FlattenAppend(groups, [group]);
    FlattenTwo(group, []);
  }

  lemma {:induction false} JobAlone(group: seq<Line>, index: nat, row: nat)
    ensures JobsOf([group], index, row) == [RowGroupJob(AsU64(index), AsU64(row), Concat(group))]
  {
    hide Concat, AsU64;
    assert [group][1..] == [];
  }

  /**
    `schedule_jobs`, with the jobs it sends in `jobs`. (A send that fails because the pool is gone is the
    business of the pool; the row counter cannot overflow on an input of fewer than 2^64 lines.)
  */
  method ScheduleJobs(o: BlockOptions, raws: seq<Line>, readOk: bool) returns (jobs: seq<RowGroupJob>, ok: bool)
    ensures var (groups, done) := Schedule(o, [], raws, readOk);
            jobs == JobsOf(groups, 0, 0) && ok == done
  {
    hide Blank, Normalize, Concat, Reached, Flatten, JobsOf;
    var current := new PendingRowGroup();
    var nextIndex, nextRow := 0, 0;
    jobs := [];
    ghost var sent: seq<seq<Line>> := [];
    ghost var goal := Schedule(o, [], raws, readOk);
    NothingSent();
    assert [] + goal.0 == goal.0;
    for k := 0 to |raws|
      invariant fresh(current) && current.Valid()
      invariant nextIndex == |sent| && nextRow == |Flatten(sent)| && jobs == JobsOf(sent, 0, 0)
      invariant var (more, done) := Schedule(o, current.rows, raws[k..], readOk);
                goal == (sent + more, done)
    {
      ghost var buffer, rest := current.rows, raws[k..];
      assert rest[0] == raws[k] && rest[1..] == raws[k + 1..];
      if Blank(raws[k]) {
        ScheduleStep(o, buffer, rest, readOk, sent);
        assert sent + [] == sent;
        continue;
      }
      var normalized := Normalize(raws[k]);
      if normalized.None? || |normalized.value| > o.maxBytes {
        ok := false;
        assert sent + [] == sent;
        return;
      }
      ScheduleStep(o, buffer, rest, readOk, sent);
      var line := normalized.value;
      assert [buffer] + [[line]] == [buffer, [line]] && [] + [line] == [line] && [] + [buffer + [line]] == [buffer + [line]];
      assert (sent + [buffer]) + [[line]] == sent + [buffer, [line]] && sent + [] == sent;
      if current.WouldExceedWith(line, o) {
        OneJob(sent, current.rows);
        var job, count := current.TakeJob(nextIndex, nextRow);
        jobs := jobs + [job];
        nextIndex, nextRow := nextIndex + 1, nextRow + count;
        sent := sent + [buffer];
      }
      current.PushLine(line);
      if current.ReachedLimit(o) {
        OneJob(sent, current.rows);
        sent := sent + [current.rows];
        var job, count := current.TakeJob(nextIndex, nextRow);
        jobs := jobs + [job];
        nextIndex, nextRow := nextIndex + 1, nextRow + count;
      }
    }
    if !readOk {
      ok := false;
      assert sent + [] == sent;
      return;
    }
    if !current.IsEmpty() {
      OneJob(sent, current.rows);
      var job, _ := current.TakeJob(nextIndex, nextRow);
      jobs := jobs + [job];
    }
    assert sent + [] == sent;
    ok := true;
  }

  lemma NothingSent()
    ensures JobsOf([], 0, 0) == [] && Flatten([]) == []
  {
  }

  lemma {:induction false} ScheduleStep(o: BlockOptions, buffer: seq<Line>, raws: seq<Line>, readOk: bool,
                                        sent: seq<seq<Line>>)
    requires raws != [] && SplitLine(o, buffer, raws[0]).Some?
    ensures var (groups, rest) := SplitLine(o, buffer, raws[0]).value;
            var (more, done) := Schedule(o, rest, raws[1..], readOk);
            && Schedule(o, buffer, raws, readOk) == (groups + more, done)
            && sent + (groups + more) == (sent + groups) + more
  {
  }

  // ----- workers and collector -----

  /** `encode_job` */
  function EncodeJob(crc: Checksum, codec: RowCodec, job: RowGroupJob): Option<EncodedBlock> {
    match EncodeRowGroup(codec, job.jsonl)
    case None => None
    case Some(g) =>
      var b := Block(job.blockIndex, job.firstRow, AsU64(g.rows), AsU64(g.rawBytes), g.column);
      var frame := BlockFrame(crc, b);
      Some(EncodedBlock(job.blockIndex, AsU64(g.rows), AsU64(g.rawBytes), AsU64(|frame|), crc(BlockPayload(b)), frame))
  }

  /** What the collector does with the next block in order: write the frame and record its metadata. */
  function WriteEncoded(w: Written, e: EncodedBlock): Option<Written> {
    if w.bytes + e.encodedSize >= U64_LIMIT then None
    else Some(Written(w.bytes + e.encodedSize, w.output + e.frame,
                      w.metadata + [BlockMetadata(e.index, AsU64(w.bytes), e.rows, e.rawSize, e.encodedSize, e.checksum)]))
  }

  function EncodeTask(crc: Checksum, codec: RowCodec, o: BlockOptions, raws: seq<Line>, readOk: bool)
    : Task<RowGroupJob, EncodedBlock, Written>
  {
    var (groups, ok) := Schedule(o, [], raws, readOk);
    Task(JobsOf(groups, 0, 0), ok, (job: RowGroupJob) => EncodeJob(crc, codec, job), WriteEncoded,
         Written(STREAM_HEADER_LEN, StreamHeader(), []))
  }

  /** The bytes of a finished run: the collected frames, then the index footer. */
  function Sealed(written: Option<Written>): Option<seq<byte>> {
    match written case None => None case Some(w) => Some(w.output + IndexFooter(w.metadata))
  }

  // ----- both splitters make the same row groups -----

  lemma {:induction false} ScheduleSplits(o: BlockOptions, buffer: seq<Line>, raws: seq<Line>, readOk: bool)
    ensures var (groups, ok) := Schedule(o, buffer, raws, readOk);
            && ok == (readOk && SplitFrom(o, buffer, raws).Some?)
            && (ok ==> var (split, last) := SplitFrom(o, buffer, raws).value;
                       groups == if last == [] then split else split + [last])
    decreases |raws|
  {
    hide SplitLine;
    if raws != [] && SplitLine(o, buffer, raws[0]).Some? {
      var (groups, rest) := SplitLine(o, buffer, raws[0]).value;
      ScheduleSplits(o, rest, raws[1..], readOk);
      if SplitFrom(o, rest, raws[1..]).Some? {
        var (more, last) := SplitFrom(o, rest, raws[1..]).value;
        assert groups + (more + [last]) == (groups + more) + [last];
      }
    }
  }

  // ----- one thread doing the pool's work -----

  /** A normalized row group has the rows that were counted while it was filled. */
  lemma {:induction false} GroupRows(codec: RowCodec, o: BlockOptions, group: seq<Line>, index: u64, row: u64)
    requires GoodGroup(o, group) && o.maxRows < U64_LIMIT && BlockOf(codec, Concat(group), index, row).Some?
    ensures BlockOf(codec, Concat(group), index, row).value.rows == |group|
  {
    hide Concat, RowsOf;
    RowsOfConcat(group);
  }

  lemma {:induction false} JobBlock(crc: Checksum, codec: RowCodec, text: seq<byte>, index: u64, row: u64)
    ensures var job := EncodeJob(crc, codec, RowGroupJob(index, row, text));
            match BlockOf(codec, text, index, row)
            case None => job.None?
            case Some(b) =>
              job == Some(EncodedBlock(b.index, b.rows, b.rawSize, AsU64(|BlockFrame(crc, b)|), crc(BlockPayload(b)), BlockFrame(crc, b)))
  {
    hide BlockFrame, BlockPayload, RowsOf;
  }

  /** What the collector has written once it has handed over the blocks `bs`. */
  function WrittenBlocks(crc: Checksum, bs: seq<Block>): Written {
    Written(STREAM_HEADER_LEN + |BlocksBytes(crc, bs)|, StreamBytes(crc, bs), Index(crc, bs, STREAM_HEADER_LEN))
  }

  lemma {:induction false} WriteNext(crc: Checksum, bs: seq<Block>, b: Block)
    requires |BlockFrame(crc, b)| < U64_LIMIT
    ensures var e := EncodedBlock(b.index, b.rows, b.rawSize, AsU64(|BlockFrame(crc, b)|), crc(BlockPayload(b)), BlockFrame(crc, b));
            WriteEncoded(WrittenBlocks(crc, bs), e) ==
            if STREAM_HEADER_LEN + |BlocksBytes(crc, bs + [b])| < U64_LIMIT then Some(WrittenBlocks(crc, bs + [b])) else None
  {
    hide BlockFrame, BlockPayload, StreamHeader, BlocksBytes, Index;
    BlocksSnoc(crc, bs, b, STREAM_HEADER_LEN);
    assert (StreamHeader() + BlocksBytes(crc, bs)) + BlockFrame(crc, b) == StreamHeader() + (BlocksBytes(crc, bs) + BlockFrame(crc, b));
  }

  /** Frames are buffers in memory, so their lengths fit in 64 bits. */
  ghost predicate InMemory(crc: Checksum, bs: seq<Block>) {
    forall k :: 0 <= k < |bs| ==> |BlockFrame(crc, bs[k])| < U64_LIMIT
  }

  /** The blocks of the first `n` row groups; None when one of them cannot be encoded. */
  function BlocksUpTo(codec: RowCodec, groups: seq<seq<Line>>, n: nat): Option<seq<Block>>
    requires n <= |groups|
  {
    BlocksOf(codec, groups[..n], 0, 0)
  }

  lemma {:induction false} BlocksOfAppend(codec: RowCodec, a: seq<seq<Line>>, b: seq<seq<Line>>, index: nat, row: nat)
    ensures BlocksOf(codec, a + b, index, row) ==
            match BlocksOf(codec, a, index, row)
            case None => None
            case Some(bs) =>
              match BlocksOf(codec, b, index + |a|, row + TotalRows(bs)) case None => None case Some(cs) => Some(bs + cs)
    decreases |a|
  {
    hide BlockOf, Concat, TotalRows, AsU64;
    NoBlocks();
    if a == [] {
      assert a + b == b;
      var rest := BlocksOf(codec, b, index, row);
      if rest.Some? {
        assert [] + rest.value == rest.value;
      }
    } else {
      assert (a + b)[0] == a[0] && (a + b)[1..] == a[1..] + b;
      var first := BlockOf(codec, Concat(a[0]), AsU64(index), AsU64(row));
      if first.Some? {
        var f := first.value;
        BlocksOfAppend(codec, a[1..], b, index + 1, row + f.rows);
        var more := BlocksOf(codec, a[1..], index + 1, row + f.rows);
        if more.Some? {
          FirstThen(f, more.value, BlocksOf(codec, b, index + |a|, row + f.rows + TotalRows(more.value)));
        }
      }
    }
  }

  lemma NoBlocks()
    ensures TotalRows([]) == 0
  {
  }

  lemma {:induction false} FirstThen(f: Block, bs: seq<Block>, rest: Option<seq<Block>>)
    ensures TotalRows([f] + bs) == f.rows + TotalRows(bs)
    ensures rest.Some? ==> [f] + (bs + rest.value) == ([f] + bs) + rest.value
  {
    assert ([f] + bs)[1..] == bs;
  }

  /** For normalized row groups the writer's row numbers are the scheduler's. */
  lemma {:induction false} BlocksRows(codec: RowCodec, o: BlockOptions, groups: seq<seq<Line>>, index: nat, row: nat)
    requires GoodGroups(o, groups) && o.maxRows < U64_LIMIT && BlocksOf(codec, groups, index, row).Some?
    ensures TotalRows(BlocksOf(codec, groups, index, row).value) == |Flatten(groups)|
    ensures |BlocksOf(codec, groups, index, row).value| == |groups|
    decreases |groups|
  {
    hide Concat, AsU64, BlockOf, GoodGroup;
    if groups != [] {
      GroupRows(codec, o, groups[0], AsU64(index), AsU64(row));
      var b := BlockOf(codec, Concat(groups[0]), AsU64(index), AsU64(row)).value;
      BlocksRows(codec, o, groups[1..], index + 1, row + b.rows);
      var bs := BlocksOf(codec, groups, index, row).value;
      assert bs[1..] == BlocksOf(codec, groups[1..], index + 1, row + b.rows).value;
    }
  }

  /** One more block of a prefix of the row groups. */
  lemma {:induction false} NextBlock(codec: RowCodec, o: BlockOptions, groups: seq<seq<Line>>, n: nat)
    requires n < |groups| && GoodGroups(o, groups) && o.maxRows < U64_LIMIT
    ensures BlocksUpTo(codec, groups, n + 1) ==
            match BlocksUpTo(codec, groups, n)
            case None => None
            case Some(bs) =>
              match BlockOf(codec, Concat(groups[n]), AsU64(n), AsU64(|Flatten(groups[..n])|)) case None => None case Some(b) => Some(bs + [b])
  {
    hide BlockOf, Concat;
    assert groups[..n + 1] == groups[..n] + [groups[n]];
    BlocksOfAppend(codec, groups[..n], [groups[n]], 0, 0);
    if BlocksUpTo(codec, groups, n).Some? {
      BlocksRows(codec, o, groups[..n], 0, 0);
      OneBlock(codec, groups[n], n, |Flatten(groups[..n])|);
    }
  }

  lemma {:induction false} OneBlock(codec: RowCodec, group: seq<Line>, index: nat, row: nat)
    ensures BlocksOf(codec, [group], index, row) ==
            match BlockOf(codec, Concat(group), AsU64(index), AsU64(row)) case None => None case Some(b) => Some([b])
  {
    hide BlockOf, Concat;
    assert [group][1..] == [];
    var b := BlockOf(codec, Concat(group), AsU64(index), AsU64(row));
    if b.Some? {
      assert [b.value] + [] == [b.value];
    }
  }

  lemma {:induction false} JobAt(groups: seq<seq<Line>>, n: nat)
    requires n < |groups|
    ensures JobsOf(groups, 0, 0)[n] == RowGroupJob(AsU64(n), AsU64(|Flatten(groups[..n])|), Concat(groups[n]))
  {
    hide Concat, JobsOf;
    assert groups == (groups[..n] + [groups[n]]) + groups[n + 1..];
    JobsAppend(groups[..n] + [groups[n]], groups[n + 1..], 0, 0);
    OneJob(groups[..n], groups[n]);
  }

  /** The pool's sequential reference writes what the blocks of the row groups are. */
  lemma {:induction false} FoldWrites(crc: Checksum, codec: RowCodec, o: BlockOptions, raws: seq<Line>, readOk: bool,
                                      n: nat)
    requires ValidOptions(o) && o.maxRows < U64_LIMIT
    requires var groups := Schedule(o, [], raws, readOk).0;
             && n <= |groups| && GoodGroups(o, groups)
             && (BlocksUpTo(codec, groups, n).Some? ==> InMemory(crc, BlocksUpTo(codec, groups, n).value))
    ensures Fold(EncodeTask(crc, codec, o, raws, readOk), n) ==
            match BlocksUpTo(codec, Schedule(o, [], raws, readOk).0, n)
            case None => None
            case Some(bs) =>
              if STREAM_HEADER_LEN + |BlocksBytes(crc, bs)| < U64_LIMIT || n == 0 then Some(WrittenBlocks(crc, bs)) else None
    decreases n
  {
    hide Schedule, JobsOf, BlockOf, EncodeJob, WriteEncoded, Concat, BlockFrame, BlockPayload, BlocksBytes;
    hide WrittenBlocks, BlocksUpTo, Flatten;
    var task := EncodeTask(crc, codec, o, raws, readOk);
    var groups := Schedule(o, [], raws, readOk).0;
    if n == 0 {
      NothingWritten(crc, codec, groups);
    } else {
      NextBlock(codec, o, groups, n - 1);
      JobAt(groups, n - 1);
      var row := |Flatten(groups[..n - 1])|;
      JobBlock(crc, codec, Concat(groups[n - 1]), AsU64(n - 1), AsU64(row));
      assert task.work(task.inputs[n - 1]) == EncodeJob(crc, codec, RowGroupJob(AsU64(n - 1), AsU64(row), Concat(groups[n - 1])));
      var before, block := BlocksUpTo(codec, groups, n - 1), BlockOf(codec, Concat(groups[n - 1]), AsU64(n - 1), AsU64(row));
      if before.Some? && block.Some? {
        LastInMemory(crc, before.value, before.value + [block.value]);
        FoldWrites(crc, codec, o, raws, readOk, n - 1);
        WriteNext(crc, before.value, block.value);
        BlocksSnoc(crc, before.value, block.value, STREAM_HEADER_LEN);
      } else if before.None? {
        FoldWrites(crc, codec, o, raws, readOk, n - 1);
      }
    }
  }

  lemma {:induction false} NothingWritten(crc: Checksum, codec: RowCodec, groups: seq<seq<Line>>)
    ensures BlocksUpTo(codec, groups, 0) == Some([]) && WrittenBlocks(crc, []) == Written(STREAM_HEADER_LEN, StreamHeader(), [])
  {
    assert StreamHeader() + [] == StreamHeader();
  }

  lemma {:induction false} LastInMemory(crc: Checksum, bs: seq<Block>, more: seq<Block>)
    requires InMemory(crc, more) && |more| == |bs| + 1 && more == bs + [more[|bs|]]
    ensures InMemory(crc, bs) && |BlockFrame(crc, more[|bs|])| < U64_LIMIT
  {
    hide BlockFrame;
    forall k | 0 <= k < |bs| ensures |BlockFrame(crc, bs[k])| < U64_LIMIT {
      assert more[k] == bs[k];
    }
  }

  // ----- the parallel encoder -----

  /** The row groups of an input that was read and split to its end. */
  lemma {:induction false} ScheduledGroups(o: BlockOptions, raws: seq<Line>, readOk: bool)
    requires ValidOptions(o)
    ensures var (groups, ok) := Schedule(o, [], raws, readOk);
            && ok == (readOk && Split(o, raws).Some?)
            && (ok ==> Split(o, raws) == Some(groups) && GoodGroups(o, groups))
  {
    ScheduleSplits(o, [], raws, readOk);
    if Split(o, raws).Some? {
      SplitGood(o, raws);
    }
  }

  /** The pool's reference, sealed, is the sequential encoder's stream, without its limit on the number of blocks. */
  lemma {:induction false} ReferenceIs(crc: Checksum, codec: RowCodec, o: BlockOptions, raws: seq<Line>, readOk: bool)
    requires ValidOptions(o) && o.maxRows < U64_LIMIT && |raws| < U64_LIMIT
    requires Split(o, raws).Some? && BlocksOf(codec, Split(o, raws).value, 0, 0).Some? ==>
             InMemory(crc, BlocksOf(codec, Split(o, raws).value, 0, 0).value)
    ensures Sealed(Sequential(EncodeTask(crc, codec, o, raws, readOk))) ==
            match Split(o, raws)
            case None => None
            case Some(groups) =>
              match BlocksOf(codec, groups, 0, 0)
              case None => None
              case Some(bs) => if readOk && |StreamBytes(crc, bs)| < U64_LIMIT then Some(SealedBytes(crc, bs)) else None
  {
    ScheduledGroups(o, raws, readOk);
    hide Schedule, Split, BlocksOf, Fold, WriteEncoded, StreamHeader, IndexFooter, Index, BlocksBytes;
    var (groups, ok) := Schedule(o, [], raws, readOk);
    if ok {
      assert groups[..|groups|] == groups;
      FoldWrites(crc, codec, o, raws, readOk, |groups|);
      EmptyBlocksShort(crc, codec, groups);
    }
  }

  lemma {:induction false} EmptyBlocksShort(crc: Checksum, codec: RowCodec, groups: seq<seq<Line>>)
    ensures groups == [] ==> BlocksOf(codec, groups, 0, 0) == Some([]) && |BlocksBytes(crc, [])| == 0
  {
  }

  /** The conditions under which the sequential encoder's own counters stay below their limits. */
  lemma {:induction false} RowsBound(raws: seq<Line>)
    requires NormalRows(raws).Some?
    ensures |NormalRows(raws).value| <= |raws|
    decreases |raws|
  {
    if raws != [] {
      RowsBound(raws[1..]);
    }
  }

  /**
    Parallel encoding is sequential encoding: with any number of workers and under every schedule in which
    no worker dies, a finished run returns exactly the bytes of the sequential writer, or fails like it.
    The one difference is the writer's limit of MAX_STREAM_BLOCKS blocks, which the pool does not have.
  */
  lemma {:induction false} ParallelEncodeAgrees(crc: Checksum, codec: RowCodec, o: BlockOptions, raws: seq<Line>,
                                                readOk: bool, workers: nat,
                             actions: seq<Action>, s: State<RowGroupJob, EncodedBlock, Written>)
    requires ValidOptions(o) && o.maxRows < U64_LIMIT && |raws| < U64_LIMIT && 0 < workers <= MAX_PARALLEL_WORKERS
    requires Split(o, raws).Some? && BlocksOf(codec, Split(o, raws).value, 0, 0).Some? ==>
             InMemory(crc, BlocksOf(codec, Split(o, raws).value, 0, 0).value)
    requires Execute(EncodeTask(crc, codec, o, raws, readOk), 2 * workers, Initial(EncodeTask(crc, codec, o, raws, readOk), workers), actions) == Some(s)
    requires Over(s) && !s.panicked
    ensures EncodeStream(crc, codec, o, raws, readOk) ==
            if Split(o, raws).Some? && |Split(o, raws).value| <= MAX_STREAM_BLOCKS then Sealed(Outcome(s)) else None
  {
    hide Apply, Outcome, Sequential, Split, BlocksOf, EncodeStream, Execute, Initial, Over, StreamHeader, SealedBytes;
    hide EncodeTask, BlocksBytes;
    var task := EncodeTask(crc, codec, o, raws, readOk);
    EveryInterleaving(task, 2 * workers, workers, actions, s);
    ReferenceIs(crc, codec, o, raws, readOk);
    EncodeStreamIs(crc, codec, o, raws, readOk);
    if Split(o, raws).Some? {
      var groups := Split(o, raws).value;
      SplitGood(o, raws);
      RowsBound(raws);
      if BlocksOf(codec, groups, 0, 0).Some? {
        BlocksRows(codec, o, groups, 0, 0);
      }
    }
  }
}
