/**
  Rolling append segments (crates/compact-core/src/streaming/rolling.rs): a new segment is started at a
  block boundary once the current one has reached one of the segment limits.
*/
module Rolling {
  import opened Wrappers
  import opened Bytes
  import opened Limits
  import opened BlockStream
  import opened Lines
  import opened Writer
  import opened BlockWriter
  import opened Recovery
  import opened Reader
  import opened AppendLog

  datatype RollingOptions = RollingOptions(maxSegmentBytes: nat, maxBlocksPerSegment: nat)

  predicate ValidRolling(r: RollingOptions) {
    r.maxSegmentBytes > 0 && r.maxBlocksPerSegment > 0
  }

  predicate Full(r: RollingOptions, w: WriterState) {
    |w.metadata| >= r.maxBlocksPerSegment || w.bytes >= r.maxSegmentBytes
  }

  /** Flush the open segment and take its bytes. */
  function Close(crc: Checksum, codec: RowCodec, w: WriterState): Option<seq<byte>> {
    match Flush(crc, codec, w) case None => None case Some(w') => Some(w'.output)
  }

  /** The segments finished from here on, the open one first. */
  function RollFrom(crc: Checksum, codec: RowCodec, o: BlockOptions, r: RollingOptions, open: Option<WriterState>,
                    raws: seq<Line>)
    : Option<seq<seq<byte>>>
    decreases |raws|
  {
    if raws == [] then
      if open.None? then Some([])
      else match Close(crc, codec, open.value) case None => None case Some(bytes) => Some([bytes])
    else if Blank(raws[0]) then RollFrom(crc, codec, o, r, open, raws[1..])
    else if open.Some? && Full(r, open.value) then
      match (Close(crc, codec, open.value), WriteLine(crc, codec, o, Fresh(), raws[0]))
      case (Some(bytes), Some(w)) =>
        (match RollFrom(crc, codec, o, r, Some(w), raws[1..]) case None => None case Some(rest) => Some([bytes] + rest))
      case (_, _) => None
    else
      match WriteLine(crc, codec, o, if open.Some? then open.value else Fresh(), raws[0])
      case None => None
      case Some(w) => RollFrom(crc, codec, o, r, Some(w), raws[1..])
  }

  /** `roll_jsonl_append_segments`; `readOk` as for `EncodeStream`. */
  function Roll(crc: Checksum, codec: RowCodec, o: BlockOptions, r: RollingOptions, raws: seq<Line>, readOk: bool)
    : Option<seq<seq<byte>>>
  {
    if !ValidOptions(o) || !ValidRolling(r) || !readOk then None else RollFrom(crc, codec, o, r, None, raws)
  }

  /** The loop with its optional current writer and the finished segments. */
  method RollJsonlAppendSegments(crc: Checksum, codec: RowCodec, o: BlockOptions, r: RollingOptions, raws: seq<Line>,
                                 readOk: bool)
    returns (result: Option<seq<seq<byte>>>)
    ensures result == Roll(crc, codec, o, r, raws, readOk)
  {
    hide Flush, WriteLine, Blank;
    if o.maxRows == 0 || o.maxBytes == 0 || r.maxSegmentBytes == 0 || r.maxBlocksPerSegment == 0 {
      return None;
    }
    var segments: seq<seq<byte>> := [];
    var current: JsonlBlockWriter? := null;
    ghost var goal := RollFrom(crc, codec, o, r, None, raws);
    PrefixedNothing(goal);
    for k := 0 to |raws|
      invariant current != null ==> fresh(current) && fresh(current.current) && current.Valid()
      invariant current != null ==> current.crc == crc && current.codec == codec && current.options == o
      invariant goal == Prefixed(segments, RollFrom(crc, codec, o, r, if current == null then None else Some(current.View()), raws[k..]))
    {
      assert raws[k..][0] == raws[k] && raws[k..][1..] == raws[k + 1..];
      if Blank(raws[k]) {
        continue;
      }
      if current != null && (|current.metadata| >= r.maxBlocksPerSegment || current.bytesWritten >= r.maxSegmentBytes) {
        var bytes := current.FinishWithoutFooter();
        if bytes.None? {
          return None;
        }
        PrefixedMore(segments, bytes.value, RollAfter(crc, codec, o, r, Fresh(), raws[k..]));
        segments := segments + [bytes.value];
        current := null;
      }
      if current == null {
        current := new JsonlBlockWriter(crc, codec, o, Fresh());
      }
      var written := current.WriteJsonlLine(raws[k]);
      if !written {
        return None;
      }
    }
    if !readOk {
      return None;
    }
    if current != null {
      var bytes := current.FinishWithoutFooter();
      if bytes.None? {
        return None;
      }
      segments := segments + [bytes.value];
    } else {
      PrefixedEnd(segments);
    }
    return Some(segments);
  }

  /** The next line written to the segment `w`, then the rest of the input. */
  ghost function RollAfter(crc: Checksum, codec: RowCodec, o: BlockOptions, r: RollingOptions, w: WriterState,
                           raws: seq<Line>)
    : Option<seq<seq<byte>>>
    requires raws != []
  {
    match WriteLine(crc, codec, o, w, raws[0])
    case None => None
    case Some(w') => RollFrom(crc, codec, o, r, Some(w'), raws[1..])
  }

  // ----- what the segments hold -----

  /** A segment with these row groups has reached one of its limits. */
  predicate FullAfter(crc: Checksum, codec: RowCodec, r: RollingOptions, groups: seq<seq<Line>>) {
    match EmitAll(crc, codec, Fresh(), groups) case None => false case Some(w) => Full(r, w)
  }

  /** What a segment has been given only while it was below both limits: all but its last two row groups. */
  ghost predicate Bounded(crc: Checksum, codec: RowCodec, r: RollingOptions, groups: seq<seq<Line>>, n: nat)
    requires n <= |groups| + 1
  {
    n >= 2 ==> !FullAfter(crc, codec, r, groups[..n - 2])
  }

  /** A writer that has emitted the row groups `groups` of a new segment and holds further rows. */
  ghost predicate Writing(crc: Checksum, codec: RowCodec, o: BlockOptions, r: RollingOptions, w: WriterState,
                          groups: seq<seq<Line>>) {
    && EmitAll(crc, codec, Fresh(), groups) == Some(w.(buffer := []))
    && GoodGroups(o, groups) && GoodBuffer(o, w.buffer)
    && Greedy(o, Parts(groups, w.buffer))
    && (w.buffer == [] && groups != [] ==> Reached(o, groups[|groups| - 1]))
    && Bounded(crc, codec, r, groups, |groups| + (if w.buffer == [] then 0 else 1))
  }

  /** A finished segment: exactly these row groups, one block each. */
  ghost predicate Segment(crc: Checksum, codec: RowCodec, o: BlockOptions, r: RollingOptions, bytes: seq<byte>,
                          groups: seq<seq<Line>>) {
    && GoodGroups(o, groups) && Greedy(o, groups) && Bounded(crc, codec, r, groups, |groups|)
    && EmitAll(crc, codec, Fresh(), groups).Some? && EmitAll(crc, codec, Fresh(), groups).value.output == bytes
  }

  /** A segment that was closed for the next line: it was full before, or with, its last row group. */
  ghost predicate ClosedFull(crc: Checksum, codec: RowCodec, o: BlockOptions, r: RollingOptions,
                             groups: seq<seq<Line>>) {
    && groups != []
    && (|| FullAfter(crc, codec, r, groups[..|groups| - 1])
        || (FullAfter(crc, codec, r, groups) && Reached(o, groups[|groups| - 1])))
  }

  ghost predicate Segments(crc: Checksum, codec: RowCodec, o: BlockOptions, r: RollingOptions,
                           segments: seq<seq<byte>>, plan: seq<seq<seq<Line>>>) {
    && |plan| == |segments|
    && (forall k :: 0 <= k < |plan| ==> plan[k] != [] && Segment(crc, codec, o, r, segments[k], plan[k]))
    && (forall k :: 0 <= k < |plan| - 1 ==> ClosedFull(crc, codec, o, r, plan[k]))
  }

  function Rows(plan: seq<seq<seq<Line>>>): seq<Line> {
    if plan == [] then [] else Flatten(plan[0]) + Rows(plan[1..])
  }

  /** More row groups never take a segment back below a limit. */
  lemma {:induction false} FullStays(crc: Checksum, codec: RowCodec, r: RollingOptions, groups: seq<seq<Line>>, m: nat)
    requires m <= |groups| && EmitAll(crc, codec, Fresh(), groups).Some?
    ensures EmitAll(crc, codec, Fresh(), groups[..m]).Some?
    ensures FullAfter(crc, codec, r, groups[..m]) ==> FullAfter(crc, codec, r, groups)
  {
    hide Emit, Fresh;
    assert groups == groups[..m] + groups[m..];
    EmitAllAppend(crc, codec, Fresh(), groups[..m], groups[m..]);
    EmittedMore(crc, codec, EmitAll(crc, codec, Fresh(), groups[..m]).value, groups[m..]);
  }

  lemma {:induction false} EmittedMore(crc: Checksum, codec: RowCodec, w: WriterState, groups: seq<seq<Line>>)
    requires EmitAll(crc, codec, w, groups).Some?
    ensures var w' := EmitAll(crc, codec, w, groups).value;
            |w'.metadata| == |w.metadata| + |groups| && w'.bytes >= w.bytes
    decreases |groups|
  {
    hide BlockOf, BlockFrame, MetadataOf, Concat;
    if groups != [] {
      EmittedMore(crc, codec, Emit(crc, codec, w, groups[0]).value, groups[1..]);
    }
  }

  /** A segment below both limits stays within the bound when one line completes at most two more row groups. */
  lemma {:induction false} BoundedOn(crc: Checksum, codec: RowCodec, r: RollingOptions, groups: seq<seq<Line>>,
                                     added: seq<seq<Line>>, n: nat)
    requires EmitAll(crc, codec, Fresh(), groups).Some? && n <= |groups| + |added| + 1
    requires n <= 1 || (n <= |groups| + 2 && !FullAfter(crc, codec, r, groups))
    ensures Bounded(crc, codec, r, groups + added, n)
  {
    hide FullAfter, EmitAll, Fresh;
    if n >= 2 {
      assert (groups + added)[..n - 2] == groups[..n - 2];
      FullStays(crc, codec, r, groups, n - 2);
    }
  }

  /** Writing one line adds the row groups it completes, at most two. */
  lemma {:induction false} WritingOn(crc: Checksum, codec: RowCodec, o: BlockOptions, r: RollingOptions,
                                     w: WriterState, groups: seq<seq<Line>>, raw: Line)
    returns (more: seq<seq<Line>>)
    requires ValidOptions(o) && Writing(crc, codec, o, r, w, groups)
    requires (w == Fresh() && groups == []) || !Full(r, w)
    requires WriteLine(crc, codec, o, w, raw).Some?
    ensures var w' := WriteLine(crc, codec, o, w, raw).value;
            && Writing(crc, codec, o, r, w', more)
            && Flatten(more) + w'.buffer == (Flatten(groups) + w.buffer) + RowOf(raw)
  {
    StartsEmpty();
    hide Emit, SplitLine, GoodGroup, GoodBuffer, WriteLine, Fresh, RowOf, Greedy, Reached, Bounded;
    WriteLineSplits(crc, codec, o, w, raw);
    SplitLineGood(o, w.buffer, raw);
    SplitLineFlat(o, w.buffer, raw);
    SplitLineGreedy(o, w.buffer, raw);
    if w.buffer == [] {
      FirstLineOnly(o, raw);
    }
    var (added, rest) := SplitLine(o, w.buffer, raw).value;
    EmitAllAppend(crc, codec, Fresh(), groups, added);
    EmitAllClears(crc, codec, w.(buffer := []), added);
    more := groups + added;
    FlattenAppend(groups, added);
    var w' := EmitAll(crc, codec, w.(buffer := []), added).value;
    assert w'.(buffer := rest).(buffer := []) == w';
    BoundedOn(crc, codec, r, groups, added, |more| + (if rest == [] then 0 else 1));
    PartsGood(o, added, rest);
    GroupsBehind(o, groups, w.buffer, Parts(added, rest));
    PartsBehind(groups, added, rest);
    SameRows(Flatten(groups), Flatten(added), rest, w.buffer, RowOf(raw));
  }

  lemma {:induction false} PartsBehind(groups: seq<seq<Line>>, added: seq<seq<Line>>, rest: seq<Line>)
    ensures groups + Parts(added, rest) == Parts(groups + added, rest)
  {
  }

  lemma {:induction false} SameRows(a: seq<Line>, b: seq<Line>, rest: seq<Line>, buffer: seq<Line>, row: seq<Line>)
    requires b + rest == buffer + row
    ensures (a + b) + rest == (a + buffer) + row
  {
    assert (a + b) + rest == a + (b + rest);
    assert (a + buffer) + row == a + (buffer + row);
  }

  lemma {:induction false} StartsEmpty()
    ensures Fresh().buffer == [] && Fresh().(buffer := []) == Fresh()
  {
  }

  /** The first line of a segment completes at most its own row group. */
  lemma {:induction false} FirstLineOnly(o: BlockOptions, raw: Line)
    requires SplitLine(o, [], raw).Some?
    ensures |SplitLine(o, [], raw).value.0| + (if SplitLine(o, [], raw).value.1 == [] then 0 else 1) <= 1
  {
    hide Blank, Normalize, Reached;
  }

  lemma {:induction false} Closing(crc: Checksum, codec: RowCodec, o: BlockOptions, r: RollingOptions, w: WriterState,
                                   groups: seq<seq<Line>>)
    returns (all: seq<seq<Line>>)
    requires Writing(crc, codec, o, r, w, groups) && Close(crc, codec, w).Some?
    ensures Segment(crc, codec, o, r, Close(crc, codec, w).value, all) && Flatten(all) == Flatten(groups) + w.buffer
    ensures Flatten(groups) + w.buffer != [] ==> all != []
    ensures Full(r, w) && all != [] ==> ClosedFull(crc, codec, o, r, all)
  {
    hide Emit, Concat, Fresh, Greedy, Bounded, Reached, AllNormal;
    if w.buffer == [] {
      all := groups;
      assert w.(buffer := []) == w && Flatten(groups) + [] == Flatten(groups);
    } else {
      all := groups + [w.buffer];
      EmitAllAppend(crc, codec, Fresh(), groups, [w.buffer]);
      EmitOneOrTwo(crc, codec, w.(buffer := []), w.buffer, []);
      EmitIgnoresBuffer(crc, codec, w, [], w.buffer);
      FlattenAppend(groups, [w.buffer]);
      FlattenTwo(w.buffer, []);
      PartsGood(o, groups, w.buffer);
      BoundedSame(crc, codec, r, groups, w.buffer);
      assert all[..|all| - 1] == groups;
    }
  }

  lemma {:induction false} BoundedSame(crc: Checksum, codec: RowCodec, r: RollingOptions, groups: seq<seq<Line>>,
                                       last: seq<Line>)
    requires Bounded(crc, codec, r, groups, |groups| + 1)
    ensures Bounded(crc, codec, r, groups + [last], |groups| + 1)
  {
    hide FullAfter;
    if groups != [] {
      assert (groups + [last])[..|groups| - 1] == groups[..|groups| - 1];
    }
  }

  lemma {:induction false} NewSegment(crc: Checksum, codec: RowCodec, o: BlockOptions, r: RollingOptions)
    ensures Writing(crc, codec, o, r, Fresh(), [])
    ensures Flatten([]) + Fresh().buffer == [] && |Fresh().metadata| == 0
  {
    assert Fresh().(buffer := []) == Fresh();
  }

  lemma {:induction false} OneSegment(crc: Checksum, codec: RowCodec, o: BlockOptions, r: RollingOptions,
                                      bytes: seq<byte>, all: seq<seq<Line>>,
                   segments: seq<seq<byte>>, plan: seq<seq<seq<Line>>>)
    requires Segment(crc, codec, o, r, bytes, all) && Segments(crc, codec, o, r, segments, plan)
    requires all != [] && (plan != [] ==> ClosedFull(crc, codec, o, r, all))
    ensures Segments(crc, codec, o, r, [bytes] + segments, [all] + plan)
    ensures Rows([all] + plan) == Flatten(all) + Rows(plan)
  {
    hide Segment, ClosedFull;
    assert ([all] + plan)[1..] == plan;
  }

  /** Rolling conserves the rows: the segments hold exactly them, in order, whatever the limits. */
  lemma {:induction false} RollFromHolds(crc: Checksum, codec: RowCodec, o: BlockOptions, r: RollingOptions,
                                         open: Option<WriterState>, groups: seq<seq<Line>>, raws: seq<Line>)
    returns (plan: seq<seq<seq<Line>>>)
    requires ValidOptions(o) && ValidRolling(r)
    requires open.Some? ==> Writing(crc, codec, o, r, open.value, groups) && Flatten(groups) + open.value.buffer != []
    requires RollFrom(crc, codec, o, r, open, raws).Some?
    ensures Segments(crc, codec, o, r, RollFrom(crc, codec, o, r, open, raws).value, plan)
    ensures NormalRows(raws).Some?
    ensures Rows(plan) == (if open.Some? then Flatten(groups) + open.value.buffer else []) + NormalRows(raws).value
    decreases |raws|, 1
  {
    hide Writing, Segment, ClosedFull, Full, WriteLine, Close, Fresh, Blank, Normalize, Flatten;
    if raws == [] {
      if open.None? {
        plan := [];
      } else {
        var all := Closing(crc, codec, o, r, open.value, groups);
        plan := [all];
        OneSegment(crc, codec, o, r, Close(crc, codec, open.value).value, all, [], []);
        assert [all] + [] == [all] && Flatten(all) + [] == Flatten(all);
        assert [Close(crc, codec, open.value).value] + [] == [Close(crc, codec, open.value).value];
      }
    } else if Blank(raws[0]) {
      plan := RollFromHolds(crc, codec, o, r, open, groups, raws[1..]);
    } else if open.Some? && Full(r, open.value) {
      var all := Closing(crc, codec, o, r, open.value, groups);
      NewSegment(crc, codec, o, r);
      plan := RollLine(crc, codec, o, r, Fresh(), [], raws);
      var bytes := Close(crc, codec, open.value).value;
      var rest := RollAfter(crc, codec, o, r, Fresh(), raws).value;
      OneSegment(crc, codec, o, r, bytes, all, rest, plan);
      plan := [all] + plan;
      assert [] + NormalRows(raws).value == NormalRows(raws).value;
    } else {
      NewSegment(crc, codec, o, r);
      plan := RollLine(crc, codec, o, r, if open.Some? then open.value else Fresh(), if open.Some? then groups else [], raws);
    }
  }

  /** The case of a line written to a segment with room: the line, then the rest of the input. */
  lemma {:induction false} RollLine(crc: Checksum, codec: RowCodec, o: BlockOptions, r: RollingOptions,
                                    w: WriterState, groups: seq<seq<Line>>, raws: seq<Line>)
    returns (plan: seq<seq<seq<Line>>>)
    requires ValidOptions(o) && ValidRolling(r) && raws != [] && !Blank(raws[0])
    requires Writing(crc, codec, o, r, w, groups) && ((w == Fresh() && groups == []) || !Full(r, w))
    requires RollAfter(crc, codec, o, r, w, raws).Some?
    ensures Segments(crc, codec, o, r, RollAfter(crc, codec, o, r, w, raws).value, plan)
    ensures NormalRows(raws).Some?
    ensures Rows(plan) == (Flatten(groups) + w.buffer) + NormalRows(raws).value
    decreases |raws|, 0
  {
    hide Writing, Segments, WriteLine, SplitLine, Blank, Normalize, Flatten, RollFrom, RowOf, NormalRows;
    hide ValidOptions, ValidRolling, Rows;
    LineIsNormal(crc, codec, o, w, raws[0]);
    var w' := WriteLine(crc, codec, o, w, raws[0]).value;
    var more := WritingOn(crc, codec, o, r, w, groups, raws[0]);
    RowOfLine(o, w.buffer, raws[0]);
    plan := RollFromHolds(crc, codec, o, r, Some(w'), more, raws[1..]);
    NormalRowsCons(o, w.buffer, raws);
    var tail := NormalRows(raws[1..]).value;
    assert ((Flatten(groups) + w.buffer) + RowOf(raws[0])) + tail == (Flatten(groups) + w.buffer) + (RowOf(raws[0]) + tail);
  }

  lemma {:induction false} RowOfLine(o: BlockOptions, buffer: seq<Line>, raw: Line)
    requires !Blank(raw) && SplitLine(o, buffer, raw).Some?
    ensures |RowOf(raw)| == 1
  {
    hide Blank, Normalize;
  }

  lemma {:induction false} LineIsNormal(crc: Checksum, codec: RowCodec, o: BlockOptions, w: WriterState, raw: Line)
    requires WriteLine(crc, codec, o, w, raw).Some?
    ensures SplitLine(o, w.buffer, raw).Some?
  {
    hide SplitLine, WriteLine;
    WriteLineSplits(crc, codec, o, w, raw);
  }

  // ----- the result -----

  /** The text of consecutive segments, replayed one after the other; None when one does not replay. */
  function ReplayAll(crc: Checksum, codec: RowCodec, segments: seq<seq<byte>>): Option<seq<byte>> {
    if segments == [] then Some([])
    else
      match (Replay(crc, codec, segments[0]), ReplayAll(crc, codec, segments[1..]))
      case (Some(text), Some(rest)) => Some(text + rest)
      case (_, _) => None
  }

  ghost predicate WithinLimits(o: BlockOptions, bs: seq<Block>) {
    forall k :: 0 <= k < |bs| ==> 1 <= bs[k].rows <= o.maxRows && bs[k].rawSize <= o.maxBytes
  }

  lemma {:induction false} BlocksWithin(codec: RowCodec, o: BlockOptions, groups: seq<seq<Line>>, index: nat, row: nat)
    requires GoodGroups(o, groups) && o.maxRows < U64_LIMIT && o.maxBytes < U64_LIMIT
    requires BlocksOf(codec, groups, index, row).Some?
    ensures WithinLimits(o, BlocksOf(codec, groups, index, row).value)
    decreases |groups|
  {
    hide BlockOf, GoodGroup, Concat, AsU64;
    if groups != [] {
      BlockWithin(codec, o, groups[0], AsU64(index), AsU64(row));
      var b := BlockOf(codec, Concat(groups[0]), AsU64(index), AsU64(row)).value;
      BlocksWithin(codec, o, groups[1..], index + 1, row + b.rows);
      var bs := BlocksOf(codec, groups, index, row).value;
      var rest := BlocksOf(codec, groups[1..], index + 1, row + b.rows).value;
      forall k | 0 <= k < |bs| ensures 1 <= bs[k].rows <= o.maxRows && bs[k].rawSize <= o.maxBytes {
        assert k > 0 ==> bs[k] == rest[k - 1];
      }
    }
  }

  lemma {:induction false} BlockWithin(codec: RowCodec, o: BlockOptions, group: seq<Line>, index: u64, row: u64)
    requires GoodGroup(o, group) && o.maxRows < U64_LIMIT && o.maxBytes < U64_LIMIT
    requires BlockOf(codec, Concat(group), index, row).Some?
    ensures var b := BlockOf(codec, Concat(group), index, row).value;
            b.rows == |group| && b.rawSize == |Concat(group)| && 1 <= b.rows <= o.maxRows && b.rawSize <= o.maxBytes
  {
    hide Concat, RowsOf;
    RowsOfConcat(group);
  }

  /** A segment is a complete append stream: nothing of it is discarded, and the block limits hold. */
  ghost predicate GoodSegment(crc: Checksum, o: BlockOptions, bytes: seq<byte>) {
    var bs := BlocksIn(crc, bytes);
    && bytes == StreamBytes(crc, bs)
    && Recover(crc, bytes) == Some(Recovered(crc, bs, |bytes|))
    && WithinLimits(o, bs)
  }

  /** The readers' limits on one segment: every frame within the size limit, the raw sizes within 64 bits. */
  ghost predicate SegmentFits(codec: RowCodec, groups: seq<seq<Line>>) {
    && |Concat(Flatten(groups))| < U64_LIMIT
    && (BlocksOf(codec, groups, 0, 0).Some? ==> FramesFit(BlocksOf(codec, groups, 0, 0).value))
  }

  ghost predicate PlanFits(codec: RowCodec, plan: seq<seq<seq<Line>>>) {
    forall k :: 0 <= k < |plan| ==> SegmentFits(codec, plan[k])
  }

  /** The codec is lossless on every row group that a reader gets to. */
  ghost predicate PlanLossless(codec: RowCodec, plan: seq<seq<seq<Line>>>) {
    forall k :: 0 <= k < |plan| ==> Lossless(codec, ReadableGroups(codec, plan[k], 0, 0))
  }

  /** A segment is the stream of the blocks of its row groups. */
  lemma {:induction false} SegmentBlocks(crc: Checksum, codec: RowCodec, o: BlockOptions, r: RollingOptions,
                                         bytes: seq<byte>,
                                         groups: seq<seq<Line>>)
    requires Segment(crc, codec, o, r, bytes, groups)
    ensures BlocksOf(codec, groups, 0, 0).Some?
    ensures var bs := BlocksOf(codec, groups, 0, 0).value;
            && bytes == StreamBytes(crc, bs) && |bytes| < U64_LIMIT && |bs| <= MAX_STREAM_BLOCKS && TotalRows(bs) < U64_LIMIT
            && Chain(bs[..Readable(bs)], 0, 0)
  {
    hide BlockPayload, StreamBytes, TotalRaw, Chain, EmitAll, BlocksOf, TotalRows, Readable, GoodGroups, BlocksBytes;
    EmitAllWrites(crc, codec, Fresh(), groups);
    var bs := BlocksOf(codec, groups, 0, 0).value;
    var m := Readable(bs);
    FreshOutput(crc, bs);
    ReadableFits(bs);
    BlocksOfPrefix(codec, groups, 0, 0, m);
    assert bs == bs[..m] + bs[m..];
    RowsAppend(bs[..m], bs[m..]);
    BlocksOfChain(codec, groups[..m], 0, 0);
  }

  /** Recovery of a segment keeps the blocks in front of the first frame above the size limit. */
  lemma {:induction false} SegmentRecovers(crc: Checksum, codec: RowCodec, o: BlockOptions, r: RollingOptions,
                                           bytes: seq<byte>, groups: seq<seq<Line>>)
    requires Segment(crc, codec, o, r, bytes, groups)
    ensures BlocksOf(codec, groups, 0, 0).Some?
    ensures var bs := BlocksOf(codec, groups, 0, 0).value;
            var kept := bs[..Readable(bs)];
            && |bytes| < U64_LIMIT && HeaderOk(bytes) && BlocksIn(crc, bytes) == kept
            && Recover(crc, bytes) == if TotalRaw(kept) < U64_LIMIT then Some(Recovered(crc, kept, |bytes|)) else None
  {
    hide BlockPayload, StreamBytes, TotalRaw, TotalRows, Chain, BlocksOf, Readable, HeaderOk, Recover, Recovered;
    hide BlocksIn;
    hide Segment, FramesFit;
    SegmentBlocks(crc, codec, o, r, bytes, groups);
    var bs := BlocksOf(codec, groups, 0, 0).value;
    var m := Readable(bs);
    ReadableFits(bs);
    assert bs == bs[..m] + bs[m..];
    StreamRecovers(crc, bs[..m], bs[m..]);
  }

  /** Replay of a segment gives the row groups in front of the first frame above the size limit. */
  lemma {:induction false} SegmentText(crc: Checksum, codec: RowCodec, o: BlockOptions, r: RollingOptions,
                                       bytes: seq<byte>, groups: seq<seq<Line>>)
    requires o.maxRows < U64_LIMIT && o.maxBytes < U64_LIMIT
    requires Segment(crc, codec, o, r, bytes, groups) && Lossless(codec, ReadableGroups(codec, groups, 0, 0))
    ensures BlocksOf(codec, groups, 0, 0).Some?
    ensures var bs := BlocksOf(codec, groups, 0, 0).value;
            Replay(crc, codec, bytes) ==
            if TotalRaw(bs[..Readable(bs)]) < U64_LIMIT then Some(Concat(Flatten(ReadableGroups(codec, groups, 0, 0)))) else None
  {
    SegmentRecovers(crc, codec, o, r, bytes, groups);
    var bs := BlocksOf(codec, groups, 0, 0).value;
    var m := Readable(bs);
    assert GoodGroups(o, groups[..m]);
    hide TotalRaw, BlocksOf, Readable, GoodGroup, Lossless, HeaderOk, Recover, Recovered, DecodeStream, Texts, Concat;
    hide Flatten;
    hide BlocksIn, Segment;
    BlocksOfPrefix(codec, groups, 0, 0, m);
    if TotalRaw(bs[..m]) < U64_LIMIT {
      ReplayIsTexts(crc, codec, bytes);
      GroupsText(codec, o, groups[..m], 0, 0);
    }
  }

  /** A segment within the limits is a complete append stream that replays to its rows. */
  lemma {:induction false} SegmentReplays(crc: Checksum, codec: RowCodec, o: BlockOptions, r: RollingOptions,
                                          bytes: seq<byte>,
                                          groups: seq<seq<Line>>)
    requires o.maxRows < U64_LIMIT && o.maxBytes < U64_LIMIT && Segment(crc, codec, o, r, bytes, groups)
    requires Lossless(codec, ReadableGroups(codec, groups, 0, 0)) && SegmentFits(codec, groups)
    ensures GoodSegment(crc, o, bytes) && Replay(crc, codec, bytes) == Some(Concat(Flatten(groups)))
  {
    SegmentBlocks(crc, codec, o, r, bytes, groups);
    SegmentRecovers(crc, codec, o, r, bytes, groups);
    SegmentText(crc, codec, o, r, bytes, groups);
    var bs := BlocksOf(codec, groups, 0, 0).value;
    hide BlockPayload, StreamBytes, TotalRaw, BlocksOf, Readable, GoodGroup, Lossless, Recover, Recovered, Concat;
    hide Flatten, BlocksIn, EmitAll;
    hide Replay, FramesFit, WithinLimits;
    ReadableFits(bs);
    TextOfBlocks(codec, o, groups, 0, 0);
    BlocksWithin(codec, o, groups, 0, 0);
    assert bs[..|bs|] == bs && groups[..|groups|] == groups;
  }

  /** Any other segment replays to less than its rows, or not at all. */
  lemma {:induction false} SegmentFails(crc: Checksum, codec: RowCodec, o: BlockOptions, r: RollingOptions,
                                        bytes: seq<byte>,
                                        groups: seq<seq<Line>>)
    requires o.maxRows < U64_LIMIT && o.maxBytes < U64_LIMIT && Segment(crc, codec, o, r, bytes, groups)
    requires Lossless(codec, ReadableGroups(codec, groups, 0, 0)) && !SegmentFits(codec, groups)
    ensures Replay(crc, codec, bytes).Some? ==> |Replay(crc, codec, bytes).value| < |Concat(Flatten(groups))|
  {
    SegmentText(crc, codec, o, r, bytes, groups);
    var bs := BlocksOf(codec, groups, 0, 0).value;
    assert GoodGroups(o, groups);
    hide BlockPayload, TotalRaw, BlocksOf, Readable, GoodGroup, Lossless, Recover, Recovered, Concat, Flatten;
    hide BlocksIn, Segment;
    hide Replay, FramesFit;
    ReadableFits(bs);
    TextOfBlocks(codec, o, groups, 0, 0);
    PrefixShorter(o, groups, Readable(bs));
    assert bs[..|bs|] == bs;
  }

  lemma {:induction false} FreshOutput(crc: Checksum, bs: seq<Block>)
    requires Room(crc, Fresh(), bs)
    ensures Extended(crc, Fresh(), bs).output == StreamBytes(crc, bs) && |StreamBytes(crc, bs)| < U64_LIMIT
  {
    hide BlocksBytes, Index, StreamHeader;
  }

  /** What the parts of a text are when the whole is no shorter than it can be. */
  lemma {:induction false} SameParts(a: seq<byte>, b: seq<byte>, x: seq<byte>, y: seq<byte>)
    requires |a| <= |x| && |b| <= |y|
    ensures a + b == x + y <==> a == x && b == y
  {
    if a + b == x + y {
      assert a == (a + b)[..|a|] && x == (x + y)[..|x|];
      assert b == (a + b)[|a|..] && y == (x + y)[|x|..];
    }
  }

  lemma {:induction false} PlanReplays(crc: Checksum, codec: RowCodec, o: BlockOptions, r: RollingOptions,
                                       segments: seq<seq<byte>>,
                                       plan: seq<seq<seq<Line>>>)
    requires o.maxRows < U64_LIMIT && o.maxBytes < U64_LIMIT
    requires Segments(crc, codec, o, r, segments, plan) && PlanLossless(codec, plan)
    ensures ReplayAll(crc, codec, segments) == Some(Concat(Rows(plan))) <==> PlanFits(codec, plan)
    ensures ReplayAll(crc, codec, segments).Some? ==> |ReplayAll(crc, codec, segments).value| <= |Concat(Rows(plan))|
    ensures PlanFits(codec, plan) ==> forall k :: 0 <= k < |segments| ==> GoodSegment(crc, o, segments[k])
    decreases |plan|
  {
    hide Segment, SegmentFits, Concat, Flatten, Replay, GoodSegment, ReadableGroups, Lossless;
    ConcatNothing();
    if plan != [] {
      var bytes, groups := segments[0], plan[0];
      ConcatAppend(Flatten(groups), Rows(plan[1..]));
      if SegmentFits(codec, groups) {
        SegmentReplays(crc, codec, o, r, bytes, groups);
      } else {
        SegmentFails(crc, codec, o, r, bytes, groups);
      }
      PlanReplays(crc, codec, o, r, segments[1..], plan[1..]);
      assert PlanFits(codec, plan) <==> SegmentFits(codec, groups) && PlanFits(codec, plan[1..]) by {
        assert plan == [groups] + plan[1..];
      }
      var (first, rest) := (Replay(crc, codec, bytes), ReplayAll(crc, codec, segments[1..]));
      if first.Some? && rest.Some? {
        SameParts(first.value, rest.value, Concat(Flatten(groups)), Concat(Rows(plan[1..])));
      }
    }
  }

  // ----- when rolling succeeds -----

  ghost predicate PartOf(part: seq<Line>, all: seq<Line>) {
    exists before, behind :: all == before + part + behind
  }

  /** Any run of these rows, in groups within the limits, can be written to a stream of its own. */
  ghost predicate RunsWritable(crc: Checksum, codec: RowCodec, o: BlockOptions, all: seq<Line>) {
    forall groups :: GoodGroups(o, groups) && PartOf(Flatten(groups), all) ==> EmitAll(crc, codec, Fresh(), groups).Some?
  }

  lemma {:induction false} FrontPart(before: seq<Line>, run: seq<Line>, rest: seq<Line>, behind: seq<Line>)
    ensures PartOf(run, before + (run + rest) + behind)
  {
    assert before + (run + rest) + behind == before + run + (rest + behind);
  }

  lemma {:induction false} JoinGood(o: BlockOptions, a: seq<seq<Line>>, b: seq<seq<Line>>)
    requires GoodGroups(o, a) && GoodGroups(o, b)
    ensures GoodGroups(o, a + b)
  {
    hide GoodGroup;
  }

  lemma {:induction false} PartAt(before: seq<Line>, part: seq<Line>, behind: seq<Line>)
    ensures PartOf(part, before + part + behind)
  {
  }

  /** A line of a writable run can be written to its segment. */
  lemma {:induction false} LineWritten(crc: Checksum, codec: RowCodec, o: BlockOptions, r: RollingOptions,
                                       w: WriterState,
                                       groups: seq<seq<Line>>, raw: Line, before: seq<Line>, behind: seq<Line>)
    requires ValidOptions(o) && Writing(crc, codec, o, r, w, groups)
    requires SplitLine(o, w.buffer, raw).Some?
    requires RunsWritable(crc, codec, o, before + ((Flatten(groups) + w.buffer) + RowOf(raw)) + behind)
    ensures WriteLine(crc, codec, o, w, raw).Some?
  {
    hide Emit, SplitLine, GoodGroup, GoodBuffer, WriteLine, Fresh, RowOf, Greedy, Reached, Bounded, PartOf;
    WriteLineSplits(crc, codec, o, w, raw);
    SplitLineGood(o, w.buffer, raw);
    SplitLineFlat(o, w.buffer, raw);
    var (added, rest) := SplitLine(o, w.buffer, raw).value;
    var more := groups + added;
    EmitAllAppend(crc, codec, Fresh(), groups, added);
    FlattenAppend(groups, added);
    SameRows(Flatten(groups), Flatten(added), rest, w.buffer, RowOf(raw));
    FrontPart(before, Flatten(more), rest, behind);
    JoinGood(o, groups, added);
  }

  lemma {:induction false} SegmentClosed(crc: Checksum, codec: RowCodec, o: BlockOptions, r: RollingOptions,
                                         w: WriterState, groups: seq<seq<Line>>, before: seq<Line>, behind: seq<Line>)
    requires Writing(crc, codec, o, r, w, groups)
    requires RunsWritable(crc, codec, o, before + (Flatten(groups) + w.buffer) + behind)
    ensures Close(crc, codec, w).Some?
  {
    hide Emit, Fresh, Greedy, Reached, Bounded, PartOf, AllNormal, Concat;
    if w.buffer != [] {
      EmitAllAppend(crc, codec, Fresh(), groups, [w.buffer]);
      EmitOneOrTwo(crc, codec, w.(buffer := []), w.buffer, []);
      EmitIgnoresBuffer(crc, codec, w, [], w.buffer);
      FlattenAppend(groups, [w.buffer]);
      FlattenTwo(w.buffer, []);
      PartsGood(o, groups, w.buffer);
      PartAt(before, Flatten(groups) + w.buffer, behind);
      assert GoodGroups(o, groups + [w.buffer]);
    }
  }

  lemma {:induction false} FirstSplits(o: BlockOptions, buffer: seq<Line>, raws: seq<Line>)
    requires raws != [] && NormalRows(raws).Some? && ShortLines(o, NormalRows(raws).value)
    ensures SplitLine(o, buffer, raws[0]).Some? && NormalRows(raws[1..]).Some?
    ensures NormalRows(raws).value == RowOf(raws[0]) + NormalRows(raws[1..]).value
    ensures ShortLines(o, NormalRows(raws[1..]).value)
  {
    hide Blank, Normalize, WouldExceed, Reached;
    if Blank(raws[0]) {
      assert [] + NormalRows(raws[1..]).value == NormalRows(raws[1..]).value;
    } else {
      FirstRow(raws);
      var rows := NormalRows(raws).value;
      assert rows == [rows[0]] + rows[1..];
    }
  }

  /** The rows behind an open segment, and what is in front of them. */
  lemma {:induction false} RollFromExists(crc: Checksum, codec: RowCodec, o: BlockOptions, r: RollingOptions,
                                          open: Option<WriterState>, groups: seq<seq<Line>>, raws: seq<Line>,
                                          before: seq<Line>)
    requires ValidOptions(o) && ValidRolling(r)
    requires open.Some? ==> Writing(crc, codec, o, r, open.value, groups)
    requires NormalRows(raws).Some? && ShortLines(o, NormalRows(raws).value)
    requires var held := if open.Some? then Flatten(groups) + open.value.buffer else [];
             RunsWritable(crc, codec, o, before + held + NormalRows(raws).value)
    ensures RollFrom(crc, codec, o, r, open, raws).Some?
    decreases |raws|, 1
  {
    hide Writing, RunsWritable, WriteLine, Close, Fresh, Blank, Normalize, Flatten, ShortLines, Full, SplitLine;
    var held := if open.Some? then Flatten(groups) + open.value.buffer else [];
    if open.Some? {
      SegmentClosed(crc, codec, o, r, open.value, groups, before, NormalRows(raws).value);
    }
    if raws != [] && Blank(raws[0]) {
      BlankSkipped(raws, []);
      RollFromExists(crc, codec, o, r, open, groups, raws[1..], before);
    } else if raws != [] {
      NewSegment(crc, codec, o, r);
      if open.Some? && !Full(r, open.value) {
        RollAfterExists(crc, codec, o, r, open.value, groups, raws, before);
      } else {
        assert before + held + NormalRows(raws).value == (before + held) + [] + NormalRows(raws).value;
        RollAfterExists(crc, codec, o, r, Fresh(), [], raws, before + held);
      }
    }
  }

  lemma {:induction false} RollAfterExists(crc: Checksum, codec: RowCodec, o: BlockOptions, r: RollingOptions,
                                           w: WriterState, groups: seq<seq<Line>>, raws: seq<Line>, before: seq<Line>)
    requires ValidOptions(o) && ValidRolling(r) && raws != []
    requires Writing(crc, codec, o, r, w, groups) && ((w == Fresh() && groups == []) || !Full(r, w))
    requires NormalRows(raws).Some? && ShortLines(o, NormalRows(raws).value)
    requires RunsWritable(crc, codec, o, before + (Flatten(groups) + w.buffer) + NormalRows(raws).value)
    ensures RollAfter(crc, codec, o, r, w, raws).Some?
    decreases |raws|, 0
  {
    hide Writing, RunsWritable, WriteLine, SplitLine, Fresh, Normalize, Flatten, ShortLines, Full, RollFrom, RowOf;
    hide NormalRows;
    FirstSplits(o, w.buffer, raws);
    var (held, row, tail) := (Flatten(groups) + w.buffer, RowOf(raws[0]), NormalRows(raws[1..]).value);
    assert before + held + (row + tail) == before + (held + row) + tail;
    LineWritten(crc, codec, o, r, w, groups, raws[0], before, tail);
    var more := WritingOn(crc, codec, o, r, w, groups, raws[0]);
    RollFromExists(crc, codec, o, r, Some(WriteLine(crc, codec, o, w, raws[0]).value), more, raws[1..], before);
  }

  /** Rolling succeeds whenever every line can be normalized and is short enough, and every run of the rows can be written. */
  lemma {:induction false} RollExists(crc: Checksum, codec: RowCodec, o: BlockOptions, r: RollingOptions,
                                      raws: seq<Line>)
    requires o.maxRows > 0 && o.maxBytes > 0 && r.maxSegmentBytes > 0 && r.maxBlocksPerSegment > 0
    requires NormalRows(raws).Some? && ShortLines(o, NormalRows(raws).value)
    requires RunsWritable(crc, codec, o, NormalRows(raws).value)
    ensures Roll(crc, codec, o, r, raws, true).Some?
  {
    hide RollFrom, RunsWritable, NormalRows, ShortLines;
    assert [] + [] + NormalRows(raws).value == NormalRows(raws).value;
    RollFromExists(crc, codec, o, r, None, [], raws, []);
  }

  // ----- where segments end -----

  /** The stream of these blocks has reached a limit of a segment. */
  predicate AtLimit(crc: Checksum, r: RollingOptions, bs: seq<Block>) {
    |bs| >= r.maxBlocksPerSegment || |StreamBytes(crc, bs)| >= r.maxSegmentBytes
  }

  /** Nothing was added to a segment at a limit: all but its last two blocks are below both. */
  ghost predicate EndsInTime(crc: Checksum, r: RollingOptions, bs: seq<Block>) {
    && bs != []
    && (|bs| >= 2 ==> !AtLimit(crc, r, bs[..|bs| - 2]))
  }

  /** A segment was closed only at a limit, by its last block or in front of it. */
  ghost predicate EndsAtLimit(crc: Checksum, o: BlockOptions, r: RollingOptions, bs: seq<Block>) {
    && bs != []
    && (|| AtLimit(crc, r, bs[..|bs| - 1])
        || (AtLimit(crc, r, bs) && (bs[|bs| - 1].rows >= o.maxRows || bs[|bs| - 1].rawSize >= o.maxBytes)))
  }

  /** The blocks of the segments, and where each of them ends. */
  ghost predicate RolledAt(crc: Checksum, codec: RowCodec, o: BlockOptions, r: RollingOptions,
                           segments: seq<seq<byte>>, plan: seq<seq<seq<Line>>>, k: nat)
    requires k < |segments| == |plan|
  {
    && BlocksOf(codec, plan[k], 0, 0).Some?
    && var bs := BlocksOf(codec, plan[k], 0, 0).value;
       && segments[k] == StreamBytes(crc, bs)
       && EndsInTime(crc, r, bs) && (k < |plan| - 1 ==> EndsAtLimit(crc, o, r, bs))
  }

  lemma {:induction false} FullIsLimit(crc: Checksum, codec: RowCodec, r: RollingOptions, groups: seq<seq<Line>>,
                                       m: nat)
    requires EmitAll(crc, codec, Fresh(), groups).Some? && m <= |groups|
    ensures BlocksOf(codec, groups, 0, 0).Some?
    ensures FullAfter(crc, codec, r, groups[..m]) <==> AtLimit(crc, r, BlocksOf(codec, groups, 0, 0).value[..m])
    ensures EmitAll(crc, codec, Fresh(), groups).value.output == StreamBytes(crc, BlocksOf(codec, groups, 0, 0).value)
  {
    hide EmitAll, BlocksOf, BlocksBytes, Index, StreamHeader, TotalRows;
    EmitAllWrites(crc, codec, Fresh(), groups);
    FullStays(crc, codec, r, groups, m);
    EmitAllWrites(crc, codec, Fresh(), groups[..m]);
    BlocksOfPrefix(codec, groups, 0, 0, m);
    FreshOutput(crc, BlocksOf(codec, groups, 0, 0).value);
    FreshOutput(crc, BlocksOf(codec, groups[..m], 0, 0).value);
  }

  lemma {:induction false} LastBlock(codec: RowCodec, o: BlockOptions, groups: seq<seq<Line>>, index: nat, row: nat)
    requires GoodGroups(o, groups) && o.maxRows < U64_LIMIT && o.maxBytes < U64_LIMIT && groups != []
    requires BlocksOf(codec, groups, index, row).Some?
    ensures var b := BlocksOf(codec, groups, index, row).value[|groups| - 1];
            && b.rows == |groups[|groups| - 1]| && b.rawSize == |Concat(groups[|groups| - 1])|
    decreases |groups|
  {
    hide Concat, BlockOf, GoodGroup, AsU64;
    var bs := BlocksOf(codec, groups, index, row).value;
    if |groups| == 1 {
      BlockWithin(codec, o, groups[0], AsU64(index), AsU64(row));
    } else {
      var b := BlockOf(codec, Concat(groups[0]), AsU64(index), AsU64(row)).value;
      LastBlock(codec, o, groups[1..], index + 1, row + b.rows);
      assert bs[|groups| - 1] == BlocksOf(codec, groups[1..], index + 1, row + b.rows).value[|groups| - 2];
    }
  }

  lemma {:induction false} SegmentEnds(crc: Checksum, codec: RowCodec, o: BlockOptions, r: RollingOptions,
                                       segments: seq<seq<byte>>, plan: seq<seq<seq<Line>>>, k: nat)
    requires Segments(crc, codec, o, r, segments, plan) && k < |plan|
    requires o.maxRows < U64_LIMIT && o.maxBytes < U64_LIMIT
    ensures RolledAt(crc, codec, o, r, segments, plan, k)
  {
    hide EmitAll, BlocksOf, FullAfter, AtLimit, Greedy, GoodGroups, Fresh, Concat;
    var groups := plan[k];
    assert Segment(crc, codec, o, r, segments[k], groups);
    FullIsLimit(crc, codec, r, groups, |groups|);
    FullIsLimit(crc, codec, r, groups, |groups| - 1);
    if |groups| >= 2 {
      FullIsLimit(crc, codec, r, groups, |groups| - 2);
    }
    var bs := BlocksOf(codec, groups, 0, 0).value;
    assert groups[..|groups|] == groups && bs[..|bs|] == bs;
    LastBlock(codec, o, groups, 0, 0);
    if k < |plan| - 1 {
      assert ClosedFull(crc, codec, o, r, groups);
    }
  }

  /**
    Rolling loses nothing. `plan` is the row groups of each segment: together they are the contents of the non-blank
    lines, and the segments hold exactly them, each as long as its limits allow. With a codec that is lossless on them,
    the segments, replayed one after the other, give back the contents if and only if they keep the readers' limits; then
    each is a complete append stream whose blocks keep the block limits.
  */
  lemma {:induction false} RollingConserves(crc: Checksum, codec: RowCodec, o: BlockOptions, r: RollingOptions,
                                            raws: seq<Line>)
    returns (plan: seq<seq<seq<Line>>>, contents: seq<Line>)
    requires o.maxRows < U64_LIMIT && o.maxBytes < U64_LIMIT
    requires Roll(crc, codec, o, r, raws, true).Some?
    ensures Contents(raws, contents) && NormalRows(raws) == Some(Terminated(contents)) && Rows(plan) == Terminated(contents)
    ensures var segments := Roll(crc, codec, o, r, raws, true).value;
            && Segments(crc, codec, o, r, segments, plan)
            && (forall k: nat :: k < |segments| ==> RolledAt(crc, codec, o, r, segments, plan, k))
            && (PlanLossless(codec, plan) ==>
                  && (ReplayAll(crc, codec, segments) == Some(Concat(Terminated(contents))) <==> PlanFits(codec, plan))
                  && (PlanFits(codec, plan) ==> forall k :: 0 <= k < |segments| ==> GoodSegment(crc, o, segments[k])))
  {
    hide RollFrom, Segments, Concat, PlanFits, PlanLossless, ReplayAll, GoodSegment, NormalRows, Contents, RolledAt;
    plan := RollFromHolds(crc, codec, o, r, None, [], raws);
    contents := ContentsOf(raws);
    var segments := Roll(crc, codec, o, r, raws, true).value;
    assert [] + NormalRows(raws).value == NormalRows(raws).value;
    SameLength(crc, codec, o, r, segments, plan);
    forall k: nat | k < |segments| ensures RolledAt(crc, codec, o, r, segments, plan, k) {
      SegmentEnds(crc, codec, o, r, segments, plan, k);
    }
    if PlanLossless(codec, plan) {
      PlanReplays(crc, codec, o, r, segments, plan);
    }
  }

  lemma {:induction false} SameLength(crc: Checksum, codec: RowCodec, o: BlockOptions, r: RollingOptions,
                                      segments: seq<seq<byte>>, plan: seq<seq<seq<Line>>>)
    requires Segments(crc, codec, o, r, segments, plan)
    ensures |segments| == |plan|
  {
  }
}
