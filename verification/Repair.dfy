/**
  Copy-on-write repair (crates/compact-core/src/storage/repair.rs): a plan bound to the source bytes, and its
  execution into a new buffer.
*/
module Repair {
  import opened Wrappers
  import opened Bytes
  import opened Limits
  import Stream = BlockStream
  import Log = Recovery
  import Reader
  import BlockReader
  import Writer
  import Format4 = Cmp4Format
  import Groups = Cmp4Recovery
  import RowGroups
  import Check4 = Cmp4Validate

  datatype Format = V1 | V2 | V3 | V4

  datatype Action = Nothing | RebuildFooter | TruncateTailAndRebuildFooter

  /** The BLAKE3 hash, as any function of the bytes. */
  type Digest = seq<byte> -> seq<byte>

  datatype Plan = Plan(
    format: Format,
    action: Action,
    sourceLen: nat,
    sourceChecksum: u32,
    sourceDigest: seq<byte>,
    recoverableLen: nat,
    discardedBytes: nat,
    recoveredUnits: nat,
    recoveredRows: nat)

  /** `detect`: the magic, and the version that belongs to it. */
  function Detect(data: seq<byte>): Option<Format> {
    if |data| < 5 then None
    else if data[..4] == Magic(0x43, 0x4D, 0x50, 0x31) then if data[4] == 1 then Some(V1) else None
    else if data[..4] == Magic(0x43, 0x4D, 0x50, 0x32) then if data[4] == 2 then Some(V2) else None
    else if data[..4] == Magic(0x43, 0x4D, 0x50, 0x33) then if data[4] == 3 then Some(V3) else None
    else if data[..4] == Magic(0x43, 0x4D, 0x50, 0x34) then if data[4] == 4 then Some(V4) else None
    else None
  }

  function NoOpPlan(crc: Checksum, digest: Digest, format: Format, data: seq<byte>, units: nat, rows: nat): Plan {
    Plan(format, Nothing, |data|, crc(data), digest(data), |data|, 0, units, rows)
  }

  function RepairPlan(crc: Checksum, digest: Digest, format: Format, data: seq<byte>, len: nat, units: nat,
                      rows: nat): Option<Plan> {
    if len > |data| then None
    else
      var discarded := |data| - len;
      Some(Plan(format, if discarded == 0 then RebuildFooter else TruncateTailAndRebuildFooter, |data|, crc(data), digest(data),
                len, discarded, units, rows))
  }

  function PlanCmp2(crc: Checksum, digest: Digest, data: seq<byte>): Option<Plan> {
    var inspect := Reader.Inspect(crc, data);
    if inspect.Some? && inspect.value.footer.Some? then
      Some(NoOpPlan(crc, digest, V2, data, |inspect.value.blocks|, inspect.value.totalRows))
    else
      match Log.Recover(crc, data)
      case None => None
      case Some(r) =>
        if r.validLen < 10 then None else RepairPlan(crc, digest, V2, data, r.validLen, |r.blocks|, r.totalRows)
  }

  function PlanCmp4(crc: Checksum, digest: Digest, data: seq<byte>): Option<Plan> {
    match Check4.Validate(crc, data)
    case Some(footer) => Some(NoOpPlan(crc, digest, V4, data, |footer.groups|, footer.totalRows))
    case None =>
      match Groups.Recover(crc, data)
      case None => None
      case Some(r) => RepairPlan(crc, digest, V4, data, r.validBodyLen, |r.footer.groups|, r.footer.totalRows)
  }

  /** `plan` */
  function MakePlan(crc: Checksum, digest: Digest, data: seq<byte>): Option<Plan> {
    match Detect(data)
    case Some(V2) => PlanCmp2(crc, digest, data)
    case Some(V4) => PlanCmp4(crc, digest, data)
    case _ => None
  }

  /** The repaired CMP2 bytes and their final inspection. */
  function ExecuteCmp2(crc: Checksum, data: seq<byte>, plan: Plan): Option<seq<byte>> {
    match Log.Recover(crc, data)
    case None => None
    case Some(r) =>
      if r.validLen != plan.recoverableLen || r.totalRows != plan.recoveredRows || |r.blocks| != plan.recoveredUnits then None
      else
        var output := data[..r.validLen] + Stream.IndexFooter(r.blocks);
        match Reader.Inspect(crc, output)
        case None => None
        case Some(inspect) => if inspect.footer.None? then None else Some(output)
  }

  /** The repaired CMP4 bytes and their final validation. */
  function ExecuteCmp4(crc: Checksum, data: seq<byte>, plan: Plan): Option<seq<byte>> {
    match Groups.Recover(crc, data)
    case None => None
    case Some(r) =>
      if r.validBodyLen != plan.recoverableLen || r.footer.totalRows != plan.recoveredRows
         || |r.footer.groups| != plan.recoveredUnits || r.validBodyLen > |data| then None
      else
        match Format4.AppendFooter(crc, data[..r.validBodyLen], r.footer)
        case None => None
        case Some(output) => if Check4.Validate(crc, output).None? then None else Some(output)
  }

  /** `execute`: None when the plan does not belong to the data, or the result does not pass its validation. */
  function Execute(crc: Checksum, digest: Digest, data: seq<byte>, plan: Plan): Option<seq<byte>> {
    if |data| != plan.sourceLen || digest(data) != plan.sourceDigest then None
    else if Detect(data) != Some(plan.format) then None
    else if plan.action == Nothing then Some(data)
    else
      match plan.format
      case V2 => ExecuteCmp2(crc, data, plan)
      case V4 => ExecuteCmp4(crc, data, plan)
      case _ => None
  }

  // ----- CMP2 -----

  lemma {:induction false} DetectStream(data: seq<byte>)
    requires Stream.HeaderOk(data)
    ensures Detect(data) == Some(V2)
  {
    assert Magic(0x43, 0x4D, 0x50, 0x32)[3] != Magic(0x43, 0x4D, 0x50, 0x31)[3];
  }

  /** What a recoverable CMP2 buffer begins with. */
  lemma {:induction false} RecoverablePrefix(crc: Checksum, data: seq<byte>, r: Log.AppendRecovery,
                                             bs: seq<Stream.Block>)
    requires |data| < U64_LIMIT && Stream.HeaderOk(data) && Log.Recover(crc, data) == Some(r)
    requires bs == Log.ScanFrames(crc, data, Stream.STREAM_HEADER_LEN, 0, 0).blocks
    ensures r == Log.Recovered(crc, bs, |data|) && Stream.Chain(bs, 0, 0) && |bs| <= MAX_STREAM_BLOCKS
    ensures Stream.TotalRaw(bs) < U64_LIMIT
    ensures |Stream.StreamBytes(crc, bs)| <= |data| && data[..|Stream.StreamBytes(crc, bs)|] == Stream.StreamBytes(crc, bs)
  {
    hide Log.Recover, Log.ScanFrames, Stream.HeaderOk, Stream.BlocksBytes, Stream.Index, Stream.Chain;
    hide Stream.TotalRaw, Stream.StreamHeader, At;
    Log.RecoveryIsMaximal(crc, data);
    Log.ScannedPrefix(crc, data);
    Log.RecoveredMeansNoOverflow(crc, data);
    Log.ScanDecides(crc, data, bs);
    Stream.HeaderOkIff(data);
    AtConcat(data, 0, Stream.StreamHeader(), Stream.BlocksBytes(crc, bs));
    PrefixIs(data, Stream.StreamBytes(crc, bs));
  }

  lemma {:induction false} PrefixIs(data: seq<byte>, part: seq<byte>)
    requires At(data, 0, part)
    ensures |part| <= |data| && data[..|part|] == part
  {
    assert data[0..|part|] == data[..|part|];
  }

  /** A sealed stream needs no repair. */
  lemma {:induction false} SealedPlan(crc: Checksum, digest: Digest, bs: seq<Stream.Block>)
    requires Stream.Chain(bs, 0, 0) && |bs| <= MAX_STREAM_BLOCKS && Stream.TotalRaw(bs) < U64_LIMIT
    requires |Writer.SealedBytes(crc, bs)| < U64_LIMIT
    ensures var out := Writer.SealedBytes(crc, bs);
            && Reader.Inspect(crc, out).Some? && Reader.Inspect(crc, out).value.footer.Some?
            && MakePlan(crc, digest, out) == Some(NoOpPlan(crc, digest, V2, out, |bs|, Stream.TotalRows(bs)))
  {
    hide Stream.HeaderOk, Stream.Chain, Stream.BlocksBytes, Stream.Index, Stream.TotalRaw, Stream.TotalRows;
    hide Reader.ScanFrom, Reader.Inspect, Writer.SealedBytes, Detect;
    var out := Writer.SealedBytes(crc, bs);
    Reader.SealedIff(crc, out, bs);
    Reader.InspectDecides(crc, out, bs, Reader.StepSealed);
    DetectStream(out);
  }

  /** The bytes a repair of `data` by `plan` writes, before they are validated once more. */
  ghost function Output(crc: Checksum, data: seq<byte>, plan: Plan): seq<byte> {
    if plan.action == Nothing || plan.recoverableLen > |data| then data
    else if plan.format == V2 then
      data[..plan.recoverableLen] + (match Log.Recover(crc, data) case None => [] case Some(r) => Stream.IndexFooter(r.blocks))
    else
      match Groups.Recover(crc, data)
      case None => []
      case Some(r) =>
        match Format4.AppendFooter(crc, data[..plan.recoverableLen], r.footer) case None => [] case Some(out) => out
  }

  /** The result of a repair: it keeps the recoverable prefix, and planning it again finds nothing to do. */
  ghost predicate Repaired(crc: Checksum, digest: Digest, data: seq<byte>, plan: Plan, out: seq<byte>) {
    && plan.recoverableLen <= |data| && plan.recoverableLen <= |out|
    && (plan.action == Nothing ==> out == data)
    && out[..plan.recoverableLen] == data[..plan.recoverableLen]
    && MakePlan(crc, digest, out) == Some(NoOpPlan(crc, digest, plan.format, out, plan.recoveredUnits, plan.recoveredRows))
  }

  lemma {:induction false} Cmp2Repairs(crc: Checksum, digest: Digest, data: seq<byte>, plan: Plan)
    requires |data| < U64_LIMIT && Detect(data) == Some(V2) && PlanCmp2(crc, digest, data) == Some(plan)
    requires |Output(crc, data, plan)| < U64_LIMIT
    ensures Execute(crc, digest, data, plan) == Some(Output(crc, data, plan))
    ensures Repaired(crc, digest, data, plan, Output(crc, data, plan))
  {
    hide Stream.HeaderOk, Stream.Chain, Stream.Index, Stream.TotalRaw, Stream.TotalRows, Stream.StreamBytes;
    hide Stream.BlocksBytes;
    hide Reader.Inspect, Log.Recover, Log.ScanFrames, Detect, Stream.IndexFooter;
    if plan.action != Nothing {
      var r := Log.Recover(crc, data).value;
      RecoveredHeader(crc, data, r);
      var bs := Log.ScanFrames(crc, data, Stream.STREAM_HEADER_LEN, 0, 0).blocks;
      RecoverablePrefix(crc, data, r, bs);
      var out := Output(crc, data, plan);
      assert out == Writer.SealedBytes(crc, bs);
      SealedPlan(crc, digest, bs);
      assert out[..plan.recoverableLen] == data[..plan.recoverableLen];
    }
  }

  lemma {:induction false} RecoveredHeader(crc: Checksum, data: seq<byte>, r: Log.AppendRecovery)
    requires Log.Recover(crc, data) == Some(r) && r.validLen > 0
    ensures Stream.HeaderOk(data)
  {
    hide Log.ScanFrames, Stream.Index;
  }

  // ----- CMP4 -----

  lemma {:induction false} DetectQueryable(data: seq<byte>)
    requires Format4.HeaderOk(data)
    ensures Detect(data) == Some(V4)
  {
    var m := Magic(0x43, 0x4D, 0x50, 0x34);
    assert m[3] != Magic(0x43, 0x4D, 0x50, 0x31)[3] && m[3] != Magic(0x43, 0x4D, 0x50, 0x32)[3] && m[3] != Magic(0x43, 0x4D, 0x50, 0x33)[3];
  }

  /** What a recoverable CMP4 buffer begins with. */
  lemma {:induction false} RecoverableGroups(crc: Checksum, data: seq<byte>) returns (gs: seq<RowGroups.RowGroup>)
    requires |data| < U64_LIMIT && Groups.Recover(crc, data).Some?
    ensures Groups.Numbered(gs, 0, 0) && Groups.AllOk(gs) && Groups.RowsOf(gs) < U64_LIMIT
    ensures var found := Groups.RecoverFrom(crc, data, Format4.HEADER_LEN, 0, 0);
            found.Some? && found.value.0 == gs
    ensures var prefix := Format4.HeaderBytes() + Groups.BodyOf(crc, gs);
            && Groups.Recover(crc, data).value.validBodyLen == |prefix| <= |data|
            && Groups.Recover(crc, data).value.footer == Groups.FooterOf(gs)
            && data[..|prefix|] == prefix && Format4.HeaderOk(data)
  {
    hide Groups.RecoverFrom, Groups.Numbered, Groups.AllOk, Groups.BodyOf, Format4.HeaderOk, Format4.HeaderBytes;
    hide RowGroups.ReadGroup, At, Groups.EntriesAll;
    gs := Groups.RecoverFrom(crc, data, Format4.HEADER_LEN, 0, 0).value.0;
    var end := Groups.RecoverFrom(crc, data, Format4.HEADER_LEN, 0, 0).value.1;
    Groups.HeaderInside(data);
    Groups.RecoverIff(crc, data, Format4.HEADER_LEN, 0, 0, gs, end);
    Format4.HeaderOkIff(data);
    AtConcat(data, 0, Format4.HeaderBytes(), Groups.BodyOf(crc, gs));
    PrefixIs(data, Format4.HeaderBytes() + Groups.BodyOf(crc, gs));
  }

  lemma {:induction false} AppendedExtends(crc: Checksum, prefix: seq<byte>, f: Format4.Footer, out: seq<byte>)
    requires Format4.AppendFooter(crc, prefix, f) == Some(out)
    ensures |prefix| <= |out| && out[..|prefix|] == prefix
  {
    hide Format4.IndexValid, Format4.Encodable, Format4.FooterBody;
  }

  /**
    A CMP4 repair succeeds exactly when the recovered groups are no more than the readers accept; then its result
    keeps the prefix and needs no further repair.
  */
  lemma {:induction false} Cmp4Repairs(crc: Checksum, digest: Digest, data: seq<byte>, plan: Plan)
    requires |data| < U64_LIMIT && Detect(data) == Some(V4) && PlanCmp4(crc, digest, data) == Some(plan)
    requires |Output(crc, data, plan)| < U64_LIMIT
    ensures Execute(crc, digest, data, plan)
         == if plan.action == Nothing || plan.recoveredUnits <= MAX_COLLECTION_ENTRIES then Some(Output(crc, data, plan)) else None
    ensures plan.action == Nothing || plan.recoveredUnits <= MAX_COLLECTION_ENTRIES ==>
              Repaired(crc, digest, data, plan, Output(crc, data, plan))
  {
    hide Groups.Recover, Groups.Numbered, Groups.AllOk, Groups.BodyOf, Groups.RowsOf, Groups.EntriesAll;
    hide Format4.HeaderOk, Format4.HeaderBytes;
    hide Format4.AppendFooter, Format4.FooterTyped, Check4.Validate, Detect;
    if plan.action != Nothing {
      var gs := RecoverableGroups(crc, data);
      var prefix := Format4.HeaderBytes() + Groups.BodyOf(crc, gs);
      Check4.GroupsMakeFile(crc, gs, prefix);
      var out := Format4.AppendFooter(crc, prefix, Groups.FooterOf(gs)).value;
      AppendedExtends(crc, prefix, Groups.FooterOf(gs), out);
      if |gs| <= MAX_COLLECTION_ENTRIES {
        Check4.FileValidates(crc, gs, out);
        Groups.FileParts(crc, gs, out);
        DetectQueryable(out);
      } else {
        Format4.TooManyGroups(crc, prefix, Groups.FooterOf(gs), out);
        Check4.NoFooter(crc, out);
      }
    }
  }

  // ----- both formats -----

  /** Only a CMP4 file can hold more row groups than its readers accept once they have an index. */
  predicate Readable(plan: Plan) {
    plan.format == V4 && plan.action != Nothing ==> plan.recoveredUnits <= MAX_COLLECTION_ENTRIES
  }

  /**
    Repair is sound and idempotent: executing a plan on the bytes it was made for gives a buffer that keeps the
    recoverable prefix (the whole file when there was nothing to do); planning that buffer again finds nothing to
    do, with the same units and rows, and executing that plan changes nothing. It fails exactly when the repaired file
    would have more row groups than the readers accept.
  */
  lemma {:induction false} RepairIsSound(crc: Checksum, digest: Digest, data: seq<byte>, plan: Plan)
    requires |data| < U64_LIMIT && MakePlan(crc, digest, data) == Some(plan) && |Output(crc, data, plan)| < U64_LIMIT
    ensures Execute(crc, digest, data, plan).Some? <==> Readable(plan)
    ensures Readable(plan) ==>
              var out := Execute(crc, digest, data, plan).value;
              && Repaired(crc, digest, data, plan, out)
              && Execute(crc, digest, out, MakePlan(crc, digest, out).value) == Some(out)
  {
    hide PlanCmp2, PlanCmp4, Output, Detect, ExecuteCmp2, ExecuteCmp4;
    PlanFormat(crc, digest, data, plan);
    if plan.format == V2 {
      Cmp2Repairs(crc, digest, data, plan);
    } else {
      Cmp4Repairs(crc, digest, data, plan);
    }
    if Readable(plan) {
      var out := Output(crc, data, plan);
      PlanFormat(crc, digest, out, MakePlan(crc, digest, out).value);
    }
  }

  lemma {:induction false} PlanFormat(crc: Checksum, digest: Digest, data: seq<byte>, plan: Plan)
    requires MakePlan(crc, digest, data) == Some(plan)
    ensures Detect(data) == Some(plan.format) && (plan.format == V2 || plan.format == V4)
    ensures plan.format == V2 ==> PlanCmp2(crc, digest, data) == Some(plan)
    ensures plan.format == V4 ==> PlanCmp4(crc, digest, data) == Some(plan)
  {
    hide Reader.Inspect, Log.Recover, Check4.Validate, Groups.Recover, Detect;
  }

  /** A plan is executed on exactly the file it was made for, as far as the digest tells files apart. */
  lemma {:induction false} StalePlan(crc: Checksum, digest: Digest, data: seq<byte>, other: seq<byte>, plan: Plan)
    requires |data| < U64_LIMIT && MakePlan(crc, digest, data) == Some(plan) && |Output(crc, data, plan)| < U64_LIMIT
    requires digest(other) == digest(data) ==> other == data
    ensures Execute(crc, digest, other, plan).Some? <==> other == data && Readable(plan)
  {
    RepairIsSound(crc, digest, data, plan);
    hide Reader.Inspect, Log.Recover, Check4.Validate, Groups.Recover, Detect, ExecuteCmp2, ExecuteCmp4, Output;
    PlanFormat(crc, digest, data, plan);
  }

  // ----- what a plan says -----

  /** A sealed stream of these blocks, with raw sizes that add up within 64 bits. */
  ghost predicate SealedStream(crc: Checksum, data: seq<byte>, bs: seq<Stream.Block>) {
    && data == Writer.SealedBytes(crc, bs) && Stream.Chain(bs, 0, 0) && |bs| <= MAX_STREAM_BLOCKS
    && Stream.TotalRaw(bs) < U64_LIMIT
  }

  ghost predicate Begins(data: seq<byte>, part: seq<byte>) {
    |part| <= |data| && data[..|part|] == part
  }

  /** The data begin with the stream of these blocks, and with that of no longer chain. */
  ghost predicate LongestStream(crc: Checksum, data: seq<byte>, bs: seq<Stream.Block>) {
    && Begins(data, Stream.StreamBytes(crc, bs)) && Stream.Chain(bs, 0, 0) && |bs| <= MAX_STREAM_BLOCKS
    && forall cs :: Begins(data, Stream.StreamBytes(crc, cs)) && Stream.Chain(cs, 0, 0) && |cs| <= MAX_STREAM_BLOCKS ==> cs <= bs
  }

  /** What every plan records of its source. */
  ghost predicate PlanOf(crc: Checksum, digest: Digest, data: seq<byte>, plan: Plan, format: Format) {
    && plan.format == format && plan.sourceLen == |data| && plan.sourceChecksum == crc(data)
    && plan.sourceDigest == digest(data) && plan.discardedBytes + plan.recoverableLen == |data|
  }

  lemma {:induction false} BeginsIff(crc: Checksum, data: seq<byte>, bs: seq<Stream.Block>)
    ensures Begins(data, Stream.StreamBytes(crc, bs)) <==> Stream.HeaderOk(data) && Log.Holds(crc, data, bs)
  {
    hide Stream.HeaderOk, Stream.BlocksBytes, Stream.StreamHeader;
    Stream.HeaderOkIff(data);
    var part := Stream.StreamBytes(crc, bs);
    AtConcat(data, 0, Stream.StreamHeader(), Stream.BlocksBytes(crc, bs));
    assert |part| <= |data| ==> data[0..|part|] == data[..|part|];
  }

  lemma {:induction false} RecoveredIsLongest(crc: Checksum, data: seq<byte>) returns (bs: seq<Stream.Block>)
    requires |data| < U64_LIMIT && Stream.HeaderOk(data) && Log.Recover(crc, data).Some?
    ensures Log.Recover(crc, data) == Some(Log.Recovered(crc, bs, |data|)) && LongestStream(crc, data, bs)
    ensures Stream.TotalRaw(bs) < U64_LIMIT
  {
    hide Log.Recover, Log.ScanFrames, Stream.HeaderOk, Stream.StreamBytes, Stream.Index, Stream.Chain, Begins;
    hide Log.Holds;
    hide Stream.TotalRaw, Log.Recovered;
    bs := Log.ScanFrames(crc, data, Stream.STREAM_HEADER_LEN, 0, 0).blocks;
    RecoverablePrefix(crc, data, Log.Recover(crc, data).value, bs);
    Log.RecoveryIsMaximal(crc, data);
    BeginsIff(crc, data, bs);
    forall cs | Begins(data, Stream.StreamBytes(crc, cs)) && Stream.Chain(cs, 0, 0) && |cs| <= MAX_STREAM_BLOCKS
      ensures cs <= bs
    {
      BeginsIff(crc, data, cs);
    }
  }

  /** The blocks of a sealed stream are the longest stream it begins with. */
  lemma {:induction false} SealedIsLongest(crc: Checksum, data: seq<byte>, cs: seq<Stream.Block>, bs: seq<Stream.Block>)
    requires |data| < U64_LIMIT && SealedStream(crc, data, cs) && LongestStream(crc, data, bs)
    requires Log.Recover(crc, data) == Some(Log.Recovered(crc, bs, |data|))
    ensures cs == bs && |Stream.StreamBytes(crc, bs)| < |data|
  {
    hide Log.Recover, Stream.StreamBytes, Stream.Chain, Stream.IndexFooter, Stream.TotalRaw, Stream.TotalRows;
    hide Stream.BlocksBytes, Stream.MetadataOf, Stream.Index;
    Reader.SealedRecovers(crc, cs);
    var part := Stream.StreamBytes(crc, cs);
    assert data[..|part|] == part;
    assert Begins(data, part);
  }

  /** A sealed stream is inspected with its footer. */
  lemma {:induction false} InspectedIsSealed(crc: Checksum, data: seq<byte>) returns (cs: seq<Stream.Block>)
    requires |data| < U64_LIMIT && Reader.Inspect(crc, data).Some? && Reader.Inspect(crc, data).value.footer.Some?
    ensures SealedStream(crc, data, cs) && Stream.HeaderOk(data)
    ensures Reader.Inspect(crc, data).value.blocks == Stream.Index(crc, cs, Stream.STREAM_HEADER_LEN)
    ensures Reader.Inspect(crc, data).value.totalRows == Stream.TotalRows(cs)
  {
    cs := Reader.ScanFrom(crc, data, []).0;
    var end := Reader.ScanFrom(crc, data, []).1;
    InspectedEnd(crc, data);
    hide Stream.HeaderOk, Stream.Chain, Stream.BlocksBytes, Stream.Index, Stream.TotalRaw, Stream.TotalRows;
    hide Reader.ScanFrom, Reader.Inspect, Writer.SealedBytes;
    Reader.SealedIff(crc, data, cs);
    Reader.InspectDecides(crc, data, cs, end);
  }

  lemma {:induction false} InspectedEnd(crc: Checksum, data: seq<byte>)
    requires Reader.Inspect(crc, data).Some? && Reader.Inspect(crc, data).value.footer.Some?
    ensures Stream.HeaderOk(data) && Reader.ScanFrom(crc, data, []).1 == Reader.StepSealed
  {
    hide Stream.HeaderOk, Reader.ScanFrom, Stream.Index;
  }

  /** A CMP2 buffer can be repaired exactly when its header is valid and its blocks add up within 64 bits. */
  lemma {:induction false} Cmp2PlanExists(crc: Checksum, digest: Digest, data: seq<byte>)
    requires |data| < U64_LIMIT
    ensures PlanCmp2(crc, digest, data).Some? <==> Stream.HeaderOk(data) && Log.Recover(crc, data).Some?
  {
    hide Log.Recover, Stream.HeaderOk, Reader.Inspect, Stream.StreamBytes, Stream.Chain, Stream.Index, Stream.TotalRaw;
    hide Writer.SealedBytes, LongestStream, Stream.TotalRows, Stream.BlocksBytes;
    var inspect := Reader.Inspect(crc, data);
    if inspect.Some? && inspect.value.footer.Some? {
      var cs := InspectedIsSealed(crc, data);
      Reader.SealedRecovers(crc, cs);
    } else if Log.Recover(crc, data).Some? {
      if Stream.HeaderOk(data) {
        var bs := RecoveredIsLongest(crc, data);
        StreamLength(crc, bs);
      } else {
        NothingRecovered(crc, data);
      }
    }
  }

  lemma {:induction false} StreamLength(crc: Checksum, bs: seq<Stream.Block>)
    ensures |Stream.StreamBytes(crc, bs)| >= 10
  {
  }

  lemma {:induction false} NothingRecovered(crc: Checksum, data: seq<byte>)
    requires !Stream.HeaderOk(data)
    ensures Log.Recover(crc, data).value.validLen == 0
  {
    hide Stream.HeaderOk;
  }

  /**
    What a CMP2 plan says and does. `bs` is the longest chain of blocks whose stream the buffer begins with. Nothing is to
    be done exactly for the sealed stream of these blocks, the footer alone is missing exactly when nothing stands behind
    them, and anything else behind them is the discarded tail. The result is their sealed stream in each case.
  */
  lemma {:induction false} Cmp2PlanIs(crc: Checksum, digest: Digest, data: seq<byte>, plan: Plan)
    returns (bs: seq<Stream.Block>)
    requires |data| < U64_LIMIT && PlanCmp2(crc, digest, data) == Some(plan)
    ensures PlanOf(crc, digest, data, plan, V2)
    ensures LongestStream(crc, data, bs) && Stream.TotalRaw(bs) < U64_LIMIT
    ensures plan.recoveredUnits == |bs| && plan.recoveredRows == Stream.TotalRows(bs)
    ensures plan.action == Nothing <==> SealedStream(crc, data, bs)
    ensures plan.action == Nothing <==> exists cs :: SealedStream(crc, data, cs)
    ensures plan.action == RebuildFooter <==> data == Stream.StreamBytes(crc, bs)
    ensures plan.recoverableLen == if plan.action == Nothing then |data| else |Stream.StreamBytes(crc, bs)|
    ensures |Writer.SealedBytes(crc, bs)| < U64_LIMIT ==> Execute(crc, digest, data, plan) == Some(Writer.SealedBytes(crc, bs))
  {
    hide Log.Recover, Stream.HeaderOk, Reader.Inspect, Stream.StreamBytes, Stream.Chain, Stream.TotalRaw;
    hide Writer.SealedBytes;
    hide LongestStream, Stream.TotalRows, Stream.BlocksBytes, Detect, Execute, Stream.MetadataOf, SealedStream;
    Cmp2PlanExists(crc, digest, data);
    DetectStream(data);
    bs := RecoveredIsLongest(crc, data);
    hide Stream.Index;
    var inspect := Reader.Inspect(crc, data);
    if inspect.Some? && inspect.value.footer.Some? {
      var cs := InspectedIsSealed(crc, data);
      SealedIsLongest(crc, data, cs, bs);
    } else {
      forall cs ensures !SealedStream(crc, data, cs) {
        if SealedStream(crc, data, cs) {
          SealedStreamPlan(crc, digest, data, cs);
        }
      }
      StreamOnly(crc, data, bs);
    }
    if |Writer.SealedBytes(crc, bs)| < U64_LIMIT {
      Cmp2Result(crc, digest, data, plan, bs);
    }
  }

  lemma {:induction false} SealedStreamPlan(crc: Checksum, digest: Digest, data: seq<byte>, cs: seq<Stream.Block>)
    requires |data| < U64_LIMIT && SealedStream(crc, data, cs)
    ensures Reader.Inspect(crc, data).Some? && Reader.Inspect(crc, data).value.footer.Some?
  {
    hide Stream.Chain, Stream.TotalRaw, Writer.SealedBytes, Reader.Inspect;
    SealedPlan(crc, digest, cs);
  }

  lemma {:induction false} StreamOnly(crc: Checksum, data: seq<byte>, bs: seq<Stream.Block>)
    requires LongestStream(crc, data, bs)
    ensures |Stream.StreamBytes(crc, bs)| <= |data|
    ensures data == Stream.StreamBytes(crc, bs) <==> |data| == |Stream.StreamBytes(crc, bs)|
  {
    hide Stream.StreamBytes, Stream.Chain;
    assert data[..|data|] == data;
  }

  lemma {:induction false} Cmp2Result(crc: Checksum, digest: Digest, data: seq<byte>, plan: Plan, bs: seq<Stream.Block>)
    requires |data| < U64_LIMIT && Detect(data) == Some(V2) && PlanCmp2(crc, digest, data) == Some(plan)
    requires LongestStream(crc, data, bs) && Log.Recover(crc, data) == Some(Log.Recovered(crc, bs, |data|))
    requires plan.action == Nothing ==> SealedStream(crc, data, bs)
    requires |Writer.SealedBytes(crc, bs)| < U64_LIMIT
    ensures Execute(crc, digest, data, plan) == Some(Writer.SealedBytes(crc, bs))
  {
    hide Log.Recover, Stream.HeaderOk, Reader.Inspect, Stream.StreamBytes, Stream.Chain, Stream.TotalRaw, Detect;
    hide Execute;
    hide Stream.TotalRows, Stream.BlocksBytes, Stream.IndexFooter, Stream.Index, Repaired;
    assert Output(crc, data, plan) == Writer.SealedBytes(crc, bs);
    Cmp2Repairs(crc, digest, data, plan);
  }

  /** The header and these groups. */
  function RunBytes(crc: Checksum, gs: seq<RowGroups.RowGroup>): seq<byte> {
    Format4.HeaderBytes() + Groups.BodyOf(crc, gs)
  }

  /** The data begin with the header and these well-formed, consecutively numbered groups, and with no longer run. */
  ghost predicate LongestRun(crc: Checksum, data: seq<byte>, gs: seq<RowGroups.RowGroup>) {
    && Begins(data, RunBytes(crc, gs)) && Groups.Numbered(gs, 0, 0) && Groups.AllOk(gs) && Groups.RowsOf(gs) < U64_LIMIT
    && forall hs :: Begins(data, RunBytes(crc, hs)) && Groups.Numbered(hs, 0, 0) && Groups.AllOk(hs) ==> hs <= gs
  }

  lemma {:induction false} RecoveredIsLongestRun(crc: Checksum, data: seq<byte>) returns (gs: seq<RowGroups.RowGroup>)
    requires |data| < U64_LIMIT && Groups.Recover(crc, data).Some?
    ensures LongestRun(crc, data, gs) && Format4.HeaderOk(data)
    ensures Groups.Recover(crc, data) == Some(Groups.FileRecovery(|RunBytes(crc, gs)|, Groups.FooterOf(gs), |RunBytes(crc, gs)| < |data|))
  {
    hide Groups.RecoverFrom, Groups.Numbered, Groups.AllOk, Groups.BodyOf, Format4.HeaderOk, Format4.HeaderBytes;
    hide RowGroups.ReadGroup, At, Groups.EntriesAll, Groups.RowsOf;
    gs := RecoverableGroups(crc, data);
    var end := Groups.RecoverFrom(crc, data, Format4.HEADER_LEN, 0, 0).value.1;
    forall hs | Begins(data, RunBytes(crc, hs)) && Groups.Numbered(hs, 0, 0) && Groups.AllOk(hs) ensures hs <= gs {
      RunStands(crc, data, hs);
      Groups.RunIsPrefix(crc, data, Format4.HEADER_LEN, 0, 0, hs, gs, end);
    }
  }

  lemma {:induction false} RunStands(crc: Checksum, data: seq<byte>, hs: seq<RowGroups.RowGroup>)
    requires Begins(data, RunBytes(crc, hs))
    ensures At(data, Format4.HEADER_LEN, Groups.BodyOf(crc, hs))
  {
    hide Groups.BodyOf;
    var run := RunBytes(crc, hs);
    assert data[0..|run|] == data[..|run|];
    AtConcat(data, 0, Format4.HeaderBytes(), Groups.BodyOf(crc, hs));
  }

  /** A CMP4 buffer can be repaired exactly when it is a file already, or its header is valid and its rows add up. */
  lemma {:induction false} Cmp4PlanExists(crc: Checksum, digest: Digest, data: seq<byte>)
    requires |data| < U64_LIMIT
    ensures PlanCmp4(crc, digest, data).Some? <==>
            (exists f, parts :: Check4.ValidFile(crc, data, f, parts)) || Groups.Recover(crc, data).Some?
  {
    hide Check4.Validate, Groups.Recover, Check4.ValidFile;
    if Groups.Recover(crc, data).Some? {
      var gs := RecoveredIsLongestRun(crc, data);
    }
    if Check4.Validate(crc, data).Some? {
      var parts := Check4.ValidatedParts(crc, data, Check4.Validate(crc, data).value);
    }
    if f, parts :| Check4.ValidFile(crc, data, f, parts) {
      Check4.PartsValidate(crc, data, f, parts);
    }
  }

  /**
    What a CMP4 plan says and does. Nothing is to be done exactly for a valid file. Otherwise `gs` is the longest run of
    row groups that the buffer begins with; the footer alone is missing exactly when nothing stands behind them, and
    anything else behind them is the discarded tail. The result is the file of these groups, if they are no more than the
    readers accept.
  */
  lemma {:induction false} Cmp4PlanIs(crc: Checksum, digest: Digest, data: seq<byte>, plan: Plan)
    returns (gs: seq<RowGroups.RowGroup>, f: Format4.Footer, parts: seq<seq<byte>>)
    requires |data| < U64_LIMIT && Detect(data) == Some(V4) && PlanCmp4(crc, digest, data) == Some(plan)
    ensures PlanOf(crc, digest, data, plan, V4)
    ensures plan.action == Nothing <==> exists f, parts :: Check4.ValidFile(crc, data, f, parts)
    ensures plan.action == Nothing ==>
              && Check4.ValidFile(crc, data, f, parts) && plan.recoverableLen == |data|
              && plan.recoveredUnits == |f.groups| && plan.recoveredRows == f.totalRows
    ensures plan.action != Nothing ==>
              && LongestRun(crc, data, gs) && plan.recoverableLen == |RunBytes(crc, gs)|
              && plan.recoveredUnits == |gs| && plan.recoveredRows == Groups.RowsOf(gs)
              && (plan.action == RebuildFooter <==> data == RunBytes(crc, gs))
    ensures plan.action == Nothing ==> Execute(crc, digest, data, plan) == Some(data)
    ensures plan.action != Nothing ==>
              var out := Format4.AppendFooter(crc, RunBytes(crc, gs), Groups.FooterOf(gs));
              && out.Some?
              && (|out.value| < U64_LIMIT ==>
                    && Groups.FileOf(crc, gs, out.value)
                    && Execute(crc, digest, data, plan) == if |gs| <= MAX_COLLECTION_ENTRIES then out else None)
  {
    hide Check4.Validate, Groups.Recover, Check4.ValidFile, LongestRun, Format4.AppendFooter, Detect, Execute;
    hide Groups.RowsOf, Groups.EntriesAll, RunBytes;
    gs, parts := [], [];
    Cmp4PlanExists(crc, digest, data);
    if Check4.Validate(crc, data).Some? {
      f := Check4.Validate(crc, data).value;
      parts := Check4.ValidatedParts(crc, data, f);
      KeepsValid(crc, digest, data, plan);
    } else {
      f := Format4.Footer(0, []);
      NotValid(crc, data);
      gs := RecoveredIsLongestRun(crc, data);
      RunOnly(crc, data, gs);
      Cmp4Result(crc, digest, data, plan, gs);
    }
  }

  lemma {:induction false} KeepsValid(crc: Checksum, digest: Digest, data: seq<byte>, plan: Plan)
    requires Detect(data) == Some(V4) && PlanCmp4(crc, digest, data) == Some(plan) && plan.action == Nothing
    ensures Execute(crc, digest, data, plan) == Some(data)
  {
    hide Check4.Validate, Groups.Recover, Detect;
  }

  lemma {:induction false} NotValid(crc: Checksum, data: seq<byte>)
    requires |data| < U64_LIMIT && Check4.Validate(crc, data).None?
    ensures forall f, parts :: !Check4.ValidFile(crc, data, f, parts)
  {
    hide Check4.Validate, Check4.ValidFile;
    forall f, parts ensures !Check4.ValidFile(crc, data, f, parts) {
      if Check4.ValidFile(crc, data, f, parts) {
        Check4.PartsValidate(crc, data, f, parts);
      }
    }
  }

  lemma {:induction false} RunOnly(crc: Checksum, data: seq<byte>, gs: seq<RowGroups.RowGroup>)
    requires LongestRun(crc, data, gs)
    ensures |RunBytes(crc, gs)| <= |data|
    ensures data == RunBytes(crc, gs) <==> |data| == |RunBytes(crc, gs)|
  {
    hide RunBytes, Groups.Numbered, Groups.AllOk, Groups.RowsOf;
    assert data[..|data|] == data;
  }

  lemma {:induction false} Cmp4Result(crc: Checksum, digest: Digest, data: seq<byte>, plan: Plan,
                                      gs: seq<RowGroups.RowGroup>)
    requires |data| < U64_LIMIT && Detect(data) == Some(V4) && PlanCmp4(crc, digest, data) == Some(plan)
    requires plan.action != Nothing && LongestRun(crc, data, gs)
    requires Groups.Recover(crc, data) == Some(Groups.FileRecovery(|RunBytes(crc, gs)|, Groups.FooterOf(gs), |RunBytes(crc, gs)| < |data|))
    ensures var out := Format4.AppendFooter(crc, RunBytes(crc, gs), Groups.FooterOf(gs));
            && out.Some?
            && (|out.value| < U64_LIMIT ==>
                  && Groups.FileOf(crc, gs, out.value)
                  && Execute(crc, digest, data, plan) == if |gs| <= MAX_COLLECTION_ENTRIES then out else None)
  {
    hide Check4.Validate, Groups.Recover, Format4.AppendFooter, Detect, Execute, Groups.Numbered, Groups.AllOk;
    hide Groups.RowsOf, Groups.EntriesAll, Groups.BodyOf, Format4.HeaderBytes, Repaired, Format4.FooterTyped;
    RunOnly(crc, data, gs);
    Check4.GroupsMakeFile(crc, gs, RunBytes(crc, gs));
    var out := Format4.AppendFooter(crc, RunBytes(crc, gs), Groups.FooterOf(gs)).value;
    assert Output(crc, data, plan) == out;
    if |out| < U64_LIMIT {
      Cmp4Repairs(crc, digest, data, plan);
    }
  }

  lemma {:induction false} HeaderOfPlan(crc: Checksum, digest: Digest, data: seq<byte>)
    requires PlanCmp4(crc, digest, data).Some?
    ensures Format4.HeaderOk(data)
  {
    hide Groups.RecoverFrom, Format4.DecodeFooter, Check4.Contiguous, Format4.HeaderOk;
  }

  /** Planning fails exactly for what is neither a recoverable CMP2 stream nor a valid or recoverable CMP4 file. */
  lemma {:induction false} PlanExists(crc: Checksum, digest: Digest, data: seq<byte>)
    requires |data| < U64_LIMIT
    ensures MakePlan(crc, digest, data).Some? <==>
            || (Stream.HeaderOk(data) && Log.Recover(crc, data).Some?)
            || (exists f, parts :: Check4.ValidFile(crc, data, f, parts))
            || Groups.Recover(crc, data).Some?
  {
    hide PlanCmp2, PlanCmp4, Stream.HeaderOk, Log.Recover, Check4.ValidFile, Groups.Recover, Detect, Format4.HeaderOk;
    Cmp2PlanExists(crc, digest, data);
    Cmp4PlanExists(crc, digest, data);
    if Stream.HeaderOk(data) {
      DetectStream(data);
    }
    if PlanCmp4(crc, digest, data).Some? {
      HeaderOfPlan(crc, digest, data);
      DetectQueryable(data);
    }
  }

  // ----- the operations -----

  /** `plan` with the scanners' own loops. */
  method PlanRepair(crc: Checksum, digest: Digest, data: seq<byte>) returns (r: Option<Plan>)
    requires |data| < U64_LIMIT
    ensures r == MakePlan(crc, digest, data)
  {
    hide Reader.Inspect, Log.Recover, Check4.Validate, Groups.Recover, Detect;
    var format := Detect(data);
    if format == Some(V2) {
      var inspect := BlockReader.InspectJsonlStream(crc, data);
      if inspect.Some? && inspect.value.footer.Some? {
        return Some(NoOpPlan(crc, digest, V2, data, |inspect.value.blocks|, inspect.value.totalRows));
      }
      var recovery := Log.RecoverAppendStream(crc, data);
      if recovery.None? || recovery.value.validLen < 10 {
        return None;
      }
      return RepairPlan(crc, digest, V2, data, recovery.value.validLen, |recovery.value.blocks|, recovery.value.totalRows);
    }
    if format == Some(V4) {
      var footer := Check4.ValidateFile(crc, data);
      if footer.Some? {
        return Some(NoOpPlan(crc, digest, V4, data, |footer.value.groups|, footer.value.totalRows));
      }
      var recovery := Groups.RecoverFilePrefix(crc, data);
      if recovery.None? {
        return None;
      }
      var f := recovery.value.footer;
      return RepairPlan(crc, digest, V4, data, recovery.value.validBodyLen, |f.groups|, f.totalRows);
    }
    return None;
  }

  /** `execute` with the scanners' own loops: the prefix is copied and a footer written behind it. */
  method ExecuteRepair(crc: Checksum, digest: Digest, data: seq<byte>, plan: Plan) returns (r: Option<seq<byte>>)
    requires |data| < U64_LIMIT && |Output(crc, data, plan)| < U64_LIMIT
    ensures r == Execute(crc, digest, data, plan)
  {
    hide Reader.Inspect, Log.Recover, Check4.Validate, Groups.Recover, Detect, Format4.AppendFooter;
    if |data| != plan.sourceLen || digest(data) != plan.sourceDigest {
      return None;
    }
    if Detect(data) != Some(plan.format) {
      return None;
    }
    if plan.action == Nothing {
      return Some(data);
    }
    if plan.format == V2 {
      var recovery := Log.RecoverAppendStream(crc, data);
      if recovery.None? {
        return None;
      }
      var found := recovery.value;
      if found.validLen != plan.recoverableLen || found.totalRows != plan.recoveredRows || |found.blocks| != plan.recoveredUnits {
        return None;
      }
      var output := data[..found.validLen];
      output := output + Stream.IndexFooter(found.blocks);
      var inspect := BlockReader.InspectJsonlStream(crc, output);
      if inspect.None? || inspect.value.footer.None? {
        return None;
      }
      return Some(output);
    }
    if plan.format == V4 {
      var recovery := Groups.RecoverFilePrefix(crc, data);
      if recovery.None? {
        return None;
      }
      var found := recovery.value;
      if found.validBodyLen != plan.recoverableLen || found.footer.totalRows != plan.recoveredRows
         || |found.footer.groups| != plan.recoveredUnits || found.validBodyLen > |data| {
        return None;
      }
      var output := Format4.AppendFooter(crc, data[..found.validBodyLen], found.footer);
      if output.None? {
        return None;
      }
      var checked := Check4.ValidateFile(crc, output.value);
      return if checked.None? then None else output;
    }
    return None;
  }
}
