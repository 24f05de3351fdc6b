/** Recovery of a CMP4 body without its footer (crates/compact-core/src/io/v4.rs). */
module Cmp4Recovery {
  import opened Wrappers
  import opened Bytes
  import opened Limits
  import opened Cmp4Format
  import opened RowGroups
  import opened Columns
  import ColumnFormat

  function BodyOf(crc: Checksum, gs: seq<RowGroup>): seq<byte> {
    if gs == [] then [] else GroupFile(crc, gs[0]) + BodyOf(crc, gs[1..])
  }

  function RowsOf(gs: seq<RowGroup>): nat {
    if gs == [] then 0 else gs[0].rowCount + RowsOf(gs[1..])
  }

  /** Consecutive numbers from `n` and consecutive first rows from `row`. */
  predicate Numbered(gs: seq<RowGroup>, n: nat, row: nat)
    decreases |gs|
  {
    gs == [] || (gs[0].index == n && gs[0].firstRow == row && Numbered(gs[1..], n + 1, row + gs[0].rowCount))
  }

  predicate AllOk(gs: seq<RowGroup>) {
    gs == [] || (GroupOk(gs[0]) && AllOk(gs[1..]))
  }

  /** Where group after group is read; None when the number of rows overflows. */
  function RecoverFrom(crc: Checksum, data: seq<byte>, pos: nat, n: nat, row: nat): Option<(seq<RowGroup>, nat)>
    decreases |data| - pos
  {
    match ReadGroup(crc, data, pos, n, row)
    case None => Some(([], pos))
    case Some((g, next)) =>
      if next <= pos || next > |data| then None
      else if row + g.rowCount >= U64_LIMIT then None
      else
        match RecoverFrom(crc, data, next, n + 1, row + g.rowCount)
        case None => None
        case Some((rest, end)) => Some(([g] + rest, end))
  }

  /** A group that is read lies behind its start and inside the data: the cursor always moves on. */
  lemma {:induction false} ReadGroupProgress(crc: Checksum, data: seq<byte>, pos: nat, n: nat, row: nat)
    requires ReadGroup(crc, data, pos, n, row).Some?
    ensures pos < ReadGroup(crc, data, pos, n, row).value.1 <= |data|
    ensures ReadGroup(crc, data, pos, n, row).value.0.index == n && ReadGroup(crc, data, pos, n, row).value.0.firstRow == row
    ensures ReadGroup(crc, data, pos, n, row).value.0.rowCount < U64_LIMIT
  {
    Pow256Values();
    FieldBound(data, pos + 20, 8);
  }

  function EntriesAll(gs: seq<RowGroup>, pos: nat): (es: seq<GroupEntry>)
    ensures |es| == |gs|
  {
    if gs == [] then [] else [EntryOf(gs[0], pos)] + EntriesAll(gs[1..], pos + |GroupBody(gs[0])| + CHECKSUM_LEN)
  }

  function FooterOf(gs: seq<RowGroup>): Footer { Footer(RowsOf(gs), EntriesAll(gs, HEADER_LEN)) }

  datatype FileRecovery = FileRecovery(validBodyLen: nat, footer: Footer, discardedTail: bool)

  /** `recover_file_prefix`. */
  function Recover(crc: Checksum, data: seq<byte>): Option<FileRecovery> {
    if !HeaderOk(data) then None
    else
      match RecoverFrom(crc, data, HEADER_LEN, 0, 0)
      case None => None
      case Some((gs, end)) => Some(FileRecovery(end, FooterOf(gs), end < |data|))
  }

  // ----- what recovery finds -----

  /** The groups stand in the data from `pos` to `end`, and behind them stands no further one. */
  ghost predicate Found(crc: Checksum, data: seq<byte>, pos: nat, n: nat, row: nat, gs: seq<RowGroup>, end: nat) {
    && Numbered(gs, n, row) && AllOk(gs) && (gs == [] || row + RowsOf(gs) < U64_LIMIT)
    && At(data, pos, BodyOf(crc, gs)) && end == pos + |BodyOf(crc, gs)|
    && ReadGroup(crc, data, end, n + |gs|, row + RowsOf(gs)) == None
  }

  lemma {:induction false} FoundCons(crc: Checksum, data: seq<byte>, pos: nat, n: nat, row: nat, gs: seq<RowGroup>,
                                     end: nat)
    requires gs != []
    ensures Found(crc, data, pos, n, row, gs, end) <==>
            && gs[0].index == n && gs[0].firstRow == row && GroupOk(gs[0]) && row + gs[0].rowCount < U64_LIMIT
            && At(data, pos, GroupFile(crc, gs[0]))
            && Found(crc, data, pos + |GroupFile(crc, gs[0])|, n + 1, row + gs[0].rowCount, gs[1..], end)
  {
    hide At, ReadGroup, GroupFile, GroupOk;
    AtConcat(data, pos, GroupFile(crc, gs[0]), BodyOf(crc, gs[1..]));
  }

  /** Recovery finds exactly the longest run of consecutive well-formed groups behind the header. */
  lemma {:induction false} RecoverIff(crc: Checksum, data: seq<byte>, pos: nat, n: nat, row: nat, gs: seq<RowGroup>,
                                      end: nat)
    requires pos <= |data|
    ensures RecoverFrom(crc, data, pos, n, row) == Some((gs, end)) <==> Found(crc, data, pos, n, row, gs, end)
    decreases |data| - pos, |gs|
  {
    hide At, ReadGroup, GroupFile, GroupOk, Found, BodyOf;
    var read := ReadGroup(crc, data, pos, n, row);
    if read.Some? {
      ReadGroupProgress(crc, data, pos, n, row);
      ReadGroupIff(crc, data, pos, read.value.0, read.value.1);
    }
    if gs == [] {
      FoundNothing(crc, data, pos, n, row, end);
    } else {
      FoundCons(crc, data, pos, n, row, gs, end);
      ReadGroupIff(crc, data, pos, gs[0], pos + |GroupFile(crc, gs[0])|);
      assert gs == [gs[0]] + gs[1..];
      if At(data, pos, GroupFile(crc, gs[0])) {
        AtInside(data, pos, GroupFile(crc, gs[0]));
        RecoverIff(crc, data, pos + |GroupFile(crc, gs[0])|, n + 1, row + gs[0].rowCount, gs[1..], end);
      }
    }
  }

  lemma {:induction false} FoundNothing(crc: Checksum, data: seq<byte>, pos: nat, n: nat, row: nat, end: nat)
    requires pos <= |data|
    ensures Found(crc, data, pos, n, row, [], end) <==> end == pos && ReadGroup(crc, data, pos, n, row) == None
  {
    hide ReadGroup;
  }

  /** Every run of consecutive well-formed groups is a prefix of the one recovery finds. */
  lemma {:induction false} RunIsPrefix(crc: Checksum, data: seq<byte>, pos: nat, n: nat, row: nat, run: seq<RowGroup>,
                                       gs: seq<RowGroup>, end: nat)
    requires RecoverFrom(crc, data, pos, n, row) == Some((gs, end))
    requires Numbered(run, n, row) && AllOk(run) && At(data, pos, BodyOf(crc, run))
    ensures run <= gs
    decreases |run|
  {
    hide At, ReadGroup, GroupFile, GroupOk;
    if run != [] {
      var g, next := run[0], pos + |GroupFile(crc, run[0])|;
      AtConcat(data, pos, GroupFile(crc, g), BodyOf(crc, run[1..]));
      ReadGroupIff(crc, data, pos, g, next);
      assert gs != [] && gs[0] == g;
      RunIsPrefix(crc, data, next, n + 1, row + g.rowCount, run[1..], gs[1..], end);
      assert run == [g] + run[1..] && gs == [g] + gs[1..];
    }
  }

  // ----- the footer is no row group -----

  /** A footer in place of a group would need a number of at least 2^32 to look like one. */
  lemma {:induction false} FooterIsNoGroup(crc: Checksum, data: seq<byte>, pos: nat, total: nat, count: nat)
    requires At(data, pos, Le64(total) + Le64(count)) && total < U64_LIMIT && count < U32_LIMIT
    requires count == 0 ==> total == 0
    ensures ReadGroup(crc, data, pos, count, total) == None
  {
    hide Words, ReadChunks, Le;
    var (a, b) := (Le64(total), Le64(count));
    AtConcat(data, pos, a, b);
    Le64Halves(total);
    Le64Halves(count);
    Le64Halves(0);
    Le32Zero();
    if pos + GROUP_HEADER_LEN <= |data| && data[pos..pos + 4] == GroupMagic() && Field(data, pos + 4, 8) == count {
      Pow256Values();
      AtField(data, pos + 4, 8, count);
      assert a[..4] == data[pos..pos + 4];
      assert data[pos + 4..pos + 12] == b;
      assert data[pos + 8..pos + 16] == b;
      assert b[4..] == data[pos + 8..pos + 12] == b[..4];
      assert Le32(count) == Le32(0);
      Le32Injective(count, 0);
    }
  }

  lemma Le32Zero()
    ensures Le32(0) == [0, 0, 0, 0]
  {
    assert Le(1, 0) == [0] + [];
    assert Le(2, 0) == [0] + Le(1, 0);
    assert Le(3, 0) == [0] + Le(2, 0);
  }

  lemma Le32Injective(x: nat, y: nat)
    requires x < U32_LIMIT && y < U32_LIMIT && Le32(x) == Le32(y)
    ensures x == y
  {
    Pow256Values();
    FromLeOfLe(4, x);
    FromLeOfLe(4, y);
  }

  lemma Le64Halves(x: nat)
    requires x < U64_LIMIT
    ensures Le64(x)[..4] == Le32(x)
    ensures x < U32_LIMIT ==> Le64(x)[4..] == Le32(0)
  {
    LeSplit(8, 4, x);
    Pow256Values();
  }

  lemma {:induction false} LeSplit(n: nat, k: nat, x: nat)
    requires k <= n
    ensures Le(n, x)[..k] == Le(k, x)
    ensures x < Pow256(k) ==> Le(n, x)[k..] == Le(n - k, 0)
    decreases k
  {
    if k > 0 {
      LeSplit(n - 1, k - 1, x / 256);
      assert Le(n, x)[..k] == [x % 256] + Le(n - 1, x / 256)[..k - 1];
      assert Le(n, x)[k..] == Le(n - 1, x / 256)[k - 1..];
    } else {
      assert Le(n, x)[0..] == Le(n, x);
    }
  }

  // ----- cut files -----

  /** How many of the groups from `pos` on end at or before `k`. */
  function Fitting(crc: Checksum, gs: seq<RowGroup>, pos: nat, k: nat): (m: nat)
    ensures m <= |gs|
    decreases |gs|
  {
    if gs == [] || pos + |GroupFile(crc, gs[0])| > k then 0
    else 1 + Fitting(crc, gs[1..], pos + |GroupFile(crc, gs[0])|, k)
  }

  /** A file body followed by something that is not one more group. */
  ghost predicate Ends(crc: Checksum, data: seq<byte>, pos: nat, n: nat, row: nat, gs: seq<RowGroup>) {
    Found(crc, data, pos, n, row, gs, pos + |BodyOf(crc, gs)|) && row + RowsOf(gs) < U64_LIMIT
  }

  /** Cutting a file can only make groups disappear, never appear. */
  lemma {:induction false} ReadGroupOfCut(crc: Checksum, data: seq<byte>, k: nat, pos: nat, n: nat, row: nat)
    requires k <= |data|
    requires ReadGroup(crc, data[..k], pos, n, row).Some?
    ensures ReadGroup(crc, data, pos, n, row) == ReadGroup(crc, data[..k], pos, n, row)
    ensures ReadGroup(crc, data[..k], pos, n, row).value.1 <= k
  {
    hide ReadGroup, At, GroupFile, GroupOk;
    var r := ReadGroup(crc, data[..k], pos, n, row).value;
    ReadGroupProgress(crc, data[..k], pos, n, row);
    ReadGroupIff(crc, data[..k], pos, r.0, r.1);
    AtCut(data, k, pos, GroupFile(crc, r.0));
    ReadGroupIff(crc, data, pos, r.0, r.1);
  }

  lemma {:induction false} EndsCons(crc: Checksum, data: seq<byte>, pos: nat, n: nat, row: nat, gs: seq<RowGroup>)
    requires Ends(crc, data, pos, n, row, gs)
    ensures gs == [] ==> ReadGroup(crc, data, pos, n, row) == None
    ensures gs != [] ==> ReadGroup(crc, data, pos, n, row) == Some((gs[0], pos + |GroupFile(crc, gs[0])|))
    ensures gs != [] ==> At(data, pos, GroupFile(crc, gs[0])) && row + gs[0].rowCount < U64_LIMIT
    ensures gs != [] ==> Ends(crc, data, pos + |GroupFile(crc, gs[0])|, n + 1, row + gs[0].rowCount, gs[1..])
  {
    hide At, ReadGroup, GroupFile, GroupOk;
    if gs != [] {
      FoundCons(crc, data, pos, n, row, gs, pos + |BodyOf(crc, gs)|);
      ReadGroupIff(crc, data, pos, gs[0], pos + |GroupFile(crc, gs[0])|);
    }
  }

  /** A group that is read in a file is read in every cut behind it, and in no shorter one. */
  lemma {:induction false} CutReads(crc: Checksum, data: seq<byte>, k: nat, pos: nat, n: nat, row: nat)
    requires k <= |data|
    ensures ReadGroup(crc, data[..k], pos, n, row)
         == match ReadGroup(crc, data, pos, n, row) case None => None case Some(r) => if r.1 <= k then Some(r) else None
  {
    hide ReadGroup, At, GroupFile, GroupOk;
    if ReadGroup(crc, data[..k], pos, n, row).Some? {
      ReadGroupOfCut(crc, data, k, pos, n, row);
    }
    if ReadGroup(crc, data, pos, n, row).Some? {
      var r := ReadGroup(crc, data, pos, n, row).value;
      ReadGroupProgress(crc, data, pos, n, row);
      ReadGroupIff(crc, data, pos, r.0, r.1);
      if r.1 <= k {
        AtCut(data, k, pos, GroupFile(crc, r.0));
        ReadGroupIff(crc, data[..k], pos, r.0, r.1);
      }
    }
  }

  lemma {:induction false} RecoverOne(crc: Checksum, data: seq<byte>, pos: nat, n: nat, row: nat, g: RowGroup,
                                      next: nat, rest: seq<RowGroup>, end: nat)
    requires ReadGroup(crc, data, pos, n, row) == Some((g, next)) && row + g.rowCount < U64_LIMIT
    requires RecoverFrom(crc, data, next, n + 1, row + g.rowCount) == Some((rest, end))
    ensures RecoverFrom(crc, data, pos, n, row) == Some(([g] + rest, end))
  {
    hide ReadGroup;
    ReadGroupProgress(crc, data, pos, n, row);
  }

  lemma {:induction false} RecoverNone(crc: Checksum, data: seq<byte>, pos: nat, n: nat, row: nat)
    requires ReadGroup(crc, data, pos, n, row) == None
    ensures RecoverFrom(crc, data, pos, n, row) == Some(([], pos)) && BodyOf(crc, []) == []
  {
    hide ReadGroup;
  }

  lemma {:induction false} KeepOne(crc: Checksum, gs: seq<RowGroup>, pos: nat, k: nat)
    requires gs != []
    ensures pos + |GroupFile(crc, gs[0])| > k ==> Fitting(crc, gs, pos, k) == 0 && gs[..0] == []
    ensures pos + |GroupFile(crc, gs[0])| <= k ==>
              var m := Fitting(crc, gs[1..], pos + |GroupFile(crc, gs[0])|, k);
              && Fitting(crc, gs, pos, k) == m + 1 && gs[..m + 1] == [gs[0]] + gs[1..][..m]
              && |BodyOf(crc, gs[..m + 1])| == |GroupFile(crc, gs[0])| + |BodyOf(crc, gs[1..][..m])|
  {
    hide GroupFile;
    if pos + |GroupFile(crc, gs[0])| <= k {
      var m := Fitting(crc, gs[1..], pos + |GroupFile(crc, gs[0])|, k);
      assert gs[..m + 1][1..] == gs[1..][..m];
    }
  }

  lemma {:induction false} RecoverCut(crc: Checksum, data: seq<byte>, k: nat, pos: nat, n: nat, row: nat,
                                      gs: seq<RowGroup>)
    requires pos <= k <= |data| && Ends(crc, data, pos, n, row, gs)
    ensures RecoverFrom(crc, data[..k], pos, n, row)
         == Some((gs[..Fitting(crc, gs, pos, k)], pos + |BodyOf(crc, gs[..Fitting(crc, gs, pos, k)])|))
    decreases |gs|
  {
    hide At, ReadGroup, GroupFile, GroupOk, Ends, RecoverFrom, BodyOf, Fitting;
    EndsCons(crc, data, pos, n, row, gs);
    CutReads(crc, data, k, pos, n, row);
    if gs == [] {
      RecoverNone(crc, data[..k], pos, n, row);
      assert gs[..Fitting(crc, gs, pos, k)] == [];
    } else {
      KeepOne(crc, gs, pos, k);
      var next := pos + |GroupFile(crc, gs[0])|;
      if next > k {
        RecoverNone(crc, data[..k], pos, n, row);
      } else {
        RecoverCut(crc, data, k, next, n + 1, row + gs[0].rowCount, gs[1..]);
        var kept := gs[1..][..Fitting(crc, gs[1..], next, k)];
        RecoverOne(crc, data[..k], pos, n, row, gs[0], next, kept, next + |BodyOf(crc, kept)|);
      }
    }
  }

  // ----- whole files -----

  /** The header, the groups and the footer that indexes them. */
  ghost predicate FileOf(crc: Checksum, gs: seq<RowGroup>, file: seq<byte>) {
    && Numbered(gs, 0, 0) && AllOk(gs) && RowsOf(gs) < U64_LIMIT && |file| < U64_LIMIT
    && AppendFooter(crc, HeaderBytes() + BodyOf(crc, gs), FooterOf(gs)) == Some(file)
  }

  lemma {:induction false} FileParts(crc: Checksum, gs: seq<RowGroup>, file: seq<byte>)
    requires FileOf(crc, gs, file)
    ensures HeaderOk(file) && At(file, HEADER_LEN, BodyOf(crc, gs))
    ensures At(file, HEADER_LEN + |BodyOf(crc, gs)|, Le64(RowsOf(gs)) + Le64(|gs|))
  {
    hide At, GroupFile, IndexValid, Encodable, Trailer, EntriesBytes, Le, EntriesAll, RowsOf, BodyOf, HeaderBytes;
    hide HeaderOk;
    var (h, b, f) := (HeaderBytes(), BodyOf(crc, gs), FooterBody(FooterOf(gs)));
    var tail := f + Trailer(crc, |h + b|, f);
    AtWhole(file);
    AtConcat(file, 0, h + b, tail);
    AtConcat(file, 0, h, b);
    AtConcat(file, |h + b|, f, Trailer(crc, |h + b|, f));
    var (x, y, z) := (Le64(RowsOf(gs)), Le64(|gs|), EntriesBytes(FooterOf(gs).groups));
    assert f == (x + y) + z;
    AtConcat(file, |h + b|, x + y, z);
    HeaderOkIff(file);
  }

  lemma {:induction false} NoRows(gs: seq<RowGroup>)
    requires AllOk(gs)
    ensures gs == [] <==> RowsOf(gs) == 0
  {
    hide ChunksOk;
  }

  /** A written file is found to hold its groups, and its footer is not taken for one more. */
  lemma {:induction false} FileEnds(crc: Checksum, gs: seq<RowGroup>, file: seq<byte>)
    requires FileOf(crc, gs, file) && |gs| < U32_LIMIT
    ensures Ends(crc, file, HEADER_LEN, 0, 0, gs)
  {
    hide At, ReadGroup, GroupOk, BodyOf, AppendFooter, HeaderOk, Le;
    FileParts(crc, gs, file);
    NoRows(gs);
    FooterIsNoGroup(crc, file, HEADER_LEN + |BodyOf(crc, gs)|, RowsOf(gs), |gs|);
  }

  /**
    Recovery of a cut file: whatever the cut at or behind the header, exactly the groups that end by the cut come
    back, with the entries the written footer has for them.
  */
  lemma {:induction false} RecoverCutFile(crc: Checksum, gs: seq<RowGroup>, file: seq<byte>, k: nat)
    requires FileOf(crc, gs, file) && |gs| < U32_LIMIT && HEADER_LEN <= k <= |file|
    ensures var kept := gs[..Fitting(crc, gs, HEADER_LEN, k)];
            var end := HEADER_LEN + |BodyOf(crc, kept)|;
            Recover(crc, file[..k]) == Some(FileRecovery(end, FooterOf(kept), end < k))
    ensures FooterOf(gs[..Fitting(crc, gs, HEADER_LEN, k)]).groups == FooterOf(gs).groups[..Fitting(crc, gs, HEADER_LEN, k)]
  {
    hide At, ReadGroup, GroupOk, BodyOf, AppendFooter, HeaderOk, Ends, FileOf, EntryOf, Fitting;
    FileEnds(crc, gs, file);
    RecoverCut(crc, file, k, HEADER_LEN, 0, 0, gs);
    FileParts(crc, gs, file);
    HeaderCut(file, k);
    EntriesPrefix(gs, HEADER_LEN, Fitting(crc, gs, HEADER_LEN, k));
  }

  lemma {:induction false} HeaderCut(file: seq<byte>, k: nat)
    requires HeaderOk(file) && HEADER_LEN <= k <= |file|
    ensures HeaderOk(file[..k])
  {
    HeaderOkIff(file);
    AtCut(file, k, 0, HeaderBytes());
    HeaderOkIff(file[..k]);
  }

  lemma {:induction false} EntriesPrefix(gs: seq<RowGroup>, pos: nat, m: nat)
    requires m <= |gs|
    ensures EntriesAll(gs[..m], pos) == EntriesAll(gs, pos)[..m]
    decreases m
  {
    hide EntryOf, GroupBody;
    if m > 0 {
      EntriesPrefix(gs[1..], pos + |GroupBody(gs[0])| + CHECKSUM_LEN, m - 1);
      assert gs[..m][1..] == gs[1..][..m - 1];
    }
  }

  /** On the whole file recovery rebuilds the written footer and stops exactly in front of it. */
  lemma {:induction false} RecoverWholeFile(crc: Checksum, gs: seq<RowGroup>, file: seq<byte>)
    requires FileOf(crc, gs, file) && |gs| < U32_LIMIT
    ensures Recover(crc, file) == Some(FileRecovery(HEADER_LEN + |BodyOf(crc, gs)|, FooterOf(gs), true))
  {
    hide At, ReadGroup, GroupOk, BodyOf, HeaderOk, EntryOf, IndexValid, Encodable, FooterBody;
    FileEnds(crc, gs, file);
    FileParts(crc, gs, file);
    RecoverIff(crc, file, HEADER_LEN, 0, 0, gs, HEADER_LEN + |BodyOf(crc, gs)|);
  }

  // ----- the loops -----

  ghost function EntryRead(read: Option<(RowGroup, nat)>, start: nat): Option<(GroupEntry, nat)> {
    match read case None => None case Some((g, next)) => Some((EntryOf(g, start), next))
  }

  /** One column read, or the reason to stop. */
  lemma {:induction false} ReadChunksStep(data: seq<byte>, pos: nat, count: nat, rowCount: nat, taken: seq<Text>,
                                          front: seq<Chunk>)
    requires count > 0
    ensures var read := ReadChunk(data, pos, rowCount);
            PrefixedAt(front, ReadChunks(data, pos, count, rowCount, taken)) ==
            if read.None? || read.value.0.metadata.name in taken then None
            else PrefixedAt(front + [read.value.0], ReadChunks(data, read.value.1, count - 1, rowCount, taken + [read.value.0.metadata.name]))
  {
    hide ReadChunk;
    var read := ReadChunk(data, pos, rowCount);
    if read.Some? && read.value.0.metadata.name !in taken {
      var rest := ReadChunks(data, read.value.1, count - 1, rowCount, taken + [read.value.0.metadata.name]);
      if rest.Some? {
        assert front + ([read.value.0] + rest.value.0) == (front + [read.value.0]) + rest.value.0;
      }
    }
  }

  lemma {:induction false} ReadChunksDone(data: seq<byte>, pos: nat, rowCount: nat, taken: seq<Text>, front: seq<Chunk>)
    ensures PrefixedAt(front, ReadChunks(data, pos, 0, rowCount, taken)) == Some((front, pos))
  {
    PrefixedAtEnd(front, pos);
  }

  lemma {:induction false} EntriesCons(cs: seq<Chunk>, pos: nat)
    requires cs != []
    ensures |ChunksBytes(cs)| == |ChunkBytes(cs[0])| + |ChunksBytes(cs[1..])|
    ensures EntriesOf(cs, pos) == EntriesOf([cs[0]], pos) + EntriesOf(cs[1..], pos + |ChunkBytes(cs[0])|)
  {
    hide ChunkBytes, Meta;
    assert [cs[0]][1..] == [];
  }

  lemma {:induction false} EntriesSnoc(cs: seq<Chunk>, c: Chunk, pos: nat)
    ensures |ChunksBytes(cs + [c])| == |ChunksBytes(cs)| + |ChunkBytes(c)|
    ensures EntriesOf(cs + [c], pos) == EntriesOf(cs, pos) + EntriesOf([c], pos + |ChunksBytes(cs)|)
    decreases |cs|
  {
    EntriesNone(pos);
    hide ChunkBytes, ChunksBytes, EntriesOf;
    EntriesCons(cs + [c], pos);
    if cs == [] {
      assert [] + [c] == [c] && [c][1..] == [];
    } else {
      var (first, next) := (EntriesOf([cs[0]], pos), pos + |ChunkBytes(cs[0])|);
      assert (cs + [c])[0] == cs[0] && (cs + [c])[1..] == cs[1..] + [c];
      EntriesCons(cs, pos);
      EntriesSnoc(cs[1..], c, next);
      var (rest, last) := (EntriesOf(cs[1..], next), EntriesOf([c], pos + |ChunksBytes(cs)|));
      assert first + (rest + last) == (first + rest) + last;
    }
  }

  lemma {:induction false} OneEntry(c: Chunk, pos: nat)
    ensures EntriesOf([c], pos)
         == [ColumnEntry(c.metadata.name, pos + 4, |Meta(c)|, pos + 4 + |Meta(c)|, c.metadata.compressedSize, c.metadata.valueCount,
                         c.metadata.nullCount, c.metadata.statistics)]
  {
    assert [c][1..] == [];
  }

  /** `recover_row_group`: the cursor moves over the columns and the index entry grows with it. */
  method RecoverRowGroup(crc: Checksum, data: seq<byte>, start: nat, index: nat, firstRow: nat)
    returns (r: Option<(GroupEntry, nat)>)
    ensures r == EntryRead(ReadGroup(crc, data, start, index, firstRow), start)
  {
    hide ReadChunk, ReadChunks, PrefixedAt, EntriesOf, ChunksBytes, ChunkBytes, GroupBody, Meta, Field, GroupMagic;
    hide At, ChunkOk;
    if start + GROUP_HEADER_LEN > |data| || data[start..start + 4] != GroupMagic() {
      return None;
    }
    if Field(data, start + 4, 8) != index || Field(data, start + 12, 8) != firstRow {
      return None;
    }
    var rowCount := Field(data, start + 20, 8);
    if rowCount == 0 {
      return None;
    }
    var body := start + GROUP_HEADER_LEN;
    var columnCount := Field(data, start + 36, 4);
    if columnCount > MAX_COLLECTION_ENTRIES || columnCount > (|data| - body) / 4 {
      return None;
    }
    var cursor, columns: seq<ColumnEntry>, names: set<Text> := body, [], {};
    ghost var chunks: seq<Chunk>, taken: seq<Text> := [], [];
    PrefixedAtNothing(ReadChunks(data, body, columnCount, rowCount, []));
    EntriesNone(body);
    for i := 0 to columnCount
      invariant |chunks| == i && cursor == body + |ChunksBytes(chunks)|
      invariant columns == EntriesOf(chunks, body)
      invariant forall n :: n in names <==> n in taken
      invariant ReadChunks(data, body, columnCount, rowCount, [])
             == PrefixedAt(chunks, ReadChunks(data, cursor, columnCount - i, rowCount, taken))
    {
      ReadChunksStep(data, cursor, columnCount - i, rowCount, taken, chunks);
      var entry := RecoverColumn(data, cursor, rowCount);
      if entry.None? {
        return None;
      }
      ghost var c := ReadChunk(data, cursor, rowCount).value.0;
      ReadChunkIff(data, cursor, rowCount, c, ReadChunk(data, cursor, rowCount).value.1);
      OneEntry(c, cursor);
      assert [entry.value.0][0].name == c.metadata.name;
      var name := entry.value.0.name;
      if name in names {
        return None;
      }
      EntriesSnoc(chunks, c, body);
      names := names + {name};
      columns := columns + [entry.value.0];
      taken := taken + [name];
      chunks := chunks + [c];
      cursor := entry.value.1;
    }
    ReadChunksDone(data, cursor, rowCount, taken, chunks);
    if cursor + CHECKSUM_LEN > |data| || crc(data[start..cursor]) != Field(data, cursor, 4) {
      return None;
    }
    ghost var g := RowGroup(index, firstRow, rowCount, Field(data, start + 28, 8), chunks);
    BodyLength(g);
    return Some((GroupEntry(index, firstRow, rowCount, start, cursor + CHECKSUM_LEN - start, columns), cursor + CHECKSUM_LEN));
  }

  lemma {:induction false} BodyLength(g: RowGroup)
    ensures |GroupBody(g)| == GROUP_HEADER_LEN + |ChunksBytes(g.chunks)|
  {
  }

  lemma EntriesNone(pos: nat)
    ensures EntriesOf([], pos) == [] && ChunksBytes([]) == []
  {
  }

  /** The body of the column loop. */
  method RecoverColumn(data: seq<byte>, cursor: nat, rowCount: nat) returns (r: Option<(ColumnEntry, nat)>)
    ensures r.None? <==> ReadChunk(data, cursor, rowCount).None?
    ensures r.Some? ==>
              && r.value.1 == ReadChunk(data, cursor, rowCount).value.1
              && [r.value.0] == EntriesOf([ReadChunk(data, cursor, rowCount).value.0], cursor)
  {
    hide ColumnFormat.Fields, ColumnFormat.Decode, DecodeStatistics, EntriesOf;
    var bytes := ColumnFormat.ReadSized32(data, cursor);
    if bytes.None? {
      return None;
    }
    var (record, payloadOffset) := bytes.value;
    var metadata := ColumnFormat.Decode(record);
    if metadata.None? {
      return None;
    }
    var m := metadata.value;
    if m.valueCount != rowCount || DecodeStatistics(m.statistics).None? {
      return None;
    }
    if payloadOffset + m.compressedSize > |data| {
      return None;
    }
    ColumnFormat.DecodeIff(record, m);
    OneEntry(ReadChunk(data, cursor, rowCount).value.0, cursor);
    return Some((ColumnEntry(m.name, cursor + 4, |record|, payloadOffset, m.compressedSize, m.valueCount, m.nullCount,
                             m.statistics), payloadOffset + m.compressedSize));
  }

  lemma {:induction false} RecoverStep(crc: Checksum, data: seq<byte>, pos: nat, n: nat, row: nat, front: seq<RowGroup>)
    ensures var read := ReadGroup(crc, data, pos, n, row);
            PrefixedAt(front, RecoverFrom(crc, data, pos, n, row)) ==
            if read.None? then Some((front, pos))
            else if row + read.value.0.rowCount >= U64_LIMIT then None
            else PrefixedAt(front + [read.value.0], RecoverFrom(crc, data, read.value.1, n + 1, row + read.value.0.rowCount))
  {
    hide ReadGroup;
    var read := ReadGroup(crc, data, pos, n, row);
    if read.Some? {
      ReadGroupProgress(crc, data, pos, n, row);
      var rest := RecoverFrom(crc, data, read.value.1, n + 1, row + read.value.0.rowCount);
      if rest.Some? {
        assert front + ([read.value.0] + rest.value.0) == (front + [read.value.0]) + rest.value.0;
      }
    } else {
      PrefixedAtEnd(front, pos);
    }
  }

  lemma {:induction false} GroupsSplit(crc: Checksum, gs: seq<RowGroup>, pos: nat)
    requires gs != []
    ensures |BodyOf(crc, gs)| == |GroupFile(crc, gs[0])| + |BodyOf(crc, gs[1..])| && RowsOf(gs) == gs[0].rowCount + RowsOf(gs[1..])
    ensures EntriesAll(gs, pos) == [EntryOf(gs[0], pos)] + EntriesAll(gs[1..], pos + |GroupFile(crc, gs[0])|)
  {
    hide GroupFile, GroupBody, EntryOf;
    var (body, file) := (|GroupBody(gs[0])|, |GroupFile(crc, gs[0])|);
    assert file == body + CHECKSUM_LEN;
    hide *;
    EntriesSplit(gs, pos, file);
    SizesSplit(crc, gs);
  }

  lemma {:induction false} EntriesSplit(gs: seq<RowGroup>, pos: nat, len: nat)
    requires gs != [] && len == |GroupBody(gs[0])| + CHECKSUM_LEN
    ensures EntriesAll(gs, pos) == [EntryOf(gs[0], pos)] + EntriesAll(gs[1..], pos + len)
  {
    hide GroupBody, EntryOf;
    assert pos + len == pos + |GroupBody(gs[0])| + CHECKSUM_LEN;
  }

  lemma {:induction false} SizesSplit(crc: Checksum, gs: seq<RowGroup>)
    requires gs != []
    ensures |BodyOf(crc, gs)| == |GroupFile(crc, gs[0])| + |BodyOf(crc, gs[1..])|
    ensures RowsOf(gs) == gs[0].rowCount + RowsOf(gs[1..])
  {
    hide GroupFile;
  }

  lemma {:induction false} EntriesAllSnoc(crc: Checksum, gs: seq<RowGroup>, g: RowGroup, pos: nat)
    ensures |BodyOf(crc, gs + [g])| == |BodyOf(crc, gs)| + |GroupFile(crc, g)|
    ensures EntriesAll(gs + [g], pos) == EntriesAll(gs, pos) + [EntryOf(g, pos + |BodyOf(crc, gs)|)]
    ensures RowsOf(gs + [g]) == RowsOf(gs) + g.rowCount
    decreases |gs|
  {
    hide GroupFile, GroupBody, EntryOf, BodyOf, EntriesAll, RowsOf;
    GroupsSplit(crc, gs + [g], pos);
    NothingYet(crc, pos);
    if gs == [] {
      NothingYet(crc, pos + |GroupFile(crc, g)|);
      assert gs + [g] == [g] && (gs + [g])[1..] == [];
    } else {
      var next := pos + |GroupFile(crc, gs[0])|;
      assert (gs + [g])[0] == gs[0] && (gs + [g])[1..] == gs[1..] + [g];
      GroupsSplit(crc, gs, pos);
      EntriesAllSnoc(crc, gs[1..], g, next);
      EntriesJoin(EntryOf(gs[0], pos), EntriesAll(gs[1..], next), EntryOf(g, pos + |BodyOf(crc, gs)|));
    }
  }

  lemma {:induction false} EntriesJoin(first: GroupEntry, rest: seq<GroupEntry>, last: GroupEntry)
    ensures [first] + (rest + [last]) == ([first] + rest) + [last]
  {
  }

  /** `recover_file_prefix`: row group after row group until one cannot be read. */
  method RecoverFilePrefix(crc: Checksum, data: seq<byte>) returns (r: Option<FileRecovery>)
    ensures r == Recover(crc, data)
  {
    hide ReadGroup, GroupFile, EntriesAll, EntryOf, BodyOf, RowsOf, RecoverFrom, PrefixedAt, HeaderOk;
    if !HeaderOk(data) {
      return None;
    }
    HeaderInside(data);
    var cursor: nat, rows: nat, entries: seq<GroupEntry> := HEADER_LEN, 0, [];
    ghost var gs: seq<RowGroup> := [];
    PrefixedAtNothing(RecoverFrom(crc, data, HEADER_LEN, 0, 0));
    NothingYet(crc, HEADER_LEN);
    while true
      invariant HEADER_LEN <= cursor <= |data|
      invariant cursor == HEADER_LEN + |BodyOf(crc, gs)| && rows == RowsOf(gs) && entries == EntriesAll(gs, HEADER_LEN)
      invariant RecoverFrom(crc, data, HEADER_LEN, 0, 0) == PrefixedAt(gs, RecoverFrom(crc, data, cursor, |gs|, rows))
      decreases |data| - cursor
    {
      RecoverStep(crc, data, cursor, |gs|, rows, gs);
      var read := RecoverRowGroup(crc, data, cursor, |entries|, rows);
      if read.None? {
        break;
      }
      ghost var g := ReadGroup(crc, data, cursor, |gs|, rows).value.0;
      ReadGroupProgress(crc, data, cursor, |gs|, rows);
      ReadGroupIff(crc, data, cursor, g, read.value.1);
      EntryNumbers(g, cursor);
      if rows + read.value.0.rowCount >= U64_LIMIT {
        return None;
      }
      EntriesAllSnoc(crc, gs, g, HEADER_LEN);
      rows := rows + read.value.0.rowCount;
      entries := entries + [read.value.0];
      cursor := read.value.1;
      gs := gs + [g];
    }
    return Some(FileRecovery(cursor, Footer(rows, entries), cursor < |data|));
  }

  lemma {:induction false} HeaderInside(data: seq<byte>)
    requires HeaderOk(data)
    ensures |data| >= HEADER_LEN
  {
  }

  lemma {:induction false} NothingYet(crc: Checksum, pos: nat)
    ensures BodyOf(crc, []) == [] && RowsOf([]) == 0 && EntriesAll([], pos) == []
  {
  }

  lemma {:induction false} EntryNumbers(g: RowGroup, pos: nat)
    ensures EntryOf(g, pos).index == g.index && EntryOf(g, pos).firstRow == g.firstRow && EntryOf(g, pos).rowCount == g.rowCount
  {
  }
}
