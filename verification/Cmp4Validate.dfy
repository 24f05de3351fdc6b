/** Validation of a complete CMP4 file (crates/compact-core/src/io/v4.rs, `validate_file` and `verify_row_group`). */
module Cmp4Validate {
  import opened Wrappers
  import opened Bytes
  import opened Limits
  import opened Cmp4Format
  import opened RowGroups
  import opened Columns
  import opened Cmp4Recovery
  import ColumnFormat

  /** `verify_row_group` with the full checksum. */
  predicate VerifyGroup(crc: Checksum, data: seq<byte>, g: GroupEntry) {
    && g.len >= GROUP_HEADER_LEN + CHECKSUM_LEN
    && g.offset + g.len <= |data|
    && var end := g.offset + g.len - CHECKSUM_LEN;
       && crc(data[g.offset..end]) == Field(data, end, 4)
       && data[g.offset..g.offset + 4] == GroupMagic()
       && Field(data, g.offset + 4, 8) == g.index && Field(data, g.offset + 12, 8) == g.firstRow
       && Field(data, g.offset + 20, 8) == g.rowCount && Field(data, g.offset + 36, 4) == |g.columns|
  }

  /** Each group begins where the one before it ends, and the last at the footer. */
  predicate Contiguous(crc: Checksum, data: seq<byte>, gs: seq<GroupEntry>, expected: nat, footerOffset: nat)
    decreases |gs|
  {
    if gs == [] then expected == footerOffset
    else
      && gs[0].offset == expected && VerifyGroup(crc, data, gs[0])
      && Contiguous(crc, data, gs[1..], expected + gs[0].len, footerOffset)
  }

  /** `validate_file`. */
  function Validate(crc: Checksum, data: seq<byte>): Option<Footer> {
    if !HeaderOk(data) then None
    else
      match DecodeFooter(crc, data)
      case None => None
      case Some(f) => if Contiguous(crc, data, f.groups, HEADER_LEN, FooterOffset(data)) then Some(f) else None
  }

  // ----- what validation accepts -----

  /** The bytes of a group: its header with the entry's numbers, anything behind it, and the checksum of all this. */
  ghost predicate GroupBytes(crc: Checksum, e: GroupEntry, part: seq<byte>, raw: nat, rest: seq<byte>) {
    var body := HeaderOf([e.index, e.firstRow, e.rowCount, raw], |e.columns|) + rest;
    raw < U64_LIMIT && part == body + Le32(crc(body))
  }

  ghost predicate SealedGroup(crc: Checksum, e: GroupEntry, part: seq<byte>) {
    exists raw, rest :: GroupBytes(crc, e, part, raw, rest)
  }

  /** The groups stand one after the other, each with the length and the offset its entry has. */
  ghost predicate Tiled(crc: Checksum, parts: seq<seq<byte>>, gs: seq<GroupEntry>, offset: nat)
    decreases |parts|
  {
    && |parts| == |gs|
    && (parts == [] ||
        (&& gs[0].offset == offset && gs[0].len == |parts[0]| && SealedGroup(crc, gs[0], parts[0])
         && Tiled(crc, parts[1..], gs[1..], offset + |parts[0]|)))
  }

  /** A file: the header, groups without gaps, and a footer with their index behind them. */
  ghost predicate ValidFile(crc: Checksum, data: seq<byte>, f: Footer, parts: seq<seq<byte>>) {
    && Tiled(crc, parts, f.groups, HEADER_LEN) && FooterTyped(f)
    && AppendFooter(crc, HeaderBytes() + Concat(parts), f) == Some(data)
  }

  lemma {:induction false} GroupBytesAt(crc: Checksum, data: seq<byte>, e: GroupEntry, part: seq<byte>, raw: nat,
                                        rest: seq<byte>)
    requires EntryTyped(e) && |e.columns| < U32_LIMIT && GroupBytes(crc, e, part, raw, rest)
    requires e.len == |part| && At(data, e.offset, part)
    ensures VerifyGroup(crc, data, e)
  {
    hide At, Field, HeaderOf, ColumnsTyped;
    var words := [e.index, e.firstRow, e.rowCount, raw];
    var body := HeaderOf(words, |e.columns|) + rest;
    AtInside(data, e.offset, part);
    AtConcat(data, e.offset, body, Le32(crc(body)));
    AtConcat(data, e.offset, HeaderOf(words, |e.columns|), rest);
    ChecksumAt(crc, data, e.offset, body);
    HeaderAt(data, e.offset, words, |e.columns|);
  }

  lemma {:induction false} VerifiedBytes(crc: Checksum, data: seq<byte>, e: GroupEntry)
    requires EntryTyped(e) && |e.columns| < U32_LIMIT && VerifyGroup(crc, data, e)
    ensures SealedGroup(crc, e, data[e.offset..e.offset + e.len])
  {
    hide At, Field, HeaderOf, ColumnsTyped, GroupBytes, Le;
    Pow256Values();
    var (raw, end) := (Field(data, e.offset + 28, 8), e.offset + e.len - CHECKSUM_LEN);
    FieldBound(data, e.offset + 28, 8);
    var words, start := [e.index, e.firstRow, e.rowCount, raw], e.offset + GROUP_HEADER_LEN;
    HeaderAt(data, e.offset, words, |e.columns|);
    var header, rest, body := HeaderOf(words, |e.columns|), data[start..end], data[e.offset..end];
    AtSlice(data, e.offset, header);
    assert body == header + rest;
    AtSlice(data, e.offset, body);
    ChecksumAt(crc, data, e.offset, body);
    AtInside(data, e.offset, body + Le32(crc(body)));
    GroupBytesOf(crc, e, data[e.offset..e.offset + e.len], raw, rest);
  }

  lemma {:induction false} GroupBytesOf(crc: Checksum, e: GroupEntry, part: seq<byte>, raw: nat, rest: seq<byte>)
    requires var body := HeaderOf([e.index, e.firstRow, e.rowCount, raw], |e.columns|) + rest;
             raw < U64_LIMIT && part == body + Le32(crc(body))
    ensures SealedGroup(crc, e, part)
  {
    hide HeaderOf, Le;
    assert GroupBytes(crc, e, part, raw, rest);
  }

  /** A group is verified exactly when its own bytes, with their checksum, stand where its entry says. */
  lemma {:induction false} VerifyGroupIff(crc: Checksum, data: seq<byte>, e: GroupEntry)
    requires EntryTyped(e) && |e.columns| < U32_LIMIT
    ensures VerifyGroup(crc, data, e) <==>
            e.offset + e.len <= |data| && SealedGroup(crc, e, data[e.offset..e.offset + e.len])
  {
    hide EntryTyped, GroupBytes;
    if VerifyGroup(crc, data, e) {
      VerifiedBytes(crc, data, e);
    }
    hide VerifyGroup;
    if e.offset + e.len <= |data| && SealedGroup(crc, e, data[e.offset..e.offset + e.len]) {
      var part := data[e.offset..e.offset + e.len];
      var raw, rest :| GroupBytes(crc, e, part, raw, rest);
      GroupBytesAt(crc, data, e, part, raw, rest);
    }
  }

  lemma {:induction false} ColumnsFit(gs: seq<GroupEntry>, behind: nat)
    requires EntriesTyped(gs, behind) && gs != []
    ensures EntryTyped(gs[0]) && |gs[0].columns| < U32_LIMIT && EntriesTyped(gs[1..], behind)
  {
    hide EntryTyped, ColumnsBytes, EntriesBytes;
  }

  /** The parts of contiguous groups. */
  lemma {:induction false} ContiguousParts(crc: Checksum, data: seq<byte>, gs: seq<GroupEntry>, pos: nat, end: nat)
    returns (parts: seq<seq<byte>>)
    requires Contiguous(crc, data, gs, pos, end) && EntriesTyped(gs, 0) && pos <= |data|
    ensures Tiled(crc, parts, gs, pos) && At(data, pos, Concat(parts)) && end == pos + |Concat(parts)|
    decreases |gs|
  {
    hide At, VerifyGroup, EntryTyped, EntriesTyped, SealedGroup;
    if gs == [] {
      parts := [];
      AtNothing(data, pos);
    } else {
      var e := gs[0];
      ColumnsFit(gs, 0);
      VerifyGroupIff(crc, data, e);
      var part := data[pos..pos + e.len];
      var rest := ContiguousParts(crc, data, gs[1..], pos + e.len, end);
      parts := [part] + rest;
      assert parts[1..] == rest;
      AtSlice(data, pos, part);
      AtConcat(data, pos, part, Concat(rest));
    }
  }

  lemma {:induction false} PartsContiguous(crc: Checksum, data: seq<byte>, gs: seq<GroupEntry>, pos: nat,
                                           parts: seq<seq<byte>>)
    requires Tiled(crc, parts, gs, pos) && At(data, pos, Concat(parts)) && EntriesTyped(gs, 0)
    ensures Contiguous(crc, data, gs, pos, pos + |Concat(parts)|)
    decreases |gs|
  {
    hide At, VerifyGroup, EntryTyped, EntriesTyped, SealedGroup;
    if gs != [] {
      ColumnsFit(gs, 0);
      AtConcat(data, pos, parts[0], Concat(parts[1..]));
      AtInside(data, pos, parts[0]);
      VerifyGroupIff(crc, data, gs[0]);
      PartsContiguous(crc, data, gs[1..], pos + |parts[0]|, parts[1..]);
    }
  }

  lemma {:induction false} ValidatedParts(crc: Checksum, data: seq<byte>, f: Footer) returns (parts: seq<seq<byte>>)
    requires |data| < U64_LIMIT && Validate(crc, data) == Some(f)
    ensures ValidFile(crc, data, f, parts)
  {
    hide At, Tiled, Contiguous, EntriesTyped, AppendFooter, HeaderOk, HeaderBytes, FooterOffset, DecodeFooter, Concat;
    HeaderInside(data);
    HeaderOkIff(data);
    DecodeFooterIff(crc, data, f);
    parts := ContiguousParts(crc, data, f.groups, HEADER_LEN, FooterOffset(data));
    AtConcat(data, 0, HeaderBytes(), Concat(parts));
    AtInside(data, 0, HeaderBytes() + Concat(parts));
    assert data[0..FooterOffset(data)] == data[..FooterOffset(data)];
  }

  lemma {:induction false} PartsValidate(crc: Checksum, data: seq<byte>, f: Footer, parts: seq<seq<byte>>)
    requires |data| < U64_LIMIT && ValidFile(crc, data, f, parts)
    ensures Validate(crc, data) == Some(f)
  {
    hide At, Tiled, Contiguous, EntriesTyped, AppendFooter, HeaderOk, HeaderBytes, FooterOffset, DecodeFooter, Concat;
    var prefix := HeaderBytes() + Concat(parts);
    AppendedPrefix(crc, prefix, f, data);
    AppendedDecodes(crc, prefix, f, data);
    AtConcat(data, 0, HeaderBytes(), Concat(parts));
    HeaderOkIff(data);
    PartsContiguous(crc, data, f.groups, HEADER_LEN, parts);
  }

  lemma {:induction false} AppendedPrefix(crc: Checksum, prefix: seq<byte>, f: Footer, out: seq<byte>)
    requires AppendFooter(crc, prefix, f) == Some(out)
    ensures At(out, 0, prefix)
  {
    hide IndexValid, Encodable, FooterBody;
  }

  /**
    Validation accepts exactly the files that are a header, groups with their own numbers and checksums without gaps
    between them, and the footer that indexes them.
  */
  lemma {:induction false} ValidateIff(crc: Checksum, data: seq<byte>, f: Footer)
    requires |data| < U64_LIMIT
    ensures Validate(crc, data) == Some(f) <==> exists parts :: ValidFile(crc, data, f, parts)
  {
    hide Validate, ValidFile;
    if Validate(crc, data) == Some(f) {
      var parts := ValidatedParts(crc, data, f);
    }
    if parts: seq<seq<byte>> :| ValidFile(crc, data, f, parts) {
      PartsValidate(crc, data, f, parts);
    }
  }

  lemma {:induction false} NoFooter(crc: Checksum, data: seq<byte>)
    requires DecodeFooter(crc, data) == None
    ensures Validate(crc, data) == None
  {
    hide DecodeFooter;
  }

  method ValidateFile(crc: Checksum, data: seq<byte>) returns (r: Option<Footer>)
    ensures r == Validate(crc, data)
  {
    hide VerifyGroup, DecodeFooter, FooterOffset, HeaderOk;
    if !HeaderOk(data) {
      return None;
    }
    var footer := DecodeFooter(crc, data);
    if footer.None? {
      return None;
    }
    var f := footer.value;
    var expected: nat := HEADER_LEN;
    assert f.groups[0..] == f.groups;
    for i := 0 to |f.groups|
      invariant Contiguous(crc, data, f.groups, HEADER_LEN, FooterOffset(data))
            <==> Contiguous(crc, data, f.groups[i..], expected, FooterOffset(data))
    {
      assert f.groups[i..][0] == f.groups[i] && f.groups[i..][1..] == f.groups[i + 1..];
      if f.groups[i].offset != expected || !VerifyGroup(crc, data, f.groups[i]) {
        return None;
      }
      expected := expected + f.groups[i].len;
    }
    if expected != FooterOffset(data) {
      return None;
    }
    return Some(f);
  }

  // ----- the index of well-formed groups is valid -----

  lemma {:induction false} EntriesAt(cs: seq<Chunk>, pos: nat, k: nat)
    requires k < |cs|
    ensures var e := EntriesOf(cs, pos)[k];
            && e.name == cs[k].metadata.name && e.statistics == cs[k].metadata.statistics
            && e.valueCount == cs[k].metadata.valueCount && e.nullCount == cs[k].metadata.nullCount
            && e.metadataLen == |Meta(cs[k])| && e.payloadLen == cs[k].metadata.compressedSize
            && pos <= e.metadataOffset && e.metadataOffset + e.metadataLen == e.payloadOffset
            && e.payloadOffset + |cs[k].payload| <= pos + |ChunksBytes(cs)|
    decreases |cs|
  {
    hide Meta;
    if k > 0 {
      EntriesAt(cs[1..], pos + |ChunkBytes(cs[0])|, k - 1);
    }
  }

  lemma {:induction false} ChunksOkAt(cs: seq<Chunk>, rowCount: nat, taken: seq<Text>, k: nat)
    requires ChunksOk(cs, rowCount, taken) && k < |cs|
    ensures ChunkOk(cs[k], rowCount) && cs[k].metadata.name !in taken
    ensures forall j :: k < j < |cs| ==> cs[j].metadata.name != cs[k].metadata.name
    decreases |cs|
  {
    hide ChunkOk;
    var name := cs[0].metadata.name;
    if k > 0 {
      ChunksOkAt(cs[1..], rowCount, taken + [name], k - 1);
      forall j | k < j < |cs| ensures cs[j].metadata.name != cs[k].metadata.name {
        assert cs[j] == cs[1..][j - 1];
      }
    } else {
      forall j | 0 < j < |cs| ensures cs[j].metadata.name != name {
        ChunksOkAt(cs[1..], rowCount, taken + [name], j - 1);
        assert name in taken + [name];
      }
    }
  }

  lemma {:induction false} ChunkOkFacts(c: Chunk, rowCount: nat)
    requires ChunkOk(c, rowCount)
    ensures c.metadata.name != [] && |c.metadata.name| < 0x1_0000 && c.metadata.nullCount <= c.metadata.valueCount == rowCount
    ensures |c.metadata.statistics| < U32_LIMIT && c.metadata.compressedSize == |c.payload| && |Meta(c)| < U32_LIMIT
    ensures ColumnFormat.Typed(c.metadata)
  {
    hide Utf8.Valid, DecodeStatistics, ColumnFormat.Fields;
  }

  lemma {:induction false} EntryIsValid(g: RowGroup, offset: nat, limit: nat)
    requires GroupOk(g) && offset + |GroupBody(g)| + CHECKSUM_LEN <= limit < U64_LIMIT
    ensures EntryValid(EntryOf(g, offset), limit)
  {
    hide ChunksOk, ChunkOk, EntriesOf, ChunksBytes, GroupHeader;
    var e := EntryOf(g, offset);
    forall k | 0 <= k < |e.columns| ensures ColumnValid(e, e.columns[k]) {
      EntriesAt(g.chunks, offset + GROUP_HEADER_LEN, k);
      ChunksOkAt(g.chunks, g.rowCount, [], k);
      ChunkOkFacts(g.chunks[k], g.rowCount);
    }
    forall i, j | 0 <= i < j < |e.columns| ensures e.columns[i].name != e.columns[j].name {
      ChunksOkAt(g.chunks, g.rowCount, [], i);
      EntriesAt(g.chunks, offset + GROUP_HEADER_LEN, i);
      EntriesAt(g.chunks, offset + GROUP_HEADER_LEN, j);
    }
  }

  lemma {:induction false} GroupsCons(crc: Checksum, gs: seq<RowGroup>, pos: nat, n: nat, row: nat)
    requires gs != [] && Numbered(gs, n, row) && AllOk(gs)
    ensures var next := pos + |GroupBody(gs[0])| + CHECKSUM_LEN;
            && GroupOk(gs[0]) && gs[0].index == n && gs[0].firstRow == row
            && Numbered(gs[1..], n + 1, row + gs[0].rowCount) && AllOk(gs[1..])
            && RowsOf(gs) == gs[0].rowCount + RowsOf(gs[1..]) && next + |BodyOf(crc, gs[1..])| == pos + |BodyOf(crc, gs)|
            && EntriesAll(gs, pos) == [EntryOf(gs[0], pos)] + EntriesAll(gs[1..], next)
  {
    hide GroupBody, GroupOk;
  }

  lemma NoEntries(pos: nat, n: nat, row: nat, limit: nat)
    ensures EntriesAll([], pos) == [] && EntriesValid([], n, row, limit) && TotalRows([]) == 0
  {
  }

  lemma {:induction false} EntriesValidCons(e: GroupEntry, rest: seq<GroupEntry>, n: nat, row: nat, limit: nat)
    ensures EntriesValid([e] + rest, n, row, limit) <==>
            && e.index == n && e.firstRow == row && row + e.rowCount < U64_LIMIT && EntryValid(e, limit)
            && EntriesValid(rest, n + 1, row + e.rowCount, limit)
    ensures TotalRows([e] + rest) == e.rowCount + TotalRows(rest)
  {
    hide EntryValid;
    assert ([e] + rest)[1..] == rest;
  }

  lemma {:induction false} EntriesAreValid(crc: Checksum, gs: seq<RowGroup>, pos: nat, n: nat, row: nat, limit: nat)
    requires Numbered(gs, n, row) && AllOk(gs) && row + RowsOf(gs) < U64_LIMIT
    requires pos + |BodyOf(crc, gs)| <= limit < U64_LIMIT
    ensures EntriesValid(EntriesAll(gs, pos), n, row, limit) && TotalRows(EntriesAll(gs, pos)) == RowsOf(gs)
    decreases |gs|
  {
    NothingYet(crc, pos);
    NoEntries(pos, n, row, limit);
    hide EntryValid, EntriesValid, EntriesAll, GroupBody, Numbered, AllOk, RowsOf, BodyOf, TotalRows, GroupOk, EntryOf;
    if gs != [] {
      GroupsCons(crc, gs, pos, n, row);
      var (e, next) := (EntryOf(gs[0], pos), pos + |GroupBody(gs[0])| + CHECKSUM_LEN);
      EntryIsValid(gs[0], pos, limit);
      EntryNumbers(gs[0], pos);
      EntriesAreValid(crc, gs[1..], next, n + 1, row + gs[0].rowCount, limit);
      EntriesValidCons(e, EntriesAll(gs[1..], next), n, row, limit);
    }
  }

  lemma {:induction false} ColumnEntriesTyped(cs: seq<Chunk>, rowCount: nat, taken: seq<Text>, pos: nat)
    requires ChunksOk(cs, rowCount, taken) && pos + |ChunksBytes(cs)| < U64_LIMIT
    ensures ColumnsTyped(EntriesOf(cs, pos))
    ensures forall k :: 0 <= k < |cs| ==> EntriesOf(cs, pos)[k].name != []
    decreases |cs|
  {
    hide ChunkOk, Meta, Utf8.Valid;
    if cs != [] {
      ChunkOkFacts(cs[0], rowCount);
      ColumnEntriesTyped(cs[1..], rowCount, taken + [cs[0].metadata.name], pos + |ChunkBytes(cs[0])|);
    }
  }

  lemma {:induction false} EntryIsTyped(g: RowGroup, offset: nat, behind: nat)
    requires GroupOk(g) && offset + |GroupBody(g)| + CHECKSUM_LEN < U64_LIMIT
    ensures EntryTyped(EntryOf(g, offset))
    ensures ColumnCountOk(|EntryOf(g, offset).columns|, |ColumnsBytes(EntryOf(g, offset).columns)| + behind)
  {
    hide ChunksOk, EntriesOf, ChunksBytes, GroupHeader, ColumnsTyped, ColumnsBytes;
    ColumnEntriesTyped(g.chunks, g.rowCount, [], offset + GROUP_HEADER_LEN);
    ColumnsSize(EntryOf(g, offset).columns);
  }

  lemma {:induction false} EntriesAreTyped(crc: Checksum, gs: seq<RowGroup>, pos: nat)
    requires AllOk(gs) && pos + |BodyOf(crc, gs)| < U64_LIMIT
    ensures EntriesTyped(EntriesAll(gs, pos), 0)
    decreases |gs|
  {
    hide EntryTyped, GroupBody, GroupOk, EntryOf, ColumnCountOk, EntryBytes, ColumnsBytes;
    if gs != [] {
      var rest := EntriesAll(gs[1..], pos + |GroupBody(gs[0])| + CHECKSUM_LEN);
      EntryIsTyped(gs[0], pos, |EntriesBytes(rest)|);
      EntriesAreTyped(crc, gs[1..], pos + |GroupBody(gs[0])| + CHECKSUM_LEN);
      assert EntriesAll(gs, pos)[1..] == rest;
    }
  }

  // ----- written files validate -----

  lemma {:induction false} VerifiesOwnGroup(crc: Checksum, data: seq<byte>, g: RowGroup, offset: nat)
    requires GroupOk(g) && At(data, offset, GroupFile(crc, g))
    ensures VerifyGroup(crc, data, EntryOf(g, offset))
  {
    hide At, Words, Le, ChunksOk, ChunksBytes, EntriesOf, GroupHeader;
    Pow256Values();
    var body := GroupBody(g);
    AtConcat(data, offset, body, Le32(crc(body)));
    AtConcat(data, offset, GroupHeader(g), ChunksBytes(g.chunks));
    ChecksumAt(crc, data, offset, body);
    GroupHeaderAt(data, offset, g);
  }

  lemma {:induction false} ContiguousGroups(crc: Checksum, data: seq<byte>, gs: seq<RowGroup>, pos: nat)
    requires AllOk(gs) && At(data, pos, BodyOf(crc, gs))
    ensures Contiguous(crc, data, EntriesAll(gs, pos), pos, pos + |BodyOf(crc, gs)|)
    decreases |gs|
  {
    hide At, VerifyGroup, GroupOk, GroupBody;
    if gs != [] {
      AtConcat(data, pos, GroupFile(crc, gs[0]), BodyOf(crc, gs[1..]));
      VerifiesOwnGroup(crc, data, gs[0], pos);
      var next := pos + |GroupFile(crc, gs[0])|;
      ContiguousGroups(crc, data, gs[1..], next);
      assert EntriesAll(gs, pos)[1..] == EntriesAll(gs[1..], next);
    }
  }

  /** Well-formed groups can be given a footer, and the file with it validates to exactly that footer. */
  lemma {:induction false} GroupsMakeFile(crc: Checksum, gs: seq<RowGroup>, prefix: seq<byte>)
    requires Numbered(gs, 0, 0) && AllOk(gs) && RowsOf(gs) < U64_LIMIT
    requires prefix == HeaderBytes() + BodyOf(crc, gs) && |prefix| < U64_LIMIT
    ensures AppendFooter(crc, prefix, FooterOf(gs)).Some?
    ensures FooterTyped(FooterOf(gs)) <==> |gs| <= MAX_COLLECTION_ENTRIES
  {
    hide EntriesValid, EntriesTyped, EntriesAll, BodyOf, Numbered, AllOk, Encodable, FooterBody;
    EntriesAreValid(crc, gs, HEADER_LEN, 0, 0, |prefix|);
    EntriesAreTyped(crc, gs, HEADER_LEN);
    TypedIsEncodable(EntriesAll(gs, HEADER_LEN), 0);
  }

  lemma {:induction false} FileValidates(crc: Checksum, gs: seq<RowGroup>, file: seq<byte>)
    requires FileOf(crc, gs, file) && |gs| <= MAX_COLLECTION_ENTRIES
    ensures Validate(crc, file) == Some(FooterOf(gs))
  {
    hide AppendFooter, FooterTyped, Contiguous, DecodeFooter, FooterOffset, BodyOf, HeaderOk, At, EntriesAll;
    hide Numbered, RowsOf;
    var prefix := HeaderBytes() + BodyOf(crc, gs);
    AppendedLonger(crc, prefix, FooterOf(gs));
    GroupsMakeFile(crc, gs, prefix);
    AppendedDecodes(crc, prefix, FooterOf(gs), file);
    FileParts(crc, gs, file);
    ContiguousGroups(crc, file, gs, HEADER_LEN);
  }

  lemma {:induction false} AppendedLonger(crc: Checksum, prefix: seq<byte>, f: Footer)
    requires AppendFooter(crc, prefix, f).Some?
    ensures |AppendFooter(crc, prefix, f).value| == |prefix| + |FooterBody(f)| + TRAILER_LEN
  {
    hide IndexValid, Encodable, FooterBody;
  }
}
