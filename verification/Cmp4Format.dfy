/** The CMP4 header and footer index (crates/compact-core/src/format/v4.rs). */
module Cmp4Format {
  import opened Wrappers
  import opened Bytes
  import opened Limits
  import ColumnFormat
  import Utf8

  type Text = seq<byte>

  datatype ColumnEntry = ColumnEntry(
    name: Text,
    metadataOffset: nat,
    metadataLen: nat,
    payloadOffset: nat,
    payloadLen: nat,
    valueCount: nat,
    nullCount: nat,
    statistics: seq<byte>)

  datatype GroupEntry = GroupEntry(
    index: nat,
    firstRow: nat,
    rowCount: nat,
    offset: nat,
    len: nat,
    columns: seq<ColumnEntry>)

  datatype Footer = Footer(totalRows: nat, groups: seq<GroupEntry>)

  const HEADER_LEN: nat := 10
  const TRAILER_LEN: nat := 24
  const VERSION_V4: byte := 4
  const MIN_GROUP_LEN: nat := 5 * 8 + 4
  const MIN_COLUMN_LEN: nat := 2 + 1 + 6 * 8 + 4

  function MagicV4(): (m: seq<byte>) ensures |m| == 4 { Magic(0x43, 0x4D, 0x50, 0x34) }
  function FooterMagic(): (m: seq<byte>) ensures |m| == 4 { Magic(0x49, 0x44, 0x58, 0x34) }

  function HeaderBytes(): (h: seq<byte>)
    ensures |h| == HEADER_LEN
  {
    MagicV4() + ([VERSION_V4, 0] + Le32(0))
  }

  /** A header every reader of the body accepts: the right magic and version, no flags, no payload. */
  predicate HeaderOk(data: seq<byte>) {
    |data| >= HEADER_LEN && data[..4] == MagicV4() && data[4] == VERSION_V4 && data[5] == 0 && Field(data, 6, 4) == 0
  }

  lemma {:induction false} HeaderOkIff(data: seq<byte>)
    ensures HeaderOk(data) <==> At(data, 0, HeaderBytes())
  {
    Pow256Values();
    AtConcat(data, 0, MagicV4(), [VERSION_V4, 0] + Le32(0));
    AtConcat(data, 4, [VERSION_V4, 0], Le32(0));
    AtField(data, 6, 4, 0);
    if |data| >= HEADER_LEN {
      assert data[4..6] == [data[4], data[5]];
    }
  }

  // ----- entries -----

  function ColumnWords(c: ColumnEntry): seq<nat> {
    [c.metadataOffset, c.metadataLen, c.payloadOffset, c.payloadLen, c.valueCount, c.nullCount]
  }

  function ColumnBytes(c: ColumnEntry): (b: seq<byte>)
    ensures |b| == 54 + |c.name| + |c.statistics|
  {
    (Le16(|c.name|) + c.name) + (Words(ColumnWords(c)) + ColumnFormat.Sized32(c.statistics))
  }

  predicate ColumnTyped(c: ColumnEntry) {
    && |c.name| < 0x1_0000 && Utf8.Valid(c.name) && |c.statistics| < U32_LIMIT
    && c.metadataOffset < U64_LIMIT && c.metadataLen < U64_LIMIT && c.payloadOffset < U64_LIMIT
    && c.payloadLen < U64_LIMIT && c.valueCount < U64_LIMIT && c.nullCount < U64_LIMIT
  }

  function ReadColumn(data: seq<byte>, pos: nat): Option<(ColumnEntry, nat)> {
    if pos + 2 > |data| then None
    else
      var nameLen := Field(data, pos, 2);
      var p := pos + 2 + nameLen;
      if p + 48 > |data| || !Utf8.Valid(data[pos + 2..p]) then None
      else
        match ColumnFormat.ReadSized32(data, p + 48)
        case None => None
        case Some((statistics, next)) =>
          Some((ColumnEntry(data[pos + 2..p], Field(data, p, 8), Field(data, p + 8, 8), Field(data, p + 16, 8),
                            Field(data, p + 24, 8), Field(data, p + 32, 8), Field(data, p + 40, 8), statistics), next))
  }

  lemma {:induction false} ColumnWordsAt(data: seq<byte>, p: nat, c: ColumnEntry)
    requires ColumnTyped(c)
    ensures At(data, p, Words(ColumnWords(c))) <==>
            && p + 48 <= |data|
            && Field(data, p, 8) == c.metadataOffset && Field(data, p + 8, 8) == c.metadataLen
            && Field(data, p + 16, 8) == c.payloadOffset && Field(data, p + 24, 8) == c.payloadLen
            && Field(data, p + 32, 8) == c.valueCount && Field(data, p + 40, 8) == c.nullCount
  {
    hide At, Field, Words, Utf8.Valid;
    var w := ColumnWords(c);
    AtWords(data, p, w);
    assert w[0] == c.metadataOffset && w[1] == c.metadataLen && w[2] == c.payloadOffset;
    assert w[3] == c.payloadLen && w[4] == c.valueCount && w[5] == c.nullCount;
  }

  lemma {:induction false} ReadColumnIff(data: seq<byte>, pos: nat, c: ColumnEntry, next: nat)
    ensures ReadColumn(data, pos) == Some((c, next)) <==>
            ColumnTyped(c) && At(data, pos, ColumnBytes(c)) && next == pos + |ColumnBytes(c)|
  {
    hide At, Field, Words, ColumnFormat.ReadSized32, ColumnFormat.Sized32, Utf8.Valid, Le;
    Pow256Values();
    FieldBound(data, pos, 2);
    var (a, w, s) := (Le16(|c.name|) + c.name, Words(ColumnWords(c)), ColumnFormat.Sized32(c.statistics));
    var p := pos + |a|;
    AtConcat(data, pos, a, w + s);
    AtConcat(data, p, w, s);
    FieldBound(data, p, 8);
    FieldBound(data, p + 8, 8);
    FieldBound(data, p + 16, 8);
    FieldBound(data, p + 24, 8);
    FieldBound(data, p + 32, 8);
    FieldBound(data, p + 40, 8);
    if |c.name| < 0x1_0000 {
      ColumnFormat.NameAt(data, pos, c.name);
    }
    if ColumnTyped(c) {
      ColumnWordsAt(data, p, c);
    }
    ColumnFormat.ReadSized32Iff(data, p + 48, c.statistics, p + 48 + |s|);
    if ColumnFormat.ReadSized32(data, p + 48).Some? {
      var r := ColumnFormat.ReadSized32(data, p + 48).value;
      ColumnFormat.ReadSized32Iff(data, p + 48, r.0, r.1);
    }
  }

  function ColumnsBytes(cs: seq<ColumnEntry>): seq<byte> {
    if cs == [] then [] else ColumnBytes(cs[0]) + ColumnsBytes(cs[1..])
  }

  function ReadColumns(data: seq<byte>, pos: nat, count: nat): Option<(seq<ColumnEntry>, nat)>
    decreases count
  {
    if count == 0 then Some(([], pos))
    else
      match ReadColumn(data, pos)
      case None => None
      case Some((c, next)) =>
        match ReadColumns(data, next, count - 1) case None => None case Some((rest, end)) => Some(([c] + rest, end))
  }

  predicate ColumnsTyped(cs: seq<ColumnEntry>) {
    cs == [] || (ColumnTyped(cs[0]) && ColumnsTyped(cs[1..]))
  }

  lemma {:induction false} ReadColumnsIff(data: seq<byte>, pos: nat, cs: seq<ColumnEntry>, end: nat)
    requires pos <= |data|
    ensures ReadColumns(data, pos, |cs|) == Some((cs, end)) <==>
            ColumnsTyped(cs) && At(data, pos, ColumnsBytes(cs)) && end == pos + |ColumnsBytes(cs)|
    decreases |cs|
  {
    hide At, ReadColumn, ColumnBytes, ColumnTyped;
    if cs == [] {
      AtNothing(data, pos);
    } else {
      var first := ColumnBytes(cs[0]);
      AtConcat(data, pos, first, ColumnsBytes(cs[1..]));
      ReadColumnIff(data, pos, cs[0], pos + |first|);
      if ReadColumn(data, pos).Some? {
        var r := ReadColumn(data, pos).value;
        ReadColumnIff(data, pos, r.0, r.1);
      }
      assert cs == [cs[0]] + cs[1..];
      if At(data, pos, first) {
        AtInside(data, pos, first);
        ReadColumnsIff(data, pos + |first|, cs[1..], end);
      }
    }
  }

  lemma {:induction false} ColumnsSize(cs: seq<ColumnEntry>)
    ensures |ColumnsBytes(cs)| >= 54 * |cs|
    ensures (forall k :: 0 <= k < |cs| ==> cs[k].name != []) ==> |ColumnsBytes(cs)| >= MIN_COLUMN_LEN * |cs|
  {
    if cs != [] {
      ColumnsSize(cs[1..]);
    }
  }

  function EntryWords(g: GroupEntry): seq<nat> { [g.index, g.firstRow, g.rowCount, g.offset, g.len] }

  function EntryBytes(g: GroupEntry): (b: seq<byte>)
    ensures |b| >= MIN_GROUP_LEN
  {
    Words(EntryWords(g)) + (Le32(|g.columns|) + ColumnsBytes(g.columns))
  }

  predicate EntryTyped(g: GroupEntry) {
    && g.index < U64_LIMIT && g.firstRow < U64_LIMIT && g.rowCount < U64_LIMIT && g.offset < U64_LIMIT && g.len < U64_LIMIT
    && ColumnsTyped(g.columns)
  }

  /** The guard against column counts that cannot fit into the rest of the footer. */
  predicate ColumnCountOk(count: nat, room: nat) {
    count <= MAX_COLLECTION_ENTRIES && count * MIN_COLUMN_LEN <= room
  }

  function ReadEntry(data: seq<byte>, pos: nat): Option<(GroupEntry, nat)> {
    if pos + 44 > |data| then None
    else
      var count := Field(data, pos + 40, 4);
      if !ColumnCountOk(count, |data| - (pos + 44)) then None
      else
        match ReadColumns(data, pos + 44, count)
        case None => None
        case Some((columns, next)) =>
          Some((GroupEntry(Field(data, pos, 8), Field(data, pos + 8, 8), Field(data, pos + 16, 8), Field(data, pos + 24, 8),
                           Field(data, pos + 32, 8), columns), next))
  }

  lemma {:induction false} EntryWordsAt(data: seq<byte>, p: nat, g: GroupEntry)
    requires EntryTyped(g)
    ensures At(data, p, Words(EntryWords(g))) <==>
            && p + 40 <= |data|
            && Field(data, p, 8) == g.index && Field(data, p + 8, 8) == g.firstRow && Field(data, p + 16, 8) == g.rowCount
            && Field(data, p + 24, 8) == g.offset && Field(data, p + 32, 8) == g.len
  {
    hide At, Field, Words, ColumnsTyped;
    var w := EntryWords(g);
    AtWords(data, p, w);
    assert w[0] == g.index && w[1] == g.firstRow && w[2] == g.rowCount && w[3] == g.offset && w[4] == g.len;
  }

  lemma {:induction false} ReadEntryIff(data: seq<byte>, pos: nat, g: GroupEntry, next: nat)
    ensures ReadEntry(data, pos) == Some((g, next)) <==>
            && EntryTyped(g) && At(data, pos, EntryBytes(g)) && next == pos + |EntryBytes(g)|
            && ColumnCountOk(|g.columns|, |data| - (pos + 44))
  {
    hide At, Field, Words, ReadColumns, ColumnsBytes, ColumnsTyped, Le;
    Pow256Values();
    var (w, n, c) := (Words(EntryWords(g)), Le32(|g.columns|), ColumnsBytes(g.columns));
    AtConcat(data, pos, w, n + c);
    AtConcat(data, pos + 40, n, c);
    FieldBound(data, pos, 8);
    FieldBound(data, pos + 8, 8);
    FieldBound(data, pos + 16, 8);
    FieldBound(data, pos + 24, 8);
    FieldBound(data, pos + 32, 8);
    if EntryTyped(g) {
      EntryWordsAt(data, pos, g);
    }
    if |g.columns| < U32_LIMIT {
      AtField(data, pos + 40, 4, |g.columns|);
    }
    if pos + 44 <= |data| {
      ReadColumnsIff(data, pos + 44, g.columns, pos + 44 + |c|);
      ReadColumnsLen(data, pos + 44, Field(data, pos + 40, 4));
      if ReadColumns(data, pos + 44, |g.columns|).Some? {
        var r := ReadColumns(data, pos + 44, |g.columns|).value;
        ReadColumnsLen(data, pos + 44, |g.columns|);
        ReadColumnsIff(data, pos + 44, r.0, r.1);
      }
    }
    if At(data, pos, w + (n + c)) {
      AtInside(data, pos, w + (n + c));
    }
  }

  lemma {:induction false} ReadColumnsLen(data: seq<byte>, pos: nat, count: nat)
    ensures ReadColumns(data, pos, count).Some? ==> |ReadColumns(data, pos, count).value.0| == count
    decreases count
  {
    hide ReadColumn;
    if count > 0 && ReadColumn(data, pos).Some? {
      ReadColumnsLen(data, ReadColumn(data, pos).value.1, count - 1);
    }
  }

  function EntriesBytes(gs: seq<GroupEntry>): seq<byte> {
    if gs == [] then [] else EntryBytes(gs[0]) + EntriesBytes(gs[1..])
  }

  function ReadEntries(data: seq<byte>, pos: nat, count: nat): Option<(seq<GroupEntry>, nat)>
    decreases count
  {
    if count == 0 then Some(([], pos))
    else
      match ReadEntry(data, pos)
      case None => None
      case Some((g, next)) =>
        match ReadEntries(data, next, count - 1) case None => None case Some((rest, end)) => Some(([g] + rest, end))
  }

  /** Every entry fits its fields, and its columns the guard, which looks at all bytes of the footer behind it. */
  predicate EntriesTyped(gs: seq<GroupEntry>, behind: nat) {
    gs == [] ||
    (&& EntryTyped(gs[0])
     && ColumnCountOk(|gs[0].columns|, |ColumnsBytes(gs[0].columns)| + |EntriesBytes(gs[1..])| + behind)
     && EntriesTyped(gs[1..], behind))
  }

  lemma {:induction false} ReadEntriesIff(data: seq<byte>, pos: nat, gs: seq<GroupEntry>)
    requires pos <= |data|
    ensures ReadEntries(data, pos, |gs|) == Some((gs, |data|)) <==>
            EntriesTyped(gs, 0) && At(data, pos, EntriesBytes(gs)) && |data| == pos + |EntriesBytes(gs)|
    decreases |gs|
  {
    hide At, ReadEntry, EntryTyped, ColumnCountOk, Words;
    if gs == [] {
      AtNothing(data, pos);
    } else {
      var first := EntryBytes(gs[0]);
      AtConcat(data, pos, first, EntriesBytes(gs[1..]));
      ReadEntryIff(data, pos, gs[0], pos + |first|);
      if ReadEntry(data, pos).Some? {
        var r := ReadEntry(data, pos).value;
        ReadEntryIff(data, pos, r.0, r.1);
      }
      assert gs == [gs[0]] + gs[1..];
      if At(data, pos, first) {
        AtInside(data, pos, first);
        ReadEntriesIff(data, pos + |first|, gs[1..]);
      }
    }
  }

  lemma {:induction false} ReadEntriesLen(data: seq<byte>, pos: nat, count: nat)
    ensures ReadEntries(data, pos, count).Some? ==> |ReadEntries(data, pos, count).value.0| == count
    decreases count
  {
    hide ReadEntry;
    if count > 0 && ReadEntry(data, pos).Some? {
      ReadEntriesLen(data, ReadEntry(data, pos).value.1, count - 1);
    }
  }

  lemma {:induction false} EntriesSize(gs: seq<GroupEntry>)
    ensures |EntriesBytes(gs)| >= MIN_GROUP_LEN * |gs|
  {
    hide EntryBytes;
    if gs != [] {
      EntriesSize(gs[1..]);
    }
  }

  // ----- validity of the index -----

  predicate DistinctNames(cs: seq<ColumnEntry>) {
    forall i, j :: 0 <= i < j < |cs| ==> cs[i].name != cs[j].name
  }

  predicate InsideGroup(g: GroupEntry, offset: nat, len: nat) {
    g.offset <= offset && offset + len < U64_LIMIT && offset + len <= g.offset + g.len
  }

  predicate ColumnValid(g: GroupEntry, c: ColumnEntry) {
    && c.name != [] && c.nullCount <= c.valueCount
    && InsideGroup(g, c.metadataOffset, c.metadataLen) && InsideGroup(g, c.payloadOffset, c.payloadLen)
  }

  predicate ColumnsValid(g: GroupEntry) {
    (forall k :: 0 <= k < |g.columns| ==> ColumnValid(g, g.columns[k])) && DistinctNames(g.columns)
  }

  predicate EntryValid(g: GroupEntry, limit: nat) {
    g.rowCount > 0 && g.offset + g.len < U64_LIMIT && g.offset + g.len <= limit && ColumnsValid(g)
  }

  function TotalRows(gs: seq<GroupEntry>): nat {
    if gs == [] then 0 else gs[0].rowCount + TotalRows(gs[1..])
  }

  predicate EntriesValid(gs: seq<GroupEntry>, position: nat, row: nat, limit: nat)
    decreases |gs|
  {
    gs == [] ||
    (&& gs[0].index == position && gs[0].firstRow == row && row + gs[0].rowCount < U64_LIMIT
     && EntryValid(gs[0], limit) && EntriesValid(gs[1..], position + 1, row + gs[0].rowCount, limit))
  }

  /** `validate_footer_index` with the footer at `limit`. */
  predicate IndexValid(f: Footer, limit: nat) {
    EntriesValid(f.groups, 0, 0, limit) && TotalRows(f.groups) == f.totalRows
  }

  // ----- footer and trailer -----

  function FooterBody(f: Footer): seq<byte> {
    Le64(f.totalRows) + (Le64(|f.groups|) + EntriesBytes(f.groups))
  }

  function Trailer(crc: Checksum, offset: nat, body: seq<byte>): (t: seq<byte>)
    ensures |t| == TRAILER_LEN
  {
    Le64(offset) + (Le64(|body|) + (Le32(crc(body)) + FooterMagic()))
  }

  /** Names, statistics and column counts fit their length fields. */
  predicate Encodable(gs: seq<GroupEntry>) {
    gs == [] || (|gs[0].columns| < U32_LIMIT && ColumnsEncodable(gs[0].columns) && Encodable(gs[1..]))
  }

  predicate ColumnsEncodable(cs: seq<ColumnEntry>) {
    cs == [] || (|cs[0].name| < 0x1_0000 && |cs[0].statistics| < U32_LIMIT && ColumnsEncodable(cs[1..]))
  }

  /** `append_footer`. */
  function AppendFooter(crc: Checksum, file: seq<byte>, f: Footer): Option<seq<byte>> {
    if !IndexValid(f, |file|) || !Encodable(f.groups) then None
    else
      var body := FooterBody(f);
      Some(file + (body + Trailer(crc, |file|, body)))
  }

  function DecodeBody(body: seq<byte>): Option<Footer> {
    if |body| < 16 then None
    else
      var count := Field(body, 8, 8);
      if count > MAX_COLLECTION_ENTRIES || count * MIN_GROUP_LEN > |body| - 16 then None
      else
        match ReadEntries(body, 16, count)
        case None => None
        case Some((groups, end)) => if end != |body| then None else Some(Footer(Field(body, 0, 8), groups))
  }

  function FooterOffset(file: seq<byte>): nat {
    if |file| < TRAILER_LEN then 0 else Field(file, |file| - TRAILER_LEN, 8)
  }

  /** The trailer points at a footer that ends in front of it and has the right checksum. */
  predicate TrailerOk(crc: Checksum, file: seq<byte>) {
    && |file| >= TRAILER_LEN
    && var t := |file| - TRAILER_LEN;
       && At(file, t + 20, FooterMagic())
       && FooterOffset(file) + Field(file, t + 8, 8) == t
       && crc(file[FooterOffset(file)..t]) == Field(file, t + 16, 4)
  }

  /** `decode_footer`. */
  function DecodeFooter(crc: Checksum, file: seq<byte>): Option<Footer> {
    if !TrailerOk(crc, file) then None
    else
      match DecodeBody(file[FooterOffset(file)..|file| - TRAILER_LEN])
      case None => None
      case Some(f) => if IndexValid(f, FooterOffset(file)) then Some(f) else None
  }

  lemma {:induction false} TrailerAt(crc: Checksum, file: seq<byte>, t: nat, offset: nat, body: seq<byte>)
    requires offset < U64_LIMIT && |body| < U64_LIMIT && |file| == t + TRAILER_LEN
    ensures At(file, t, Trailer(crc, offset, body)) <==>
            && Field(file, t, 8) == offset && Field(file, t + 8, 8) == |body| && Field(file, t + 16, 4) == crc(body)
            && At(file, t + 20, FooterMagic())
  {
    hide At, Le;
    Pow256Values();
    var (x, y, z) := (Le64(|body|), Le32(crc(body)), FooterMagic());
    AtConcat(file, t, Le64(offset), x + (y + z));
    AtConcat(file, t + 8, x, y + z);
    AtConcat(file, t + 16, y, z);
    AtField(file, t, 8, offset);
    AtField(file, t + 8, 8, |body|);
    AtField(file, t + 16, 4, crc(body));
  }

  lemma {:induction false} ThreeParts(file: seq<byte>, a: seq<byte>, b: seq<byte>, c: seq<byte>)
    requires |file| == |a| + |b| + |c|
    ensures file == a + (b + c) <==> file[..|a|] == a && file[|a|..|a| + |b|] == b && At(file, |a| + |b|, c)
  {
    var t := |a| + |b|;
    AtEnd(file, t, c);
    assert file == file[..|a|] + (file[|a|..t] + file[t..]);
    if file == a + (b + c) {
      assert file[..|a|] == a && file[|a|..t] == b && file[t..] == c;
    }
  }

  lemma {:induction false} TrailerOkIff(crc: Checksum, file: seq<byte>, prefix: seq<byte>, body: seq<byte>)
    requires |file| < U64_LIMIT
    ensures TrailerOk(crc, file) && FooterOffset(file) == |prefix| && file[..|prefix|] == prefix
              && file[|prefix|..|file| - TRAILER_LEN] == body
       <==> file == prefix + (body + Trailer(crc, |prefix|, body))
  {
    hide At, Trailer, Field, FooterMagic;
    if |file| == |prefix| + |body| + TRAILER_LEN {
      TrailerAt(crc, file, |prefix| + |body|, |prefix|, body);
      ThreeParts(file, prefix, body, Trailer(crc, |prefix|, body));
    }
  }

  lemma {:induction false} AtEnd(data: seq<byte>, pos: nat, part: seq<byte>)
    requires pos + |part| == |data|
    ensures At(data, pos, part) <==> data[pos..] == part
  {
    assert data[pos..pos + |part|] == data[pos..];
  }

  /** What the decoder's guards ask of an index beyond its validity. */
  predicate FooterTyped(f: Footer) {
    f.totalRows < U64_LIMIT && |f.groups| <= MAX_COLLECTION_ENTRIES && EntriesTyped(f.groups, 0)
  }

  lemma {:induction false} DecodeBodyIff(body: seq<byte>, f: Footer)
    ensures DecodeBody(body) == Some(f) <==> FooterTyped(f) && body == FooterBody(f)
  {
    hide At, Le, EntriesBytes, EntriesTyped, ReadEntries;
    Pow256Values();
    var (a, b, g) := (Le64(f.totalRows), Le64(|f.groups|), EntriesBytes(f.groups));
    FieldBound(body, 0, 8);
    AtCovers(body, a, b + g);
    AtConcat(body, 8, b, g);
    if f.totalRows < U64_LIMIT {
      AtField(body, 0, 8, f.totalRows);
    }
    if |f.groups| < U64_LIMIT {
      AtField(body, 8, 8, |f.groups|);
    }
    EntriesSize(f.groups);
    if |body| >= 16 {
      ReadEntriesIff(body, 16, f.groups);
      ReadEntriesLen(body, 16, Field(body, 8, 8));
    }
  }

  lemma {:induction false} TypedIsEncodable(gs: seq<GroupEntry>, behind: nat)
    requires EntriesTyped(gs, behind)
    ensures Encodable(gs)
  {
    if gs != [] {
      ColumnsTypedEncodable(gs[0].columns);
      TypedIsEncodable(gs[1..], behind);
    }
  }

  lemma {:induction false} ColumnsTypedEncodable(cs: seq<ColumnEntry>)
    requires ColumnsTyped(cs)
    ensures ColumnsEncodable(cs)
  {
    hide Utf8.Valid;
    if cs != [] {
      ColumnsTypedEncodable(cs[1..]);
    }
  }

  /**
    The footer is canonical: an index decodes from exactly the bytes that appending it to the body in front of
    the footer writes.
  */
  lemma {:induction false} DecodeFooterIff(crc: Checksum, file: seq<byte>, f: Footer)
    requires |file| < U64_LIMIT
    ensures DecodeFooter(crc, file) == Some(f) <==>
            && FooterTyped(f) && FooterOffset(file) <= |file|
            && AppendFooter(crc, file[..FooterOffset(file)], f) == Some(file)
  {
    hide FooterBody, DecodeBody, IndexValid, Encodable, TrailerOk, EntriesTyped, Trailer, FooterOffset;
    if TrailerOk(crc, file) {
      TrailerInside(crc, file);
      var prefix, body := file[..FooterOffset(file)], file[FooterOffset(file)..|file| - TRAILER_LEN];
      TrailerOkIff(crc, file, prefix, body);
      DecodeBodyIff(body, f);
      if FooterTyped(f) {
        TypedIsEncodable(f.groups, 0);
      }
      TrailerOkIff(crc, file, prefix, FooterBody(f));
    } else if FooterOffset(file) <= |file| {
      TrailerOkIff(crc, file, file[..FooterOffset(file)], FooterBody(f));
    }
  }

  lemma {:induction false} TrailerInside(crc: Checksum, file: seq<byte>)
    requires TrailerOk(crc, file)
    ensures TRAILER_LEN <= |file| && FooterOffset(file) <= |file| - TRAILER_LEN
  {
  }

  /** An appended footer is read back. */
  lemma {:induction false} AppendedDecodes(crc: Checksum, prefix: seq<byte>, f: Footer, file: seq<byte>)
    requires AppendFooter(crc, prefix, f) == Some(file) && FooterTyped(f) && |file| < U64_LIMIT
    ensures DecodeFooter(crc, file) == Some(f) && FooterOffset(file) == |prefix|
  {
    hide FooterBody, DecodeBody, IndexValid, Encodable, TrailerOk, EntriesTyped, Trailer, FooterOffset, FooterTyped;
    TrailerOkIff(crc, file, prefix, FooterBody(f));
    assert file[..|prefix|] == prefix;
    DecodeFooterIff(crc, file, f);
  }

  // ----- finding the group of a row -----

  /** Valid groups tile the rows: each begins where the ones before it end. */
  lemma {:induction false} GroupsTile(gs: seq<GroupEntry>, position: nat, row: nat, limit: nat, k: nat)
    requires EntriesValid(gs, position, row, limit) && k <= |gs|
    ensures k < |gs| ==> gs[k].firstRow == row + TotalRows(gs[..k]) && gs[k].rowCount > 0
    ensures k < |gs| ==> TotalRows(gs[..k + 1]) == TotalRows(gs[..k]) + gs[k].rowCount
    ensures TotalRows(gs[..k]) <= TotalRows(gs) && (k == |gs| ==> TotalRows(gs[..k]) == TotalRows(gs))
    decreases |gs|
  {
    hide ColumnsValid;
    if k == 0 {
      assert gs[..0] == [];
      if gs != [] {
        assert gs[..1][1..] == [];
      }
    } else {
      GroupsTile(gs[1..], position + 1, row + gs[0].rowCount, limit, k - 1);
      assert gs[..k][1..] == gs[1..][..k - 1];
      if k < |gs| {
        assert gs[..k + 1][1..] == gs[1..][..k];
      }
    }
  }

  /** `find_row_group_by_row`: binary search finds the one group that owns a row, exactly for the rows of the file. */
  method FindRowGroupByRow(f: Footer, limit: nat, row: nat) returns (r: Option<GroupEntry>)
    requires IndexValid(f, limit)
    ensures r.Some? <==> row < f.totalRows
    ensures r.Some? ==> r.value in f.groups && r.value.firstRow <= row < r.value.firstRow + r.value.rowCount
  {
    hide EntriesValid, TotalRows;
    var gs := f.groups;
    var low, high := 0, |gs|;
    GroupsTile(gs, 0, 0, limit, 0);
    GroupsTile(gs, 0, 0, limit, |gs|);
    NoGroupsNoRows(gs);
    while low < high
      invariant 0 <= low <= high <= |gs|
      invariant low == 0 || gs[low - 1].firstRow <= row
      invariant high == |gs| || gs[high].firstRow > row
    {
      var mid := (low + high) / 2;
      if gs[mid].firstRow <= row {
        low := mid + 1;
      } else {
        high := mid;
      }
    }
    GroupsTile(gs, 0, 0, limit, low);
    if low == 0 {
      return None;
    }
    GroupsTile(gs, 0, 0, limit, low - 1);
    var g := gs[low - 1];
    return if row < g.firstRow + g.rowCount then Some(g) else None;
  }

  lemma {:induction false} EntryAt(gs: seq<GroupEntry>, position: nat, row: nat, limit: nat, k: nat)
    requires EntriesValid(gs, position, row, limit) && k < |gs|
    ensures gs[k].index == position + k && EntryValid(gs[k], limit)
    decreases k
  {
    hide EntryValid;
    if k > 0 {
      EntryAt(gs[1..], position + 1, row + gs[0].rowCount, limit, k - 1);
    }
  }

  /**
    What a decoded index guarantees on arbitrary bytes: groups are numbered in order and their rows follow each other; every
    group lies in front of the footer, and every column's metadata and payload inside its group, under its own name.
  */
  lemma {:induction false} IndexIsSound(crc: Checksum, file: seq<byte>, k: nat)
    requires DecodeFooter(crc, file).Some? && k < |DecodeFooter(crc, file).value.groups|
    ensures var f := DecodeFooter(crc, file).value;
            var g := f.groups[k];
            && g.index == k && g.rowCount > 0 && g.firstRow == TotalRows(f.groups[..k])
            && f.totalRows == TotalRows(f.groups) && g.offset + g.len <= FooterOffset(file)
            && (forall i, j :: 0 <= i < j < |g.columns| ==> g.columns[i].name != g.columns[j].name)
            && forall j :: 0 <= j < |g.columns| ==>
                 var c := g.columns[j];
                 && c.name != [] && c.nullCount <= c.valueCount
                 && g.offset <= c.metadataOffset && c.metadataOffset + c.metadataLen <= g.offset + g.len
                 && g.offset <= c.payloadOffset && c.payloadOffset + c.payloadLen <= g.offset + g.len
  {
    IndexOfFooter(crc, file);
    var f := DecodeFooter(crc, file).value;
    hide DecodeFooter, EntriesValid, TotalRows, FooterOffset;
    EntryAt(f.groups, 0, 0, FooterOffset(file), k);
    GroupsTile(f.groups, 0, 0, FooterOffset(file), k);
    var g := f.groups[k];
    forall j | 0 <= j < |g.columns|
      ensures var c := g.columns[j];
              && c.name != [] && c.nullCount <= c.valueCount
              && g.offset <= c.metadataOffset && c.metadataOffset + c.metadataLen <= g.offset + g.len
              && g.offset <= c.payloadOffset && c.payloadOffset + c.payloadLen <= g.offset + g.len
    {
      assert ColumnValid(g, g.columns[j]);
    }
  }

  lemma {:induction false} IndexOfFooter(crc: Checksum, file: seq<byte>)
    requires DecodeFooter(crc, file).Some?
    ensures IndexValid(DecodeFooter(crc, file).value, FooterOffset(file))
  {
    hide TrailerOk, DecodeBody, IndexValid, FooterOffset;
  }

  lemma {:induction false} NoGroupsNoRows(gs: seq<GroupEntry>)
    ensures TotalRows(gs[..0]) == 0
  {
  }

  // ----- too many groups -----

  /** A file with more row groups than the readers accept has no readable footer. */
  lemma {:induction false} TooManyGroups(crc: Checksum, prefix: seq<byte>, f: Footer, out: seq<byte>)
    requires AppendFooter(crc, prefix, f) == Some(out) && |out| < U64_LIMIT
    requires |f.groups| > MAX_COLLECTION_ENTRIES
    ensures DecodeFooter(crc, out) == None
  {
    hide IndexValid, Encodable, FooterBody, DecodeFooter, TrailerOk, FooterOffset, Trailer;
    var body := FooterBody(f);
    TrailerOkIff(crc, out, prefix, body);
    TrailerInside(crc, out);
    BodyTooLong(f);
    UndecodedBody(crc, out, body);
  }

  lemma {:induction false} UndecodedBody(crc: Checksum, out: seq<byte>, body: seq<byte>)
    requires TrailerOk(crc, out) && FooterOffset(out) <= |out| - TRAILER_LEN
    requires out[FooterOffset(out)..|out| - TRAILER_LEN] == body && DecodeBody(body) == None
    ensures DecodeFooter(crc, out) == None
  {
    hide TrailerOk, FooterOffset, DecodeBody;
  }

  lemma {:induction false} BodyTooLong(f: Footer)
    requires |f.groups| > MAX_COLLECTION_ENTRIES && |FooterBody(f)| < U64_LIMIT
    ensures DecodeBody(FooterBody(f)) == None
  {
    hide DecodeBody, FooterBody, EntriesTyped, Le, FromLe;
    var body := FooterBody(f);
    if DecodeBody(body).Some? {
      var g := DecodeBody(body).value;
      DecodeBodyIff(body, g);
      SameCount(f, g);
      FewGroups(f);
      Pow256Values();
      FromLeOfLe(8, |f.groups|);
      FromLeOfLe(8, |g.groups|);
    }
  }

  lemma {:induction false} FewGroups(f: Footer)
    ensures |f.groups| <= |FooterBody(f)|
  {
    EntriesSize(f.groups);
  }

  /** The number of groups stands in front of them, so equal bodies count equally many (in 64 bits). */
  lemma {:induction false} SameCount(f: Footer, g: Footer)
    requires FooterBody(f) == FooterBody(g)
    ensures Le64(|f.groups|) == Le64(|g.groups|)
  {
    hide EntriesBytes, Le;
    assert Le64(|f.groups|) == FooterBody(f)[8..16] == FooterBody(g)[8..16] == Le64(|g.groups|);
  }
}
