/** Compressed posting lists with a skip table (crates/compact-core/src/search/postings.rs). */
module Postings {
  import opened Wrappers
  import opened Bytes
  import opened Limits
  import Varint

  const HEADER_LEN: nat := 9
  const VERSION: byte := 1

  datatype Posting = Posting(docId: nat, positions: seq<nat>)

  datatype SkipEntry = SkipEntry(
    ordinal: nat,
    firstDocId: nat,
    previousDocId: nat,
    docIdsOffset: nat,
    frequenciesOffset: nat,
    positionsOffset: nat)

  function PostingMagic(): (m: seq<byte>) ensures |m| == 4 { Magic(0x50, 0x53, 0x54, 0x31) }

  // ----- validity -----

  predicate StrictlyIncreasing(values: seq<nat>) {
    forall i, j :: 0 <= i < j < |values| ==> values[i] < values[j]
  }

  function DocIds(ps: seq<Posting>): (ids: seq<nat>)
    ensures |ids| == |ps| && forall k :: 0 <= k < |ps| ==> ids[k] == ps[k].docId
  {
    seq(|ps|, k requires 0 <= k < |ps| => ps[k].docId)
  }

  /** `validate_postings`. */
  predicate Valid(ps: seq<Posting>) {
    StrictlyIncreasing(DocIds(ps)) && forall k :: 0 <= k < |ps| ==> StrictlyIncreasing(ps[k].positions)
  }

  /** 64-bit numbers, as the types of the source guarantee. */
  ghost predicate Typed(ps: seq<Posting>) {
    && |ps| < U64_LIMIT
    && forall k :: 0 <= k < |ps| ==> ps[k].docId < U64_LIMIT && AllU64(ps[k].positions) && |ps[k].positions| < U64_LIMIT
  }

  // ----- encoding -----

  /** The document before entry `k`; the deltas of the first entry count from zero. */
  function Previous(ps: seq<Posting>, k: nat): nat
    requires k <= |ps|
  {
    if k == 0 then 0 else ps[k - 1].docId
  }

  function Delta(x: nat, y: nat): nat { if x >= y then x - y else 0 }

  function DeltasFrom(previous: nat, values: seq<nat>): (deltas: seq<nat>)
    ensures |deltas| == |values|
    decreases |values|
  {
    if values == [] then [] else [Delta(values[0], previous)] + DeltasFrom(values[0], values[1..])
  }

  function DocParts(ps: seq<Posting>): (parts: seq<seq<byte>>)
    ensures |parts| == |ps|
  {
    seq(|ps|, k requires 0 <= k < |ps| => Varint.Encode(Delta(ps[k].docId, Previous(ps, k))))
  }

  function FrequencyParts(ps: seq<Posting>): (parts: seq<seq<byte>>)
    ensures |parts| == |ps|
  {
    seq(|ps|, k requires 0 <= k < |ps| => Varint.Encode(|ps[k].positions|))
  }

  function PositionParts(ps: seq<Posting>): (parts: seq<seq<byte>>)
    ensures |parts| == |ps|
  {
    seq(|ps|, k requires 0 <= k < |ps| => Varint.EncodeAll(DeltasFrom(0, ps[k].positions)))
  }

  /** The entry from which scanning can start at posting `k`. */
  function SkipAt(ps: seq<Posting>, k: nat): SkipEntry
    requires k < |ps|
  {
    SkipEntry(k, ps[k].docId, Previous(ps, k), |Concat(DocParts(ps)[..k])|, |Concat(FrequencyParts(ps)[..k])|,
              |Concat(PositionParts(ps)[..k])|)
  }

  /** `div_ceil` */
  function SkipCount(count: nat, step: nat): nat
    requires step > 0
  {
    (count + step - 1) / step
  }

  /** The ordinal of entry `i` of the skip table. */
  function Ordinal(i: nat, step: nat): nat { i * step }

  /** Every ordinal of the table is inside the list: multiplying cannot overflow once the number of entries is known. */
  lemma OrdinalInside(i: nat, count: nat, step: nat)
    requires step > 0
    ensures i < SkipCount(count, step) <==> Ordinal(i, step) < count
  {
    var q := SkipCount(count, step);
    Quotient(count + step - 1, step);
    if i < q {
      Multiples(i, q, step);
    } else if i > q {
      Multiples(q, i, step);
    }
  }

  lemma Quotient(x: nat, step: nat)
    requires step > 0
    ensures x / step * step <= x < x / step * step + step
  {
    assert x == x / step * step + x % step;
  }

  lemma DivOf(x: nat, q: nat, r: nat, step: nat)
    requires r < step && x == q * step + r
    ensures x / step == q
  {
    if x / step < q {
      Multiples(x / step, q, step);
    } else if x / step > q {
      Multiples(q, x / step, step);
    }
  }

  lemma Multiples(a: nat, b: nat, step: nat)
    requires a < b
    ensures a * step + step <= b * step
  {
    assert (b - a - 1) * step >= 0;
    assert (b - a) * step == (b - a - 1) * step + step;
  }

  function Skips(ps: seq<Posting>, step: nat): (skips: seq<SkipEntry>)
    requires step > 0
    ensures |skips| == SkipCount(|ps|, step)
  {
    seq(SkipCount(|ps|, step), i requires 0 <= i < SkipCount(|ps|, step) => OrdinalInside(i, |ps|, step); SkipAt(ps, Ordinal(i, step)))
  }

  function SkipWords(e: SkipEntry): (w: seq<nat>)
    ensures |w| == 6
  {
    [e.ordinal, e.firstDocId, e.previousDocId, e.docIdsOffset, e.frequenciesOffset, e.positionsOffset]
  }

  function SkipParts(skips: seq<SkipEntry>): (parts: seq<seq<byte>>)
    ensures |parts| == |skips|
  {
    seq(|skips|, k requires 0 <= k < |skips| => Varint.EncodeAll(SkipWords(skips[k])))
  }

  function BodyWords(ps: seq<Posting>, step: nat): (w: seq<nat>)
    requires step > 0
    ensures |w| == 6
  {
    [|ps|, step, |Concat(DocParts(ps))|, |Concat(FrequencyParts(ps))|, |Concat(PositionParts(ps))|, |Concat(SkipParts(Skips(ps, step)))|]
  }

  function Body(ps: seq<Posting>, step: nat): seq<byte>
    requires step > 0
  {
    Varint.EncodeAll(BodyWords(ps, step))
    + (Concat(DocParts(ps)) + (Concat(FrequencyParts(ps)) + (Concat(PositionParts(ps)) + Concat(SkipParts(Skips(ps, step))))))
  }

  /** Magic, version, checksum, body: the envelope of posting lists and dictionaries. */
  function Sealed(crc: Checksum, magic: seq<byte>, body: seq<byte>): seq<byte> {
    magic + ([VERSION] + (Le32(crc(body)) + body))
  }

  /** `encode_postings` */
  function Encode(crc: Checksum, ps: seq<Posting>, step: nat): Option<seq<byte>> {
    if step == 0 || !Valid(ps) then None else Some(Sealed(crc, PostingMagic(), Body(ps, step)))
  }

  // ----- parsing -----

  /** The body of an envelope whose magic, version and checksum are right. */
  function Opened(crc: Checksum, magic: seq<byte>, data: seq<byte>): Option<seq<byte>>
    requires |magic| == 4
  {
    if |data| < HEADER_LEN || data[..4] != magic || data[4] != VERSION then None
    else if crc(data[HEADER_LEN..]) != Field(data, 5, 4) then None
    else Some(data[HEADER_LEN..])
  }

  /** An envelope opens to a body exactly when it is the one with that body's own checksum. */
  lemma {:induction false} OpenedIff(crc: Checksum, magic: seq<byte>, data: seq<byte>, body: seq<byte>)
    requires |magic| == 4
    ensures Opened(crc, magic, data) == Some(body) <==> data == Sealed(crc, magic, body)
  {
    hide Field, Le;
    Pow256Values();
    AtField(data, 5, 4, crc(body));
    var sealed := Sealed(crc, magic, body);
    if data == sealed {
      assert data[4] == VERSION && data[HEADER_LEN..] == body && data[5..9] == Le32(crc(body));
    }
    if Opened(crc, magic, data) == Some(body) {
      assert data == data[..4] + ([data[4]] + (data[5..9] + data[9..]));
    }
  }

  lemma {:induction false} OpenedSealed(crc: Checksum, magic: seq<byte>, body: seq<byte>)
    requires |magic| == 4
    ensures Opened(crc, magic, Sealed(crc, magic, body)) == Some(body)
  {
    hide Opened, Sealed;
    OpenedIff(crc, magic, Sealed(crc, magic, body), body);
  }

  /** `count` varints, one after the other. */
  function ReadVarints(data: seq<byte>, pos: nat, count: nat): Option<(seq<nat>, nat)>
    decreases count
  {
    if count == 0 then Some(([], pos))
    else
      match Varint.Read(data, pos)
      case None => None
      case Some((v, next)) =>
        match ReadVarints(data, next, count - 1) case None => None case Some((rest, end)) => Some(([v] + rest, end))
  }

  lemma {:induction false} ReadsVarints(data: seq<byte>, pos: nat, vs: seq<nat>)
    requires AllU64(vs) && At(data, pos, Varint.EncodeAll(vs))
    ensures ReadVarints(data, pos, |vs|) == Some((vs, pos + |Varint.EncodeAll(vs)|))
    decreases |vs|
  {
    hide At, Varint.Read, Varint.Encode;
    if vs != [] {
      var first := Varint.Encode(vs[0]);
      AtConcat(data, pos, first, Varint.EncodeAll(vs[1..]));
      Varint.ReadIff(data, pos, vs[0], pos + |first|);
      ReadsVarints(data, pos + |first|, vs[1..]);
      assert vs == [vs[0]] + vs[1..];
    }
  }

  datatype ParsedPostingList = ParsedPostingList(
    docCount: nat,
    step: nat,
    docIds: seq<byte>,
    frequencies: seq<byte>,
    positions: seq<byte>,
    skips: seq<SkipEntry>)

  /** `decode_skips` */
  function DecodeSkips(data: seq<byte>, pos: nat): Option<seq<SkipEntry>>
    decreases |data| - pos
  {
    if pos >= |data| then Some([])
    else
      match ReadVarints(data, pos, 6)
      case None => None
      case Some((w, next)) =>
        if next <= pos || next > |data| || |w| != 6 then None
        else
          match DecodeSkips(data, next)
          case None => None
          case Some(rest) => Some([SkipEntry(w[0], w[1], w[2], w[3], w[4], w[5])] + rest)
  }

  /** Six varints advance the cursor inside the data: the extra guards of `DecodeSkips` never fire. */
  lemma {:induction false} ReadVarintsProgress(data: seq<byte>, pos: nat, count: nat)
    requires ReadVarints(data, pos, count).Some?
    ensures |ReadVarints(data, pos, count).value.0| == count
    ensures count > 0 ==> pos < ReadVarints(data, pos, count).value.1 <= |data|
    decreases count
  {
    hide Varint.Read;
    if count > 0 {
      Varint.ReadProgress(data, pos);
      ReadVarintsProgress(data, Varint.Read(data, pos).value.1, count - 1);
    }
  }

  /** `validate_index` */
  predicate IndexValid(docCount: nat, step: nat, docIdsLen: nat, frequenciesLen: nat, positionsLen: nat,
                       skips: seq<SkipEntry>)
    requires step > 0
  {
    && |skips| == SkipCount(docCount, step)
    && (forall i :: 0 <= i < |skips| ==>
          && skips[i].ordinal == Ordinal(i, step) && skips[i].ordinal < docCount
          && skips[i].docIdsOffset <= docIdsLen && skips[i].frequenciesOffset <= frequenciesLen
          && skips[i].positionsOffset <= positionsLen)
    && (forall i, j :: 0 <= i < j < |skips| ==> j > i + 1 || skips[i].firstDocId < skips[j].firstDocId)
  }

  /** The sections of a body behind its six lengths, which have to use it up. */
  function ParseBody(body: seq<byte>): Option<ParsedPostingList> {
    match ReadVarints(body, 0, 6)
    case None => None
    case Some((w, start)) =>
      if |w| != 6 || w[1] == 0 then None
      else
        var f, p, s := start + w[2], start + w[2] + w[3], start + w[2] + w[3] + w[4];
        if s + w[5] != |body| then None
        else
          match DecodeSkips(body[s..], 0)
          case None => None
          case Some(skips) =>
            if !IndexValid(w[0], w[1], w[2], w[3], w[4], skips) then None
            else Some(ParsedPostingList(w[0], w[1], body[start..f], body[f..p], body[p..s], skips))
  }

  /** `ParsedPostingList::parse` */
  function Parse(crc: Checksum, data: seq<byte>): Option<ParsedPostingList> {
    match Opened(crc, PostingMagic(), data) case None => None case Some(body) => ParseBody(body)
  }

  // ----- reading one posting -----

  /** Running sums of `count` varints. */
  function ReadSums(data: seq<byte>, pos: nat, count: nat, previous: nat): Option<(seq<nat>, nat)>
    decreases count
  {
    if count == 0 then Some(([], pos))
    else
      match Varint.Read(data, pos)
      case None => None
      case Some((delta, next)) =>
        if previous + delta >= U64_LIMIT then None
        else
          match ReadSums(data, next, count - 1, previous + delta)
          case None => None
          case Some((rest, end)) => Some(([previous + delta] + rest, end))
  }

  /** `read_positions` */
  function ReadPositions(data: seq<byte>, pos: nat, count: nat): Option<(seq<nat>, nat)> {
    if count > MAX_COLLECTION_ENTRIES || pos + count > |data| then
      // `saturating_sub`: with the cursor at the end only an empty list fits.
      if count == 0 then Some(([], pos)) else None
    else
      match ReadSums(data, pos, count, 0)
      case None => None
      case Some((positions, end)) => if StrictlyIncreasing(positions) then Some((positions, end)) else None
  }

  datatype Cursor = Cursor(doc: nat, frequency: nat, position: nat, previous: nat)

  /** One posting of all three sections, and the cursors behind it. */
  function ReadPosting(l: ParsedPostingList, c: Cursor): Option<(Posting, Cursor)> {
    match Varint.Read(l.docIds, c.doc)
    case None => None
    case Some((delta, doc)) =>
      if c.previous + delta >= U64_LIMIT then None
      else
        match Varint.Read(l.frequencies, c.frequency)
        case None => None
        case Some((count, frequency)) =>
          match ReadPositions(l.positions, c.position, count)
          case None => None
          case Some((positions, position)) =>
            Some((Posting(c.previous + delta, positions), Cursor(doc, frequency, position, c.previous + delta)))
  }

  // ----- decoding and seeking -----

  function DecodeFrom(l: ParsedPostingList, count: nat, c: Cursor): Option<(seq<Posting>, Cursor)>
    decreases count
  {
    if count == 0 then Some(([], c))
    else
      match ReadPosting(l, c)
      case None => None
      case Some((p, next)) =>
        match DecodeFrom(l, count - 1, next) case None => None case Some((rest, end)) => Some(([p] + rest, end))
  }

  /** `decode_all` */
  function DecodeAll(l: ParsedPostingList): Option<seq<Posting>> {
    if l.docCount > MAX_COLLECTION_ENTRIES || l.docCount > |l.docIds| || l.docCount > |l.frequencies| then None
    else
      match DecodeFrom(l, l.docCount, Cursor(0, 0, 0, 0))
      case None => None
      case Some((ps, end)) =>
        if end.doc != |l.docIds| || end.frequency != |l.frequencies| || end.position != |l.positions| then None
        else if !Valid(ps) then None
        else Some(ps)
  }

  function Decode(crc: Checksum, data: seq<byte>): Option<seq<Posting>> {
    match Parse(crc, data) case None => None case Some(l) => DecodeAll(l)
  }

  /** `skip_before_or_at`: the last entry whose first document is not behind the target. */
  function SkipBefore(skips: seq<SkipEntry>, target: nat): Option<SkipEntry> {
    if skips == [] || skips[0].firstDocId > target then None
    else match SkipBefore(skips[1..], target) case None => Some(skips[0]) case Some(e) => Some(e)
  }

  function SeekFrom(l: ParsedPostingList, ordinal: nat, c: Cursor, target: nat): Option<Option<Posting>>
    decreases l.docCount - ordinal
  {
    if ordinal >= l.docCount then Some(None)
    else
      match ReadPosting(l, c)
      case None => None
      case Some((p, next)) =>
        if p.docId == target then Some(Some(p))
        else if p.docId > target then Some(None)
        else SeekFrom(l, ordinal + 1, next, target)
  }

  /** `seek_doc`; the outer None is an error, the inner one a missing document. */
  function Seek(crc: Checksum, data: seq<byte>, target: nat): Option<Option<Posting>> {
    match Parse(crc, data)
    case None => None
    case Some(l) =>
      match SkipBefore(l.skips, target)
      case None => Some(None)
      case Some(e) =>
        SeekFrom(l, e.ordinal, Cursor(e.docIdsOffset, e.frequenciesOffset, e.positionsOffset, e.previousDocId), target)
  }

  /** Looking at every posting: the reference for seeking. */
  function Linear(ps: seq<Posting>, target: nat): Option<Posting> {
    if ps == [] then None else if ps[0].docId == target then Some(ps[0]) else Linear(ps[1..], target)
  }
}
