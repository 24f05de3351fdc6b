/** Which bytes are posting lists and dictionaries (crates/compact-core/src/search): exactly one form for each content. */
module PostingForm {
  import opened Wrappers
  import opened Bytes
  import opened Limits
  import opened Postings
  import opened PostingSeek
  import Dictionary
  import Utf8
  import Varint

  // ----- numbers -----

  lemma {:induction false} VarintsRead(data: seq<byte>, pos: nat, count: nat)
    requires ReadVarints(data, pos, count).Some? && pos <= |data|
    ensures var (vs, end) := ReadVarints(data, pos, count).value;
            && |vs| == count && AllU64(vs) && At(data, pos, Varint.EncodeAll(vs)) && end == pos + |Varint.EncodeAll(vs)|
    decreases count
  {
    hide At, Varint.Read, Varint.Encode;
    if count == 0 {
      AtNothing(data, pos);
    } else {
      var (v, next) := Varint.Read(data, pos).value;
      Varint.ReadIff(data, pos, v, next);
      Varint.ReadProgress(data, pos);
      VarintsRead(data, next, count - 1);
      var rest := ReadVarints(data, next, count - 1).value.0;
      assert ([v] + rest)[1..] == rest;
      AtConcat(data, pos, Varint.Encode(v), Varint.EncodeAll(rest));
    }
  }

  lemma {:induction false} SumsRead(data: seq<byte>, pos: nat, count: nat, previous: nat)
    requires ReadSums(data, pos, count, previous).Some? && pos <= |data|
    ensures var (values, end) := ReadSums(data, pos, count, previous).value;
            && |values| == count && AllU64(values) && (values != [] ==> previous <= values[0])
            && At(data, pos, Varint.EncodeAll(DeltasFrom(previous, values)))
            && end == pos + |Varint.EncodeAll(DeltasFrom(previous, values))|
    decreases count
  {
    hide At, Varint.Read, Varint.Encode;
    if count == 0 {
      AtNothing(data, pos);
    } else {
      var (delta, next) := Varint.Read(data, pos).value;
      Varint.ReadIff(data, pos, delta, next);
      Varint.ReadProgress(data, pos);
      SumsRead(data, next, count - 1, previous + delta);
      var rest := ReadSums(data, next, count - 1, previous + delta).value.0;
      var values := [previous + delta] + rest;
      DeltasCons(previous, delta, rest);
      hide DeltasFrom, Varint.EncodeAll;
      AtConcat(data, pos, Varint.Encode(delta), Varint.EncodeAll(DeltasFrom(previous + delta, rest)));
    }
  }

  lemma {:induction false} DeltasCons(previous: nat, delta: nat, rest: seq<nat>)
    ensures Varint.EncodeAll(DeltasFrom(previous, [previous + delta] + rest))
         == Varint.Encode(delta) + Varint.EncodeAll(DeltasFrom(previous + delta, rest))
  {
    hide Varint.Encode;
    var (values, deltas) := ([previous + delta] + rest, DeltasFrom(previous + delta, rest));
    assert values[1..] == rest;
    assert DeltasFrom(previous, values) == [delta] + deltas && ([delta] + deltas)[1..] == deltas;
  }

  lemma {:induction false} PositionsRead(data: seq<byte>, pos: nat, count: nat)
    requires ReadPositions(data, pos, count).Some? && pos <= |data|
    ensures var (positions, end) := ReadPositions(data, pos, count).value;
            && |positions| == count <= MAX_COLLECTION_ENTRIES && AllU64(positions) && StrictlyIncreasing(positions)
            && At(data, pos, Varint.EncodeAll(DeltasFrom(0, positions)))
            && end == pos + |Varint.EncodeAll(DeltasFrom(0, positions))|
  {
    hide At, ReadSums, Varint.EncodeAll;
    if count > MAX_COLLECTION_ENTRIES || pos + count > |data| {
      NoPositions(data, pos);
    } else {
      SumsRead(data, pos, count, 0);
    }
  }

  lemma {:induction false} NoPositions(data: seq<byte>, pos: nat)
    requires pos <= |data|
    ensures Varint.EncodeAll(DeltasFrom(0, [])) == [] && At(data, pos, [])
  {
  }

  // ----- the sections -----

  /** The document section of postings behind document `previous`. */
  function DocsFrom(previous: nat, ps: seq<Posting>): seq<byte>
    decreases |ps|
  {
    if ps == [] then [] else Varint.Encode(Delta(ps[0].docId, previous)) + DocsFrom(ps[0].docId, ps[1..])
  }

  function FrequenciesOf(ps: seq<Posting>): seq<byte> {
    if ps == [] then [] else Varint.Encode(|ps[0].positions|) + FrequenciesOf(ps[1..])
  }

  function PositionsOf(ps: seq<Posting>): seq<byte> {
    if ps == [] then [] else Varint.EncodeAll(DeltasFrom(0, ps[0].positions)) + PositionsOf(ps[1..])
  }

  lemma {:induction false} DocsAre(ps: seq<Posting>, k: nat)
    requires k <= |ps|
    ensures DocsFrom(Previous(ps, k), ps[k..]) == Concat(DocParts(ps)[k..])
    decreases |ps| - k
  {
    hide Varint.Encode;
    if k < |ps| {
      DocsAre(ps, k + 1);
      assert ps[k..][1..] == ps[k + 1..] && DocParts(ps)[k..][1..] == DocParts(ps)[k + 1..];
    }
  }

  lemma {:induction false} OthersAre(ps: seq<Posting>)
    ensures FrequenciesOf(ps) == Concat(FrequencyParts(ps)) && PositionsOf(ps) == Concat(PositionParts(ps))
    decreases |ps|
  {
    hide Varint.Encode, Varint.EncodeAll;
    if ps != [] {
      OthersAre(ps[1..]);
      assert FrequencyParts(ps)[1..] == FrequencyParts(ps[1..]) && PositionParts(ps)[1..] == PositionParts(ps[1..]);
    }
  }

  lemma {:induction false} SectionsAre(ps: seq<Posting>)
    ensures DocsFrom(0, ps) == Concat(DocParts(ps))
    ensures FrequenciesOf(ps) == Concat(FrequencyParts(ps)) && PositionsOf(ps) == Concat(PositionParts(ps))
  {
    hide DocParts;
    DocsAre(ps, 0);
    OthersAre(ps);
    assert ps[0..] == ps && DocParts(ps)[0..] == DocParts(ps);
  }

  /** The cursors lie inside their sections. */
  predicate Inside(l: ParsedPostingList, c: Cursor) {
    c.doc <= |l.docIds| && c.frequency <= |l.frequencies| && c.position <= |l.positions|
  }

  ghost predicate Fits(p: Posting) {
    p.docId < U64_LIMIT && AllU64(p.positions) && |p.positions| <= MAX_COLLECTION_ENTRIES && StrictlyIncreasing(p.positions)
  }

  /** One posting that is read stands in all three sections. */
  lemma {:induction false} PostingRead(l: ParsedPostingList, c: Cursor)
    requires ReadPosting(l, c).Some? && Inside(l, c)
    ensures var (p, next) := ReadPosting(l, c).value;
            && Fits(p) && next.previous == p.docId && Inside(l, next)
            && At(l.docIds, c.doc, Varint.Encode(Delta(p.docId, c.previous)))
            && next.doc == c.doc + |Varint.Encode(Delta(p.docId, c.previous))|
            && At(l.frequencies, c.frequency, Varint.Encode(|p.positions|))
            && next.frequency == c.frequency + |Varint.Encode(|p.positions|)|
            && At(l.positions, c.position, Varint.EncodeAll(DeltasFrom(0, p.positions)))
            && next.position == c.position + |Varint.EncodeAll(DeltasFrom(0, p.positions))|
  {
    hide At, Varint.Read, Varint.Encode, Varint.EncodeAll, ReadPositions, DeltasFrom;
    var (delta, doc) := Varint.Read(l.docIds, c.doc).value;
    var (count, frequency) := Varint.Read(l.frequencies, c.frequency).value;
    Varint.ReadIff(l.docIds, c.doc, delta, doc);
    Varint.ReadIff(l.frequencies, c.frequency, count, frequency);
    Varint.ReadProgress(l.docIds, c.doc);
    Varint.ReadProgress(l.frequencies, c.frequency);
    PositionsRead(l.positions, c.position, count);
    var (positions, end) := ReadPositions(l.positions, c.position, count).value;
    AtInside(l.positions, c.position, Varint.EncodeAll(DeltasFrom(0, positions)));
  }

  /** The postings `ps` stand in all three sections from the cursor `c` to the cursor `end`. */
  ghost predicate Stand(l: ParsedPostingList, c: Cursor, ps: seq<Posting>, end: Cursor) {
    && At(l.docIds, c.doc, DocsFrom(c.previous, ps)) && end.doc == c.doc + |DocsFrom(c.previous, ps)|
    && At(l.frequencies, c.frequency, FrequenciesOf(ps)) && end.frequency == c.frequency + |FrequenciesOf(ps)|
    && At(l.positions, c.position, PositionsOf(ps)) && end.position == c.position + |PositionsOf(ps)|
  }

  lemma {:induction false} StandCons(l: ParsedPostingList, c: Cursor, p: Posting, next: Cursor, rest: seq<Posting>,
                                     end: Cursor)
    requires ReadPosting(l, c) == Some((p, next)) && Inside(l, c) && Stand(l, next, rest, end)
    ensures Stand(l, c, [p] + rest, end)
  {
    hide At, ReadPosting, Varint.Encode, Varint.EncodeAll, DeltasFrom;
    PostingRead(l, c);
    assert ([p] + rest)[1..] == rest;
    AtConcat(l.docIds, c.doc, Varint.Encode(Delta(p.docId, c.previous)), DocsFrom(p.docId, rest));
    AtConcat(l.frequencies, c.frequency, Varint.Encode(|p.positions|), FrequenciesOf(rest));
    AtConcat(l.positions, c.position, Varint.EncodeAll(DeltasFrom(0, p.positions)), PositionsOf(rest));
  }

  lemma {:induction false} DecodedStand(l: ParsedPostingList, count: nat, c: Cursor)
    requires DecodeFrom(l, count, c).Some? && Inside(l, c)
    ensures var (ps, end) := DecodeFrom(l, count, c).value;
            |ps| == count && (forall k :: 0 <= k < count ==> Fits(ps[k])) && Stand(l, c, ps, end)
    decreases count
  {
    hide ReadPosting, Fits;
    if count == 0 {
      NothingStands(l, c);
    } else {
      hide Stand, Inside;
      PostingRead(l, c);
      var (p, next) := ReadPosting(l, c).value;
      DecodedStand(l, count - 1, next);
      var (rest, end) := DecodeFrom(l, count - 1, next).value;
      StandCons(l, c, p, next, rest, end);
    }
  }

  lemma {:induction false} NothingStands(l: ParsedPostingList, c: Cursor)
    requires Inside(l, c)
    ensures Stand(l, c, [], c)
  {
  }

  /** A posting list that a decoder accepts: valid, of 64-bit numbers, and within the limits on its lengths. */
  ghost predicate Acceptable(ps: seq<Posting>) {
    Valid(ps) && Typed(ps) && PositionsWithinLimit(ps) && |ps| <= MAX_COLLECTION_ENTRIES
  }

  /** The three sections are those of these postings. */
  ghost predicate SectionsOf(l: ParsedPostingList, ps: seq<Posting>) {
    && l.docCount == |ps| && l.docIds == Concat(DocParts(ps))
    && l.frequencies == Concat(FrequencyParts(ps)) && l.positions == Concat(PositionParts(ps))
  }

  lemma {:induction false} SameSections(l: ParsedPostingList, m: ParsedPostingList, count: nat, c: Cursor)
    requires l.docIds == m.docIds && l.frequencies == m.frequencies && l.positions == m.positions
    ensures DecodeFrom(l, count, c) == DecodeFrom(m, count, c)
    decreases count
  {
    hide Varint.Read, ReadPositions;
    if count > 0 && ReadPosting(l, c).Some? {
      SameSections(l, m, count - 1, ReadPosting(l, c).value.1);
    }
  }

  lemma {:induction false} WholeSection(data: seq<byte>, part: seq<byte>)
    requires At(data, 0, part) && |part| == |data|
    ensures data == part
  {
    assert data[0..|data|] == data;
  }

  /** Sections decode to postings exactly when they are the sections of these, and a reader accepts them. */
  lemma {:induction false} DecodeAllIff(l: ParsedPostingList, ps: seq<Posting>)
    ensures DecodeAll(l) == Some(ps) <==> Acceptable(ps) && SectionsOf(l, ps)
  {
    hide DecodeFrom, Valid, Fits, Stand, DocParts, FrequencyParts, PositionParts, Concat, Skips;
    if DecodeAll(l) == Some(ps) {
      var c := Cursor(0, 0, 0, 0);
      DecodedStand(l, l.docCount, c);
      StandWhole(l, ps, DecodeFrom(l, l.docCount, c).value.1);
      AllFit(ps);
    }
    if Acceptable(ps) && SectionsOf(l, ps) {
      DecodesAll(ps, 1);
      SameSections(l, ListOf(ps, 1), |ps|, Cursor(0, 0, 0, 0));
    }
  }

  lemma {:induction false} StandWhole(l: ParsedPostingList, ps: seq<Posting>, end: Cursor)
    requires Stand(l, Cursor(0, 0, 0, 0), ps, end)
    requires end.doc == |l.docIds| && end.frequency == |l.frequencies| && end.position == |l.positions|
    ensures l.docIds == Concat(DocParts(ps))
    ensures l.frequencies == Concat(FrequencyParts(ps)) && l.positions == Concat(PositionParts(ps))
  {
    hide At, DocsFrom, FrequenciesOf, PositionsOf, DocParts, FrequencyParts, PositionParts, Concat;
    SectionsAre(ps);
    WholeSection(l.docIds, DocsFrom(0, ps));
    WholeSection(l.frequencies, FrequenciesOf(ps));
    WholeSection(l.positions, PositionsOf(ps));
  }

  lemma {:induction false} AllFit(ps: seq<Posting>)
    requires |ps| <= MAX_COLLECTION_ENTRIES && forall k :: 0 <= k < |ps| ==> Fits(ps[k])
    ensures Typed(ps) && PositionsWithinLimit(ps)
  {
  }

  // ----- the body of a posting list -----

  lemma {:induction false} SkipsRead(data: seq<byte>, pos: nat)
    requires DecodeSkips(data, pos).Some? && pos <= |data|
    ensures var skips := DecodeSkips(data, pos).value;
            && (forall i :: 0 <= i < |skips| ==> AllU64(SkipWords(skips[i])))
            && At(data, pos, Concat(SkipParts(skips))) && pos + |Concat(SkipParts(skips))| == |data|
    decreases |data| - pos
  {
    hide At, ReadVarints, Varint.EncodeAll;
    if pos == |data| {
      AtNothing(data, pos);
    } else {
      var (w, next) := ReadVarints(data, pos, 6).value;
      VarintsRead(data, pos, 6);
      SkipsRead(data, next);
      var rest := DecodeSkips(data, next).value;
      var e := SkipEntry(w[0], w[1], w[2], w[3], w[4], w[5]);
      var skips := [e] + rest;
      assert SkipWords(e) == w;
      assert SkipParts(skips)[0] == Varint.EncodeAll(w) && SkipParts(skips)[1..] == SkipParts(rest);
      AtConcat(data, pos, Varint.EncodeAll(w), Concat(SkipParts(rest)));
    }
  }

  /** A skip table that a reader accepts. */
  ghost predicate TableOk(l: ParsedPostingList) {
    && 0 < l.step
    && IndexValid(l.docCount, l.step, |l.docIds|, |l.frequencies|, |l.positions|, l.skips)
    && forall i :: 0 <= i < |l.skips| ==> AllU64(SkipWords(l.skips[i]))
  }

  function FormWords(l: ParsedPostingList): (w: seq<nat>)
    ensures |w| == 6
  {
    [l.docCount, l.step, |l.docIds|, |l.frequencies|, |l.positions|, |Concat(SkipParts(l.skips))|]
  }

  /** Six lengths, the three sections and the skip table. */
  function FormOf(l: ParsedPostingList): seq<byte> {
    Varint.EncodeAll(FormWords(l)) + (l.docIds + (l.frequencies + (l.positions + Concat(SkipParts(l.skips)))))
  }

  lemma {:induction false} FiveParts(body: seq<byte>, h: nat, a: seq<byte>, b: seq<byte>, c: seq<byte>, d: seq<byte>)
    requires h + |a| + |b| + |c| + |d| == |body|
    requires body[h..h + |a|] == a && body[h + |a|..h + |a| + |b|] == b
    requires body[h + |a| + |b|..h + |a| + |b| + |c|] == c && body[h + |a| + |b| + |c|..] == d
    ensures body == body[..h] + (a + (b + (c + d)))
  {
  }

  /** A body parses exactly when it is the form of its sections and its skip table. */
  lemma {:induction false} ParseBodyIff(body: seq<byte>, l: ParsedPostingList)
    ensures ParseBody(body) == Some(l) <==> TableOk(l) && AllU64(FormWords(l)) && body == FormOf(l)
  {
    hide At, Concat, SkipParts, Varint.EncodeAll, ReadVarints, DecodeSkips, IndexValid;
    if ParseBody(body) == Some(l) {
      BodyParsed(body);
    }
    if TableOk(l) && AllU64(FormWords(l)) && body == FormOf(l) {
      FormParses(l);
    }
  }

  lemma {:induction false} BodyParsed(body: seq<byte>)
    requires ParseBody(body).Some?
    ensures var l := ParseBody(body).value;
            TableOk(l) && AllU64(FormWords(l)) && body == FormOf(l)
  {
    hide At, Concat, SkipParts, Varint.EncodeAll, ReadVarints, DecodeSkips, IndexValid;
    var (w, start) := ReadVarints(body, 0, 6).value;
    VarintsRead(body, 0, 6);
    AtInside(body, 0, Varint.EncodeAll(w));
    var f, p, s := start + w[2], start + w[2] + w[3], start + w[2] + w[3] + w[4];
    SkipsRead(body[s..], 0);
    var l := ParseBody(body).value;
    var table := Concat(SkipParts(l.skips));
    WholeSection(body[s..], table);
    assert FormWords(l) == w;
    FiveParts(body, start, l.docIds, l.frequencies, l.positions, table);
    assert body[0..start] == body[..start];
  }

  lemma {:induction false} FormParses(l: ParsedPostingList)
    requires TableOk(l) && AllU64(FormWords(l))
    ensures ParseBody(FormOf(l)) == Some(l)
  {
    hide At, Concat, SkipParts, Varint.EncodeAll, ReadVarints, DecodeSkips, IndexValid;
    var (body, w, table) := (FormOf(l), FormWords(l), Concat(SkipParts(l.skips)));
    var (head, a, b, c) := (Varint.EncodeAll(w), l.docIds, l.frequencies, l.positions);
    AtWhole(body);
    AtConcat(body, 0, head, a + (b + (c + table)));
    ReadsVarints(body, 0, w);
    var (f, p, s) := (|head| + |a|, |head| + |a| + |b|, |head| + |a| + |b| + |c|);
    assert body[|head|..f] == a && body[f..p] == b && body[p..s] == c && body[s..] == table;
    AtWhole(table);
    DecodesSkips(table, 0, l.skips);
  }

  /**
    A posting list decodes exactly from its own form: right magic, version and checksum, its six lengths, the sections of
    its postings in canonical varints, and a skip table within its checks. Nothing else is accepted.
  */
  lemma {:induction false} DecodeIff(crc: Checksum, data: seq<byte>, ps: seq<Posting>)
    ensures Postings.Decode(crc, data) == Some(ps) <==>
            exists l :: && Acceptable(ps) && SectionsOf(l, ps) && TableOk(l) && AllU64(FormWords(l))
                        && data == Sealed(crc, PostingMagic(), FormOf(l))
  {
    hide Acceptable, SectionsOf, TableOk, FormWords, FormOf, DecodeAll, ParseBody, Sealed, Opened, AllU64;
    if Postings.Decode(crc, data) == Some(ps) {
      var body := Opened(crc, PostingMagic(), data).value;
      var l := ParseBody(body).value;
      OpenedIff(crc, PostingMagic(), data, body);
      ParseBodyIff(body, l);
      DecodeAllIff(l, ps);
    }
    if l :| && Acceptable(ps) && SectionsOf(l, ps) && TableOk(l) && AllU64(FormWords(l))
            && data == Sealed(crc, PostingMagic(), FormOf(l)) {
      OpenedIff(crc, PostingMagic(), data, FormOf(l));
      ParseBodyIff(FormOf(l), l);
      DecodeAllIff(l, ps);
    }
  }

  // ----- dictionaries -----

  lemma {:induction false} EntryRead(data: seq<byte>, pos: nat)
    requires Dictionary.ReadEntry(data, pos).Some?
    ensures var (e, next) := Dictionary.ReadEntry(data, pos).value;
            && At(data, pos, Dictionary.EntryBytes(e)) && next == pos + |Dictionary.EntryBytes(e)|
            && Utf8.Valid(e.term) && |e.term| < U64_LIMIT && e.docCount < U64_LIMIT
  {
    hide At, Varint.Read, Varint.Encode, Varint.EncodeAll, ReadVarints, Utf8.Valid;
    var (len, start) := Varint.Read(data, pos).value;
    Varint.ReadIff(data, pos, len, start);
    VarintsRead(data, start + len, 3);
    var (e, next) := Dictionary.ReadEntry(data, pos).value;
    AtSlice(data, start, e.term);
    var w := ReadVarints(data, start + len, 3).value.0;
    assert w == [e.offset, e.len, e.docCount];
    AtConcat(data, pos, Varint.Encode(len) + e.term, Varint.EncodeAll(w));
    AtConcat(data, pos, Varint.Encode(len), e.term);
  }

  lemma {:induction false} EntriesRead(data: seq<byte>, pos: nat, count: nat, previous: Dictionary.Text, expected: nat,
                                       limit: nat)
    requires Dictionary.DecodeEntries(data, pos, count, previous, expected, limit).Some? && pos <= |data|
    ensures var (es, end) := Dictionary.DecodeEntries(data, pos, count, previous, expected, limit).value;
            && |es| == count && Dictionary.Follow(es, previous, expected, limit)
            && At(data, pos, Dictionary.EntriesBytes(es)) && end == pos + |Dictionary.EntriesBytes(es)|
    decreases count
  {
    hide At, Dictionary.EntryBytes, Dictionary.ReadEntry, Dictionary.Less, Utf8.Valid;
    if count == 0 {
      AtNothing(data, pos);
    } else {
      EntryRead(data, pos);
      var (e, next) := Dictionary.ReadEntry(data, pos).value;
      AtInside(data, pos, Dictionary.EntryBytes(e));
      EntriesRead(data, next, count - 1, e.term, expected + e.len, limit);
      var rest := Dictionary.DecodeEntries(data, next, count - 1, e.term, expected + e.len, limit).value.0;
      assert ([e] + rest)[1..] == rest;
      AtConcat(data, pos, Dictionary.EntryBytes(e), Dictionary.EntriesBytes(rest));
    }
  }

  /** Three lengths, the entries and the posting lists. */
  function DictionaryForm(p: Dictionary.ParsedDictionary): seq<byte> {
    var entries := Dictionary.EntriesBytes(p.entries);
    Varint.EncodeAll([|p.entries|, |entries|, |p.blob|]) + (entries + p.blob)
  }

  /** A term index that a reader accepts: terms increase, and their lists follow each other inside the blob. */
  ghost predicate DictionaryOk(p: Dictionary.ParsedDictionary) {
    && |p.entries| <= MAX_COLLECTION_ENTRIES && Dictionary.Follow(p.entries, [], 0, |p.blob|)
    && |Dictionary.EntriesBytes(p.entries)| < U64_LIMIT && |p.blob| < U64_LIMIT
  }

  lemma {:induction false} DictionaryParsed(body: seq<byte>)
    requires Dictionary.ParseBody(body).Some?
    ensures DictionaryOk(Dictionary.ParseBody(body).value) && body == DictionaryForm(Dictionary.ParseBody(body).value)
  {
    hide At, Varint.EncodeAll, ReadVarints, Dictionary.DecodeEntries, Dictionary.EntriesBytes, Dictionary.Follow;
    var (w, start) := ReadVarints(body, 0, 3).value;
    VarintsRead(body, 0, 3);
    AtInside(body, 0, Varint.EncodeAll(w));
    var (data, blob) := (body[start..start + w[1]], body[start + w[1]..]);
    EntriesRead(data, 0, w[0], [], 0, w[2]);
    var es := Dictionary.DecodeEntries(data, 0, w[0], [], 0, w[2]).value.0;
    WholeSection(data, Dictionary.EntriesBytes(es));
    assert w == [|es|, |data|, |blob|];
    assert body[0..start] == body[..start];
    assert body == body[..start] + (data + blob);
  }

  lemma {:induction false} FormIsParsed(p: Dictionary.ParsedDictionary)
    requires DictionaryOk(p)
    ensures Dictionary.ParseBody(DictionaryForm(p)) == Some(p)
  {
    hide At, Varint.EncodeAll, ReadVarints, Dictionary.DecodeEntries, Dictionary.EntriesBytes, Dictionary.Follow;
    var (es, blob, dict) := (p.entries, p.blob, Dictionary.EntriesBytes(p.entries));
    var (body, w) := (DictionaryForm(p), [|es|, |dict|, |blob|]);
    var head := Varint.EncodeAll(w);
    AtWhole(body);
    AtConcat(body, 0, head, dict + blob);
    ReadsVarints(body, 0, w);
    assert body[|head|..|head| + |dict|] == dict && body[|head| + |dict|..] == blob;
    AtWhole(dict);
    Dictionary.DecodesEntries(dict, 0, es, [], 0, |blob|);
    TermsFollow(es, [], 0, |blob|);
    Dictionary.EntriesSize(es);
  }

  lemma {:induction false} TermsFollow(es: seq<Dictionary.TermEntry>, previous: Dictionary.Text, expected: nat,
                                       limit: nat)
    requires Dictionary.Follow(es, previous, expected, limit)
    ensures forall k :: 0 <= k < |es| ==> es[k].term != []
    decreases |es|
  {
    hide Dictionary.Less, Utf8.Valid;
    if es != [] {
      TermsFollow(es[1..], es[0].term, expected + es[0].len, limit);
      assert es == [es[0]] + es[1..];
    }
  }

  /**
    A dictionary is read exactly from its own form: right magic, version and checksum, its three lengths, entries of
    increasing terms whose posting lists follow each other without gaps, and these lists.
  */
  lemma {:induction false} DictionaryIff(crc: Checksum, data: seq<byte>, p: Dictionary.ParsedDictionary)
    ensures Dictionary.Parse(crc, data) == Some(p) <==>
            DictionaryOk(p) && data == Sealed(crc, Dictionary.TermMagic(), DictionaryForm(p))
  {
    hide DictionaryOk, DictionaryForm, Dictionary.ParseBody, Sealed, Opened;
    if Dictionary.Parse(crc, data) == Some(p) {
      var body := Opened(crc, Dictionary.TermMagic(), data).value;
      OpenedIff(crc, Dictionary.TermMagic(), data, body);
      DictionaryParsed(body);
    }
    if DictionaryOk(p) && data == Sealed(crc, Dictionary.TermMagic(), DictionaryForm(p)) {
      OpenedIff(crc, Dictionary.TermMagic(), data, DictionaryForm(p));
      FormIsParsed(p);
    }
  }
}
