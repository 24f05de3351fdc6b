/** Term dictionaries over posting lists (crates/compact-core/src/search/dictionary.rs). */
module Dictionary {
  import opened Wrappers
  import opened Bytes
  import opened Limits
  import opened Postings
  import opened PostingSeek
  import Utf8
  import Varint

  type Text = seq<byte>

  datatype TermList = TermList(term: Text, postings: seq<Posting>)

  datatype TermEntry = TermEntry(term: Text, offset: nat, len: nat, docCount: nat)

  const MIN_TERM_ENTRY_LEN: nat := 5

  function TermMagic(): (m: seq<byte>) ensures |m| == 4 { Magic(0x54, 0x52, 0x4D, 0x31) }

  // ----- the order of terms -----

  /** The order of strings: byte by byte. */
  predicate Less(a: Text, b: Text) {
    if b == [] then false
    else if a == [] then true
    else a[0] < b[0] || (a[0] == b[0] && Less(a[1..], b[1..]))
  }

  lemma {:induction false} LessTotal(a: Text, b: Text)
    ensures Less(a, b) || Less(b, a) || a == b
    ensures !(Less(a, b) && Less(b, a)) && !(Less(a, b) && a == b)
    decreases |a|
  {
    if a != [] && b != [] {
      LessTotal(a[1..], b[1..]);
      assert a == [a[0]] + a[1..] && b == [b[0]] + b[1..];
    }
  }

  /** Terms are ordered by their first different byte; a proper prefix comes first. */
  lemma {:induction false} LessIff(a: Text, b: Text)
    ensures Less(a, b) <==> exists k: nat :: FirstDifference(a, b, k)
    decreases |a|
  {
    if b != [] && a == [] {
      assert FirstDifference(a, b, 0);
    } else if b != [] {
      LessIff(a[1..], b[1..]);
      if a[0] < b[0] {
        assert FirstDifference(a, b, 0);
      } else if Less(a, b) {
        var k: nat :| FirstDifference(a[1..], b[1..], k);
        assert a[..k + 1] == [a[0]] + a[1..][..k] && b[..k + 1] == [b[0]] + b[1..][..k];
        assert FirstDifference(a, b, k + 1);
      }
      if k: nat :| FirstDifference(a, b, k) {
        if k > 0 {
          assert a[0] == a[..k][0] == b[..k][0];
          assert a[1..][..k - 1] == a[..k][1..] && b[1..][..k - 1] == b[..k][1..];
          assert FirstDifference(a[1..], b[1..], k - 1);
        }
      }
    }
  }

  /** Both agree up to byte `k`, where `a` ends or has the smaller byte. */
  ghost predicate FirstDifference(a: Text, b: Text, k: nat) {
    k <= |a| && k < |b| && a[..k] == b[..k] && (k < |a| ==> a[k] < b[k])
  }

  lemma {:induction false} LessTransitive(a: Text, b: Text, c: Text)
    requires Less(a, b) && Less(b, c)
    ensures Less(a, c)
    decreases |a|
  {
    if a != [] && a[0] == b[0] && b[0] == c[0] {
      LessTransitive(a[1..], b[1..], c[1..]);
    }
  }

  // ----- encoding -----

  /** `validate_terms`, and likewise the check of decoded terms: neighbours only. */
  predicate TermsIncrease(terms: seq<Text>) {
    && (forall k :: 0 <= k < |terms| ==> terms[k] != [])
    && (forall i, j :: 0 <= i < j < |terms| ==> j > i + 1 || Less(terms[i], terms[j]))
  }

  function TermsOf(lists: seq<TermList>): (terms: seq<Text>)
    ensures |terms| == |lists| && forall k :: 0 <= k < |lists| ==> terms[k] == lists[k].term
  {
    seq(|lists|, k requires 0 <= k < |lists| => lists[k].term)
  }

  function Payloads(crc: Checksum, lists: seq<TermList>, step: nat): Option<seq<seq<byte>>> {
    if lists == [] then Some([])
    else
      match Postings.Encode(crc, lists[0].postings, step)
      case None => None
      case Some(p) => match Payloads(crc, lists[1..], step) case None => None case Some(rest) => Some([p] + rest)
  }

  /** The index entry of list `k` when the payloads stand one after the other. */
  function EntryOf(lists: seq<TermList>, payloads: seq<seq<byte>>, k: nat): TermEntry
    requires k < |lists| == |payloads|
  {
    TermEntry(lists[k].term, |Concat(payloads[..k])|, |payloads[k]|, |lists[k].postings|)
  }

  function EntriesOf(lists: seq<TermList>, payloads: seq<seq<byte>>): (entries: seq<TermEntry>)
    requires |lists| == |payloads|
    ensures |entries| == |lists|
  {
    seq(|lists|, k requires 0 <= k < |lists| => EntryOf(lists, payloads, k))
  }

  function EntryBytes(e: TermEntry): seq<byte> {
    (Varint.Encode(|e.term|) + e.term) + Varint.EncodeAll([e.offset, e.len, e.docCount])
  }

  function EntriesBytes(es: seq<TermEntry>): seq<byte> {
    if es == [] then [] else EntryBytes(es[0]) + EntriesBytes(es[1..])
  }

  function Body(lists: seq<TermList>, payloads: seq<seq<byte>>): seq<byte>
    requires |lists| == |payloads|
  {
    var entries, blob := EntriesBytes(EntriesOf(lists, payloads)), Concat(payloads);
    Varint.EncodeAll([|lists|, |entries|, |blob|]) + (entries + blob)
  }

  lemma {:induction false} PayloadsLen(crc: Checksum, lists: seq<TermList>, step: nat)
    requires Payloads(crc, lists, step).Some?
    ensures |Payloads(crc, lists, step).value| == |lists|
    ensures forall k :: 0 <= k < |lists| ==> Postings.Encode(crc, lists[k].postings, step) == Some(Payloads(crc, lists, step).value[k])
  {
    hide Postings.Encode;
    if lists != [] {
      PayloadsLen(crc, lists[1..], step);
    }
  }

  /** `encode_dictionary` */
  function Encode(crc: Checksum, lists: seq<TermList>, step: nat): Option<seq<byte>> {
    if !TermsIncrease(TermsOf(lists)) then None
    else
      match Payloads(crc, lists, step)
      case None => None
      case Some(payloads) => PayloadsLen(crc, lists, step); Some(Sealed(crc, TermMagic(), Body(lists, payloads)))
  }

  // ----- parsing -----

  datatype ParsedDictionary = ParsedDictionary(entries: seq<TermEntry>, blob: seq<byte>)

  function ReadEntry(data: seq<byte>, pos: nat): Option<(TermEntry, nat)> {
    match Varint.Read(data, pos)
    case None => None
    case Some((len, start)) =>
      if start + len > |data| || !Utf8.Valid(data[start..start + len]) then None
      else
        match ReadVarints(data, start + len, 3)
        case None => None
        case Some((w, next)) =>
          if |w| != 3 then None else Some((TermEntry(data[start..start + len], w[0], w[1], w[2]), next))
  }

  /** The loop of `decode_entries`: terms increase, ranges stay inside the postings and follow each other. */
  function DecodeEntries(data: seq<byte>, pos: nat, count: nat, previous: Text, expected: nat,
                         limit: nat): Option<(seq<TermEntry>, nat)>
    decreases count
  {
    if count == 0 then Some(([], pos))
    else
      match ReadEntry(data, pos)
      case None => None
      case Some((e, next)) =>
        if e.term == [] || !Less(previous, e.term) then None
        else if e.offset + e.len > limit || e.offset != expected then None
        else
          match DecodeEntries(data, next, count - 1, e.term, expected + e.len, limit)
          case None => None
          case Some((rest, end)) => Some(([e] + rest, end))
  }

  function ParseBody(body: seq<byte>): Option<ParsedDictionary> {
    match ReadVarints(body, 0, 3)
    case None => None
    case Some((w, start)) =>
      if |w| != 3 || start + w[1] + w[2] != |body| then None
      else
        var (data, blob) := (body[start..start + w[1]], body[start + w[1]..]);
        if w[0] > MAX_COLLECTION_ENTRIES || w[0] > |data| / MIN_TERM_ENTRY_LEN then None
        else
          match DecodeEntries(data, 0, w[0], [], 0, w[2])
          case None => None
          case Some((entries, end)) => if end != |data| then None else Some(ParsedDictionary(entries, blob))
  }

  function Parse(crc: Checksum, data: seq<byte>): Option<ParsedDictionary> {
    match Opened(crc, TermMagic(), data) case None => None case Some(body) => ParseBody(body)
  }

  // ----- lookups -----

  function Find(entries: seq<TermEntry>, term: Text): Option<TermEntry> {
    if entries == [] then None else if entries[0].term == term then Some(entries[0]) else Find(entries[1..], term)
  }

  function Payload(p: ParsedDictionary, e: TermEntry): seq<byte> {
    if e.offset + e.len <= |p.blob| then p.blob[e.offset..e.offset + e.len] else []
  }

  /** `lookup_term`; the outer None is an error, the inner one a missing term. */
  function Lookup(crc: Checksum, data: seq<byte>, term: Text): Option<Option<seq<Posting>>> {
    match Parse(crc, data)
    case None => None
    case Some(p) =>
      match Find(p.entries, term)
      case None => Some(None)
      case Some(e) => match Postings.Decode(crc, Payload(p, e)) case None => None case Some(ps) => Some(Some(ps))
  }

  /** `seek_term_doc` */
  function SeekTerm(crc: Checksum, data: seq<byte>, term: Text, docId: nat): Option<Option<Posting>> {
    match Parse(crc, data)
    case None => None
    case Some(p) => match Find(p.entries, term) case None => Some(None) case Some(e) => Postings.Seek(crc, Payload(p, e), docId)
  }

  // ----- parsing what was encoded -----

  /** Typed, sized and within the readers' limits. */
  ghost predicate Storable(crc: Checksum, lists: seq<TermList>, step: nat) {
    && 0 < step < U64_LIMIT && |lists| <= MAX_COLLECTION_ENTRIES
    && (forall k :: 0 <= k < |lists| ==>
          && Utf8.Valid(lists[k].term) && |lists[k].term| < U64_LIMIT
          && PostingSeek.Encodable(lists[k].postings, step) && PositionsWithinLimit(lists[k].postings)
          && |lists[k].postings| <= MAX_COLLECTION_ENTRIES)
    && Payloads(crc, lists, step).Some? && TermsIncrease(TermsOf(lists))
    && |Payloads(crc, lists, step).value| == |lists|
    && |Body(lists, Payloads(crc, lists, step).value)| < U64_LIMIT
  }

  lemma {:induction false} ReadsEntry(data: seq<byte>, pos: nat, e: TermEntry)
    requires At(data, pos, EntryBytes(e)) && Utf8.Valid(e.term)
    requires |e.term| < U64_LIMIT && e.offset < U64_LIMIT && e.len < U64_LIMIT && e.docCount < U64_LIMIT
    ensures ReadEntry(data, pos) == Some((e, pos + |EntryBytes(e)|))
  {
    hide At, Varint.Read, Varint.Encode, Varint.EncodeAll, ReadVarints, Utf8.Valid;
    var (a, w) := (Varint.Encode(|e.term|), [e.offset, e.len, e.docCount]);
    AtConcat(data, pos, a + e.term, Varint.EncodeAll(w));
    AtConcat(data, pos, a, e.term);
    Varint.ReadIff(data, pos, |e.term|, pos + |a|);
    AtInside(data, pos + |a|, e.term);
    ReadsVarints(data, pos + |a| + |e.term|, w);
  }

  /** The entries follow each other in the terms, from `previous`, and in the payloads, from `expected`. */
  ghost predicate Follow(es: seq<TermEntry>, previous: Text, expected: nat, limit: nat)
    decreases |es|
  {
    es == [] ||
    (&& es[0].term != [] && Less(previous, es[0].term) && es[0].offset == expected && expected + es[0].len <= limit
     && Utf8.Valid(es[0].term) && |es[0].term| < U64_LIMIT && es[0].docCount < U64_LIMIT
     && Follow(es[1..], es[0].term, expected + es[0].len, limit))
  }

  lemma {:induction false} DecodesEntries(data: seq<byte>, pos: nat, es: seq<TermEntry>, previous: Text, expected: nat,
                                          limit: nat)
    requires Follow(es, previous, expected, limit) && limit < U64_LIMIT && At(data, pos, EntriesBytes(es))
    ensures DecodeEntries(data, pos, |es|, previous, expected, limit) == Some((es, pos + |EntriesBytes(es)|))
    decreases |es|
  {
    hide At, EntryBytes, ReadEntry, Less, Utf8.Valid;
    if es != [] {
      AtConcat(data, pos, EntryBytes(es[0]), EntriesBytes(es[1..]));
      ReadsEntry(data, pos, es[0]);
      DecodesEntries(data, pos + |EntryBytes(es[0])|, es[1..], es[0].term, expected + es[0].len, limit);
      assert es == [es[0]] + es[1..];
    }
  }

  /** The entry of list `k` follows the one before it. */
  lemma {:induction false} EntryFollows(lists: seq<TermList>, payloads: seq<seq<byte>>, k: nat)
    requires k < |lists| == |payloads| && TermsIncrease(TermsOf(lists))
    ensures var e := EntriesOf(lists, payloads)[k];
            && e.term == lists[k].term != [] && Less(if k == 0 then [] else lists[k - 1].term, e.term)
            && e.offset == |Concat(payloads[..k])| && e.offset + e.len == |Concat(payloads[..k + 1])| <= |Concat(payloads)|
            && e.docCount == |lists[k].postings|
  {
    hide Concat, Less;
    assert TermsOf(lists)[k] == lists[k].term != [];
    if k == 0 {
      EmptyIsLess(lists[0].term);
    } else {
      assert Less(TermsOf(lists)[k - 1], TermsOf(lists)[k]);
    }
    ConcatPush(payloads[..k], payloads[k]);
    assert payloads[..k + 1] == payloads[..k] + [payloads[k]];
    ConcatAppend(payloads[..k + 1], payloads[k + 1..]);
    assert payloads == payloads[..k + 1] + payloads[k + 1..];
  }

  /** The entries from list `k` on follow each other. */
  lemma {:induction false} EntriesFollow(lists: seq<TermList>, payloads: seq<seq<byte>>, k: nat)
    requires k <= |lists| == |payloads| && TermsIncrease(TermsOf(lists))
    requires forall j :: 0 <= j < |lists| ==>
               Utf8.Valid(lists[j].term) && |lists[j].term| < U64_LIMIT && |lists[j].postings| < U64_LIMIT
    ensures Follow(EntriesOf(lists, payloads)[k..], if k == 0 then [] else lists[k - 1].term, |Concat(payloads[..k])|, |Concat(payloads)|)
    decreases |lists| - k
  {
    hide Concat, Less, Utf8.Valid, EntriesOf, TermsOf, TermsIncrease;
    var es := EntriesOf(lists, payloads);
    if k < |lists| {
      EntriesFollow(lists, payloads, k + 1);
      EntryFollows(lists, payloads, k);
      assert es[k..][0] == es[k] && es[k..][1..] == es[k + 1..];
    } else {
      assert es[k..] == [];
    }
  }

  lemma {:induction false} EmptyIsLess(a: Text)
    requires a != []
    ensures Less([], a)
  {
  }

  lemma {:induction false} EntriesSize(es: seq<TermEntry>)
    requires forall k :: 0 <= k < |es| ==> es[k].term != []
    ensures |EntriesBytes(es)| >= MIN_TERM_ENTRY_LEN * |es|
  {
    if es != [] {
      EncodedAtLeast([es[0].offset, es[0].len, es[0].docCount]);
      EntriesSize(es[1..]);
    }
  }

  lemma {:induction false} ParsesBody(crc: Checksum, lists: seq<TermList>, step: nat)
    requires Storable(crc, lists, step)
    ensures var payloads := Payloads(crc, lists, step).value;
            ParseBody(Body(lists, payloads)) == Some(ParsedDictionary(EntriesOf(lists, payloads), Concat(payloads)))
  {
    hide At, Concat, Varint.EncodeAll, ReadVarints, DecodeEntries, EntriesBytes, Payloads, Utf8.Valid;
    hide PostingSeek.Encodable, Follow, EntryOf, TermsIncrease;
    var payloads := Payloads(crc, lists, step).value;
    var body := Body(lists, payloads);
    var (es, blob) := (EntriesOf(lists, payloads), Concat(payloads));
    var dict := EntriesBytes(es);
    var w := [|lists|, |dict|, |blob|];
    var head := Varint.EncodeAll(w);
    AtWhole(body);
    AtConcat(body, 0, head, dict + blob);
    ReadsVarints(body, 0, w);
    assert body[|head|..|head| + |dict|] == dict && body[|head| + |dict|..] == blob;
    EntriesFollow(lists, payloads, 0);
    ConcatNothing();
    assert es[0..] == es && payloads[..0] == [];
    AtWhole(dict);
    DecodesEntries(dict, 0, es, [], 0, |blob|);
    TermsNonEmpty(lists, payloads);
    EntriesSize(es);
  }

  lemma {:induction false} TermsNonEmpty(lists: seq<TermList>, payloads: seq<seq<byte>>)
    requires |lists| == |payloads| && TermsIncrease(TermsOf(lists))
    ensures forall k :: 0 <= k < |lists| ==> EntriesOf(lists, payloads)[k].term != []
  {
    forall k | 0 <= k < |lists| ensures EntriesOf(lists, payloads)[k].term != [] {
      assert TermsOf(lists)[k] != [];
    }
  }

  // ----- the dictionary as a finite map -----

  /** The map that a list of terms stands for. */
  function MapOf(lists: seq<TermList>): map<Text, seq<Posting>> {
    if lists == [] then map[] else MapOf(lists[1..])[lists[0].term := lists[0].postings]
  }

  lemma {:induction false} TermsFar(terms: seq<Text>, i: nat, j: nat)
    requires TermsIncrease(terms) && i < j < |terms|
    ensures Less(terms[i], terms[j])
    decreases j
  {
    assert Less(terms[j - 1], terms[j]);
    if i < j - 1 {
      TermsFar(terms, i, j - 1);
      LessTransitive(terms[i], terms[j - 1], terms[j]);
    }
  }

  lemma {:induction false} MapHas(lists: seq<TermList>, term: Text)
    ensures term in MapOf(lists) <==> exists k :: 0 <= k < |lists| && lists[k].term == term
  {
    if lists != [] {
      MapHas(lists[1..], term);
      if exists k :: 0 <= k < |lists[1..]| && lists[1..][k].term == term {
        var k :| 0 <= k < |lists[1..]| && lists[1..][k].term == term;
        assert lists[k + 1].term == term;
      }
      if term in MapOf(lists) && lists[0].term == term {
        assert lists[0].term == term;
      }
      if exists k :: 0 <= k < |lists| && lists[k].term == term {
        var k :| 0 <= k < |lists| && lists[k].term == term;
        if k > 0 {
          assert lists[1..][k - 1].term == term;
        }
      }
    }
  }

  lemma {:induction false} MapAt(lists: seq<TermList>, k: nat)
    requires k < |lists| && forall i, j :: 0 <= i < j < |lists| ==> lists[i].term != lists[j].term
    ensures lists[k].term in MapOf(lists) && MapOf(lists)[lists[k].term] == lists[k].postings
    decreases |lists|
  {
    if k > 0 {
      MapAt(lists[1..], k - 1);
      assert lists[0].term != lists[k].term;
    }
  }

  lemma {:induction false} DistinctTerms(lists: seq<TermList>)
    requires TermsIncrease(TermsOf(lists))
    ensures forall i, j :: 0 <= i < j < |lists| ==> lists[i].term != lists[j].term
  {
    hide Less;
    forall i, j | 0 <= i < j < |lists| ensures lists[i].term != lists[j].term {
      TermsFar(TermsOf(lists), i, j);
      LessTotal(lists[i].term, lists[j].term);
    }
  }

  lemma {:induction false} FindIs(entries: seq<TermEntry>, term: Text)
    ensures match Find(entries, term)
            case None => forall k :: 0 <= k < |entries| ==> entries[k].term != term
            case Some(e) => exists k :: 0 <= k < |entries| && entries[k] == e && e.term == term
  {
    if entries != [] && entries[0].term != term {
      FindIs(entries[1..], term);
      if Find(entries[1..], term).Some? {
        var k :| 0 <= k < |entries[1..]| && entries[1..][k] == Find(entries[1..], term).value;
        assert entries[k + 1] == Find(entries[1..], term).value;
      }
    }
  }

  /** Which entry a term leads to. */
  lemma {:induction false} FoundEntry(lists: seq<TermList>, payloads: seq<seq<byte>>, term: Text)
    requires |lists| == |payloads| && TermsIncrease(TermsOf(lists))
    ensures var e := Find(EntriesOf(lists, payloads), term);
            && (e.Some? <==> term in MapOf(lists))
            && (e.Some? ==> exists k :: 0 <= k < |lists| && lists[k].postings == MapOf(lists)[term] && e == Some(EntryOf(lists, payloads, k)))
  {
    hide MapOf, Find, TermsIncrease, EntryOf;
    var entries := EntriesOf(lists, payloads);
    FindIs(entries, term);
    MapHas(lists, term);
    DistinctTerms(lists);
    EntryTerms(lists, payloads);
    if Find(entries, term).Some? {
      var k :| 0 <= k < |entries| && entries[k] == Find(entries, term).value && entries[k].term == term;
      MapAt(lists, k);
    }
  }

  lemma {:induction false} EntryTerms(lists: seq<TermList>, payloads: seq<seq<byte>>)
    requires |lists| == |payloads|
    ensures forall k :: 0 <= k < |lists| ==> EntriesOf(lists, payloads)[k].term == lists[k].term
  {
  }

  /** Payload `k` stands where entry `k` says. */
  lemma {:induction false} PayloadAt(lists: seq<TermList>, payloads: seq<seq<byte>>, k: nat)
    requires k < |lists| == |payloads|
    ensures Payload(ParsedDictionary(EntriesOf(lists, payloads), Concat(payloads)), EntryOf(lists, payloads, k)) == payloads[k]
  {
    hide Concat;
    AtWhole(Concat(payloads));
    ConcatAt(Concat(payloads), 0, payloads, k);
    AtInside(Concat(payloads), |Concat(payloads[..k])|, payloads[k]);
  }

  /** Every posting list is valid, and, if there is one, the skip step is positive. */
  ghost predicate ListsValid(lists: seq<TermList>, step: nat) {
    (lists != [] ==> step > 0) && forall k :: 0 <= k < |lists| ==> Postings.Valid(lists[k].postings)
  }

  lemma {:induction false} ValidCons(lists: seq<TermList>, step: nat)
    requires lists != []
    ensures ListsValid(lists, step) <==> step > 0 && Postings.Valid(lists[0].postings) && ListsValid(lists[1..], step)
  {
    hide Postings.Valid;
    if step > 0 && Postings.Valid(lists[0].postings) && ListsValid(lists[1..], step) {
      forall k | 0 <= k < |lists| ensures Postings.Valid(lists[k].postings) {
        assert k > 0 ==> lists[k] == lists[1..][k - 1];
      }
    }
    if ListsValid(lists, step) {
      assert Postings.Valid(lists[0].postings);
      forall k | 0 <= k < |lists[1..]| ensures Postings.Valid(lists[1..][k].postings) {
        assert lists[1..][k] == lists[k + 1];
      }
    }
  }

  lemma {:induction false} PayloadsExist(crc: Checksum, lists: seq<TermList>, step: nat)
    ensures Payloads(crc, lists, step).Some? <==> ListsValid(lists, step)
    decreases |lists|
  {
    hide Postings.Valid, Postings.Body, Sealed;
    if lists != [] {
      ValidCons(lists, step);
      hide ListsValid;
      PayloadsExist(crc, lists[1..], step);
    }
  }

  lemma {:induction false} TermsIncreaseIff(terms: seq<Text>)
    ensures TermsIncrease(terms) <==>
            && (forall k :: 0 <= k < |terms| ==> terms[k] != [])
            && (forall i, j :: 0 <= i < j < |terms| ==> Less(terms[i], terms[j]))
  {
    hide Less;
    if TermsIncrease(terms) {
      forall i, j | 0 <= i < j < |terms| ensures Less(terms[i], terms[j]) {
        TermsFar(terms, i, j);
      }
    }
  }

  /** No term is empty, and each is less than every one behind it. */
  ghost predicate TermsRise(lists: seq<TermList>) {
    && (forall k :: 0 <= k < |lists| ==> lists[k].term != [])
    && (forall i, j :: 0 <= i < j < |lists| ==> Less(lists[i].term, lists[j].term))
  }

  lemma {:induction false} ListsIncreaseIff(lists: seq<TermList>)
    ensures TermsIncrease(TermsOf(lists)) <==> TermsRise(lists)
  {
    hide Less, TermsIncrease;
    var terms := TermsOf(lists);
    TermsIncreaseIff(terms);
    if TermsIncrease(terms) {
      forall k | 0 <= k < |lists| ensures lists[k].term != [] {
        assert terms[k] != [];
      }
      forall i, j | 0 <= i < j < |lists| ensures Less(lists[i].term, lists[j].term) {
        assert Less(terms[i], terms[j]);
      }
    } else if forall k :: 0 <= k < |lists| ==> lists[k].term != [] {
      forall k | 0 <= k < |terms| ensures terms[k] != [] {
        assert lists[k].term != [];
      }
      var i, j :| 0 <= i < j < |terms| && !Less(terms[i], terms[j]);
      assert !Less(lists[i].term, lists[j].term);
    }
  }

  /** A dictionary is written exactly when its terms increase and every list is valid. */
  lemma {:induction false} EncodeExists(crc: Checksum, lists: seq<TermList>, step: nat)
    ensures Encode(crc, lists, step).Some? <==>
            TermsRise(lists) && ListsValid(lists, step)
  {
    hide Less, Payloads, TermsIncrease, TermsOf, TermsRise, ListsValid, Sealed, Body;
    PayloadsExist(crc, lists, step);
    ListsIncreaseIff(lists);
  }

  /** Which payload a term leads to. */
  lemma {:induction false} FoundPayload(crc: Checksum, lists: seq<TermList>, step: nat, term: Text)
    requires Storable(crc, lists, step)
    ensures Encode(crc, lists, step).Some?
    ensures Parse(crc, Encode(crc, lists, step).value).Some?
    ensures var p := Parse(crc, Encode(crc, lists, step).value).value;
            var e := Find(p.entries, term);
            && (e.Some? <==> term in MapOf(lists))
            && (e.Some? ==> exists k :: 0 <= k < |lists| && lists[k].postings == MapOf(lists)[term]
                                        && Postings.Encode(crc, lists[k].postings, step) == Some(Payload(p, e.value)))
  {
    hide Payloads, Postings.Encode, ParseBody, Opened, Sealed, Body, MapOf, TermsIncrease, PostingSeek.Encodable;
    hide Utf8.Valid, Find, Payload;
    hide EntriesOf, EntryOf, Concat;
    var payloads := Payloads(crc, lists, step).value;
    OpenedSealed(crc, TermMagic(), Body(lists, payloads));
    ParsesBody(crc, lists, step);
    FoundEntry(lists, payloads, term);
    PayloadsLen(crc, lists, step);
    if term in MapOf(lists) {
      var e := Find(EntriesOf(lists, payloads), term);
      var k :| 0 <= k < |lists| && lists[k].postings == MapOf(lists)[term] && e == Some(EntryOf(lists, payloads, k));
      PayloadAt(lists, payloads, k);
    }
  }

  /** The encoded dictionary is the finite map: looking up a term gives its postings, or that it is missing. */
  lemma {:induction false} LookupIsMap(crc: Checksum, lists: seq<TermList>, step: nat, term: Text)
    requires Storable(crc, lists, step)
    ensures Encode(crc, lists, step).Some?
    ensures Lookup(crc, Encode(crc, lists, step).value, term)
         == Some(if term in MapOf(lists) then Some(MapOf(lists)[term]) else None)
  {
    hide Payloads, Postings.Encode, Postings.Decode, Parse, Payload, Encode, MapOf, TermsIncrease;
    hide PostingSeek.Encodable, Utf8.Valid, Find, Body;
    FoundPayload(crc, lists, step, term);
    if term in MapOf(lists) {
      var p := Parse(crc, Encode(crc, lists, step).value).value;
      var k :| 0 <= k < |lists| && lists[k].postings == MapOf(lists)[term]
               && Postings.Encode(crc, lists[k].postings, step) == Some(Payload(p, Find(p.entries, term).value));
      PostingSeek.RoundTrip(crc, lists[k].postings, step);
    }
  }

  /** Seeking a document under a term is scanning the term's postings in the map. */
  lemma {:induction false} SeekIsMap(crc: Checksum, lists: seq<TermList>, step: nat, term: Text, docId: nat)
    requires Storable(crc, lists, step)
    ensures Encode(crc, lists, step).Some?
    ensures SeekTerm(crc, Encode(crc, lists, step).value, term, docId)
         == Some(if term in MapOf(lists) then Linear(MapOf(lists)[term], docId) else None)
  {
    hide Payloads, Postings.Encode, Seek, Parse, Payload, Encode, MapOf, TermsIncrease, PostingSeek.Encodable;
    hide Utf8.Valid, Find, Body, Linear;
    FoundPayload(crc, lists, step, term);
    if term in MapOf(lists) {
      var p := Parse(crc, Encode(crc, lists, step).value).value;
      var k :| 0 <= k < |lists| && lists[k].postings == MapOf(lists)[term]
               && Postings.Encode(crc, lists[k].postings, step) == Some(Payload(p, Find(p.entries, term).value));
      PostingSeek.SeekIsLinear(crc, lists[k].postings, step, docId);
    }
  }
}
