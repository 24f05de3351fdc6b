/** Posting lists decode to themselves, and seeking through the skip table is the same as looking at every posting. */
module PostingSeek {
  import opened Wrappers
  import opened Bytes
  import opened Limits
  import opened Postings
  import Varint

  // ----- one posting -----

  lemma {:induction false} ReadsSums(data: seq<byte>, pos: nat, values: seq<nat>, previous: nat)
    requires At(data, pos, Varint.EncodeAll(DeltasFrom(previous, values))) && AllU64(values)
    requires StrictlyIncreasing(values) && (values != [] ==> previous <= values[0])
    ensures ReadSums(data, pos, |values|, previous) == Some((values, pos + |Varint.EncodeAll(DeltasFrom(previous, values))|))
    decreases |values|
  {
    hide At, Varint.Read, Varint.Encode;
    if values != [] {
      var (delta, rest) := (Delta(values[0], previous), DeltasFrom(values[0], values[1..]));
      assert DeltasFrom(previous, values)[1..] == rest;
      var first := Varint.Encode(delta);
      AtConcat(data, pos, first, Varint.EncodeAll(rest));
      Varint.ReadIff(data, pos, delta, pos + |first|);
      forall i, j | 0 <= i < j < |values[1..]| ensures values[1..][i] < values[1..][j] {
        assert values[i + 1] < values[j + 1];
      }
      ReadsSums(data, pos + |first|, values[1..], values[0]);
      assert values == [values[0]] + values[1..];
    }
  }

  lemma {:induction false} EncodedAtLeast(vs: seq<nat>)
    ensures |Varint.EncodeAll(vs)| >= |vs|
  {
    if vs != [] {
      EncodedAtLeast(vs[1..]);
    }
  }

  lemma {:induction false} ReadsPositions(data: seq<byte>, pos: nat, positions: seq<nat>)
    requires At(data, pos, Varint.EncodeAll(DeltasFrom(0, positions))) && AllU64(positions)
    requires StrictlyIncreasing(positions) && |positions| <= MAX_COLLECTION_ENTRIES
    ensures ReadPositions(data, pos, |positions|) == Some((positions, pos + |Varint.EncodeAll(DeltasFrom(0, positions))|))
  {
    hide Varint.EncodeAll, DeltasFrom, ReadSums;
    EncodedAtLeast(DeltasFrom(0, positions));
    ReadsSums(data, pos, positions, 0);
  }

  /** The sections of an encoded list. */
  function ListOf(ps: seq<Posting>, step: nat): ParsedPostingList
    requires step > 0
  {
    ParsedPostingList(|ps|, step, Concat(DocParts(ps)), Concat(FrequencyParts(ps)), Concat(PositionParts(ps)), Skips(ps, step))
  }

  /** Where the sections continue with posting `k`. */
  function CursorAt(ps: seq<Posting>, k: nat): Cursor
    requires k <= |ps|
  {
    Cursor(|Concat(DocParts(ps)[..k])|, |Concat(FrequencyParts(ps)[..k])|, |Concat(PositionParts(ps)[..k])|, Previous(ps, k))
  }

  /** At most as many positions in a posting as a reader accepts. */
  ghost predicate PositionsWithinLimit(ps: seq<Posting>) {
    forall k :: 0 <= k < |ps| ==> |ps[k].positions| <= MAX_COLLECTION_ENTRIES
  }

  lemma {:induction false} PreviousBelow(ps: seq<Posting>, k: nat)
    requires Valid(ps) && k < |ps|
    ensures Previous(ps, k) <= ps[k].docId && (k > 0 ==> Previous(ps, k) < ps[k].docId)
  {
    if k > 0 {
      assert DocIds(ps)[k - 1] < DocIds(ps)[k];
    }
  }

  /** A varint that is part `k` of a section is read at the offset of the part. */
  lemma {:induction false} ReadsPart(parts: seq<seq<byte>>, k: nat, v: nat)
    requires k < |parts| && parts[k] == Varint.Encode(v) && v < U64_LIMIT
    ensures Varint.Read(Concat(parts), |Concat(parts[..k])|) == Some((v, |Concat(parts[..k + 1])|))
  {
    hide At, Concat, Varint.Read, Varint.Encode;
    AtWhole(Concat(parts));
    ConcatAt(Concat(parts), 0, parts, k);
    Varint.ReadIff(Concat(parts), |Concat(parts[..k])|, v, |Concat(parts[..k])| + |parts[k]|);
  }

  lemma {:induction false} ReadsPositionPart(ps: seq<Posting>, k: nat)
    requires Valid(ps) && Typed(ps) && PositionsWithinLimit(ps) && k < |ps|
    ensures ReadPositions(Concat(PositionParts(ps)), |Concat(PositionParts(ps)[..k])|, |ps[k].positions|)
         == Some((ps[k].positions, |Concat(PositionParts(ps)[..k + 1])|))
  {
    hide At, Concat, ReadPositions, DeltasFrom, Varint.EncodeAll;
    var parts := PositionParts(ps);
    AtWhole(Concat(parts));
    ConcatAt(Concat(parts), 0, parts, k);
    ReadsPositions(Concat(parts), |Concat(parts[..k])|, ps[k].positions);
  }

  lemma {:induction false} ReadsDoc(ps: seq<Posting>, k: nat)
    requires Valid(ps) && Typed(ps) && k < |ps|
    ensures Varint.Read(Concat(DocParts(ps)), |Concat(DocParts(ps)[..k])|)
         == Some((ps[k].docId - Previous(ps, k), |Concat(DocParts(ps)[..k + 1])|))
    ensures Previous(ps, k) <= ps[k].docId < U64_LIMIT
  {
    hide Concat, Varint.Read, Varint.Encode;
    PreviousBelow(ps, k);
    ReadsPart(DocParts(ps), k, Delta(ps[k].docId, Previous(ps, k)));
  }

  lemma {:induction false} ReadsFrequency(ps: seq<Posting>, k: nat)
    requires Typed(ps) && k < |ps|
    ensures Varint.Read(Concat(FrequencyParts(ps)), |Concat(FrequencyParts(ps)[..k])|)
         == Some((|ps[k].positions|, |Concat(FrequencyParts(ps)[..k + 1])|))
  {
    hide Concat, Varint.Read, Varint.Encode;
    ReadsPart(FrequencyParts(ps), k, |ps[k].positions|);
  }

  /** From the cursors of posting `k` the readers find posting `k` and the cursors of the next. */
  lemma {:induction false} ReadsPosting(ps: seq<Posting>, step: nat, k: nat)
    requires step > 0 && Valid(ps) && Typed(ps) && PositionsWithinLimit(ps) && k < |ps|
    ensures ReadPosting(ListOf(ps, step), CursorAt(ps, k)) == Some((ps[k], CursorAt(ps, k + 1)))
  {
    hide Concat, Varint.Read, DocParts, FrequencyParts, PositionParts, ReadPositions, Skips, Valid, Typed;
    ReadsDoc(ps, k);
    ReadsFrequency(ps, k);
    ReadsPositionPart(ps, k);
  }

  // ----- the whole list -----

  lemma {:induction false} DecodesFrom(ps: seq<Posting>, step: nat, k: nat)
    requires step > 0 && Valid(ps) && Typed(ps) && PositionsWithinLimit(ps) && k <= |ps|
    ensures DecodeFrom(ListOf(ps, step), |ps| - k, CursorAt(ps, k)) == Some((ps[k..], CursorAt(ps, |ps|)))
    decreases |ps| - k
  {
    hide ListOf, CursorAt, ReadPosting, Valid, Typed;
    if k < |ps| {
      ReadsPosting(ps, step, k);
      DecodesFrom(ps, step, k + 1);
      assert ps[k..] == [ps[k]] + ps[k + 1..];
    } else {
      assert ps[k..] == [];
    }
  }

  lemma {:induction false} ConcatAtLeast(parts: seq<seq<byte>>)
    requires forall k :: 0 <= k < |parts| ==> |parts[k]| >= 1
    ensures |Concat(parts)| >= |parts|
  {
    if parts != [] {
      ConcatAtLeast(parts[1..]);
    }
  }

  lemma {:induction false} SectionsLongEnough(ps: seq<Posting>)
    ensures |ps| <= |Concat(DocParts(ps))| && |ps| <= |Concat(FrequencyParts(ps))|
  {
    hide Concat;
    ConcatAtLeast(DocParts(ps));
    ConcatAtLeast(FrequencyParts(ps));
  }

  lemma {:induction false} DecodesAll(ps: seq<Posting>, step: nat)
    requires step > 0 && Valid(ps) && Typed(ps) && PositionsWithinLimit(ps)
    ensures DecodeAll(ListOf(ps, step)) == if |ps| <= MAX_COLLECTION_ENTRIES then Some(ps) else None
  {
    hide Concat, DecodeFrom, Valid, Typed, Skips, DocParts, FrequencyParts, PositionParts;
    SectionsLongEnough(ps);
    DecodesFrom(ps, step, 0);
    assert DocParts(ps)[..0] == [] && FrequencyParts(ps)[..0] == [] && PositionParts(ps)[..0] == [];
    ConcatNothing();
    assert DocParts(ps)[..|ps|] == DocParts(ps) && FrequencyParts(ps)[..|ps|] == FrequencyParts(ps);
    assert PositionParts(ps)[..|ps|] == PositionParts(ps) && ps[0..] == ps;
  }

  // ----- seeking -----

  lemma {:induction false} LinearFrom(ps: seq<Posting>, target: nat, k: nat)
    requires k <= |ps| && forall j :: 0 <= j < k ==> ps[j].docId != target
    ensures Linear(ps, target) == Linear(ps[k..], target)
    decreases k
  {
    if k > 0 {
      assert ps[0].docId != target;
      LinearFrom(ps[1..], target, k - 1);
      assert ps[1..][k - 1..] == ps[k..];
    } else {
      assert ps[0..] == ps;
    }
  }

  /** Behind a document greater than the target there is no match. */
  lemma {:induction false} LinearNone(ps: seq<Posting>, target: nat)
    requires forall k :: 0 <= k < |ps| ==> ps[k].docId > target
    ensures Linear(ps, target) == None
  {
    if ps != [] {
      LinearNone(ps[1..], target);
    }
  }

  lemma {:induction false} SortedTail(ps: seq<Posting>, k: nat, target: nat)
    requires Valid(ps) && k < |ps| && ps[k].docId > target
    ensures forall j :: 0 <= j < |ps[k..]| ==> ps[k..][j].docId > target
  {
    forall j | 0 <= j < |ps[k..]| ensures ps[k..][j].docId > target {
      if j > 0 {
        assert DocIds(ps)[k] < DocIds(ps)[k + j];
      }
    }
  }

  lemma {:induction false} SeeksFrom(ps: seq<Posting>, step: nat, k: nat, target: nat)
    requires step > 0 && Valid(ps) && Typed(ps) && PositionsWithinLimit(ps) && k <= |ps|
    ensures SeekFrom(ListOf(ps, step), k, CursorAt(ps, k), target) == Some(Linear(ps[k..], target))
    decreases |ps| - k
  {
    hide CursorAt, ReadPosting, Valid, Typed, Skips, Concat, DocParts, FrequencyParts, PositionParts;
    if k < |ps| {
      ReadsPosting(ps, step, k);
      assert ps[k..][0] == ps[k] && ps[k..][1..] == ps[k + 1..];
      if ps[k].docId > target {
        SortedTail(ps, k, target);
        LinearNone(ps[k..], target);
      } else if ps[k].docId < target {
        SeeksFrom(ps, step, k + 1, target);
      }
    }
  }

  lemma {:induction false} SkipBeforeIs(skips: seq<SkipEntry>, target: nat)
    ensures SkipBefore(skips, target).Some? ==> SkipBefore(skips, target).value in skips
    ensures SkipBefore(skips, target).Some? ==> SkipBefore(skips, target).value.firstDocId <= target
    ensures SkipBefore(skips, target).None? <==> skips == [] || skips[0].firstDocId > target
  {
    if skips != [] {
      SkipBeforeIs(skips[1..], target);
    }
  }

  /** Seeking in the parsed list from the skip table: nothing before the chosen entry can match. */
  lemma {:induction false} SeeksInList(ps: seq<Posting>, step: nat, target: nat)
    requires step > 0 && Valid(ps) && Typed(ps) && PositionsWithinLimit(ps)
    ensures var skip := SkipBefore(Skips(ps, step), target);
            match skip
            case None => Linear(ps, target) == None
            case Some(e) =>
              SeekFrom(ListOf(ps, step), e.ordinal, Cursor(e.docIdsOffset, e.frequenciesOffset, e.positionsOffset, e.previousDocId), target)
              == Some(Linear(ps, target))
  {
    hide Typed, Concat, SeekFrom, DocParts, FrequencyParts, PositionParts;
    var skips := Skips(ps, step);
    SkipBeforeIs(skips, target);
    if SkipBefore(skips, target).None? {
      if ps != [] {
        OrdinalInside(0, |ps|, step);
        assert Ordinal(0, step) == 0 && skips[0].firstDocId == ps[0].docId;
        SortedTail(ps, 0, target);
        assert ps[0..] == ps;
      }
      LinearNone(ps, target);
    } else {
      var e := SkipBefore(skips, target).value;
      var i :| 0 <= i < |skips| && skips[i] == e;
      OrdinalInside(i, |ps|, step);
      var k := Ordinal(i, step);
      SeeksFrom(ps, step, k, target);
      forall j | 0 <= j < k ensures ps[j].docId != target {
        assert DocIds(ps)[j] < DocIds(ps)[k];
      }
      LinearFrom(ps, target, k);
    }
  }

  // ----- parsing what was encoded -----

  /** Everything fits into memory, so every length and offset is a 64-bit number. */
  ghost predicate Encodable(ps: seq<Posting>, step: nat) {
    step > 0 && step < U64_LIMIT && Valid(ps) && Typed(ps) && |Body(ps, step)| < U64_LIMIT
  }

  lemma {:induction false} SkipOffsets(ps: seq<Posting>, k: nat)
    requires k < |ps|
    ensures SkipAt(ps, k).docIdsOffset <= |Concat(DocParts(ps))| && SkipAt(ps, k).frequenciesOffset <= |Concat(FrequencyParts(ps))|
    ensures SkipAt(ps, k).positionsOffset <= |Concat(PositionParts(ps))|
  {
    hide Concat, DocParts, FrequencyParts, PositionParts, At;
    AtWhole(Concat(DocParts(ps)));
    AtWhole(Concat(FrequencyParts(ps)));
    AtWhole(Concat(PositionParts(ps)));
    ConcatAt(Concat(DocParts(ps)), 0, DocParts(ps), k);
    ConcatAt(Concat(FrequencyParts(ps)), 0, FrequencyParts(ps), k);
    ConcatAt(Concat(PositionParts(ps)), 0, PositionParts(ps), k);
  }

  lemma {:induction false} SkipsValid(ps: seq<Posting>, step: nat)
    requires Encodable(ps, step)
    ensures IndexValid(|ps|, step, |Concat(DocParts(ps))|, |Concat(FrequencyParts(ps))|, |Concat(PositionParts(ps))|, Skips(ps, step))
    ensures forall i :: 0 <= i < |Skips(ps, step)| ==> AllU64(SkipWords(Skips(ps, step)[i]))
  {
    hide Concat, DocParts, FrequencyParts, PositionParts, Ordinal;
    SectionsInside(ps, step);
    var skips := Skips(ps, step);
    forall i | 0 <= i < |skips|
      ensures skips[i].ordinal == Ordinal(i, step) < |ps| && AllU64(SkipWords(skips[i]))
      ensures skips[i].docIdsOffset <= |Concat(DocParts(ps))| && skips[i].frequenciesOffset <= |Concat(FrequencyParts(ps))|
      ensures skips[i].positionsOffset <= |Concat(PositionParts(ps))|
    {
      OrdinalInside(i, |ps|, step);
      SkipOffsets(ps, Ordinal(i, step));
      PreviousBelow(ps, Ordinal(i, step));
    }
    forall i, j | 0 <= i < j < |skips| && j - i == 1 ensures skips[i].firstDocId < skips[j].firstDocId {
      OrdinalInside(i, |ps|, step);
      OrdinalInside(j, |ps|, step);
      OrdinalsGrow(j, step);
      assert DocIds(ps)[Ordinal(i, step)] < DocIds(ps)[Ordinal(j, step)];
    }
  }

  lemma OrdinalsGrow(i: nat, step: nat)
    requires i > 0 && step > 0
    ensures Ordinal(i - 1, step) < Ordinal(i, step)
  {
    assert i * step == (i - 1) * step + step;
  }

  lemma {:induction false} SectionsInside(ps: seq<Posting>, step: nat)
    requires step > 0
    ensures |Concat(DocParts(ps))| <= |Body(ps, step)| && |Concat(FrequencyParts(ps))| <= |Body(ps, step)|
    ensures |Concat(PositionParts(ps))| <= |Body(ps, step)| && |Concat(SkipParts(Skips(ps, step)))| <= |Body(ps, step)|
  {
    hide Concat, DocParts, FrequencyParts, PositionParts, SkipParts, Skips, Varint.EncodeAll;
  }

  lemma {:induction false} DecodesSkips(data: seq<byte>, pos: nat, skips: seq<SkipEntry>)
    requires At(data, pos, Concat(SkipParts(skips))) && pos + |Concat(SkipParts(skips))| == |data|
    requires forall i :: 0 <= i < |skips| ==> AllU64(SkipWords(skips[i]))
    ensures DecodeSkips(data, pos) == Some(skips)
    decreases |skips|
  {
    hide At, ReadVarints, Varint.EncodeAll;
    if skips != [] {
      var (e, rest) := (skips[0], skips[1..]);
      var first := Varint.EncodeAll(SkipWords(e));
      assert SkipParts(skips)[0] == first && SkipParts(skips)[1..] == SkipParts(rest);
      AtConcat(data, pos, first, Concat(SkipParts(rest)));
      ReadsVarints(data, pos, SkipWords(e));
      EncodedAtLeast(SkipWords(e));
      DecodesSkips(data, pos + |first|, rest);
      assert skips == [e] + rest;
    }
  }

  /** Parsing an encoded body gives back its sections and its skip table. */
  lemma {:induction false} ParsesBody(ps: seq<Posting>, step: nat)
    requires Encodable(ps, step)
    ensures ParseBody(Body(ps, step)) == Some(ListOf(ps, step))
  {
    hide At, Concat, DocParts, FrequencyParts, PositionParts, SkipParts, Skips, Varint.EncodeAll, ReadVarints;
    hide DecodeSkips, IndexValid, Valid, Typed, Le;
    var body := Body(ps, step);
    var (w, a, b, c, d) := (BodyWords(ps, step), Concat(DocParts(ps)), Concat(FrequencyParts(ps)), Concat(PositionParts(ps)),
                            Concat(SkipParts(Skips(ps, step))));
    var head := Varint.EncodeAll(w);
    SectionsInside(ps, step);
    WordsTyped(ps, step);
    AtWhole(body);
    AtConcat(body, 0, head, a + (b + (c + d)));
    ReadsVarints(body, 0, w);
    SkipsValid(ps, step);
    var (f, p, s) := (|head| + |a|, |head| + |a| + |b|, |head| + |a| + |b| + |c|);
    assert body == head + (a + (b + (c + d)));
    assert body[|head|..f] == a && body[f..p] == b && body[p..s] == c && body[s..] == d;
    AtWhole(d);
    DecodesSkips(d, 0, Skips(ps, step));
  }

  lemma {:induction false} WordsTyped(ps: seq<Posting>, step: nat)
    requires Encodable(ps, step)
    ensures AllU64(BodyWords(ps, step))
  {
    hide Concat, DocParts, FrequencyParts, PositionParts, SkipParts, Skips, Valid, Body;
    SectionsInside(ps, step);
  }

  lemma {:induction false} ParsesEncoded(crc: Checksum, ps: seq<Posting>, step: nat)
    requires Encodable(ps, step)
    ensures Encode(crc, ps, step).Some?
    ensures Parse(crc, Encode(crc, ps, step).value) == Some(ListOf(ps, step))
  {
    hide Body, ParseBody, ListOf, Opened, Sealed, Valid, Typed;
    OpenedSealed(crc, PostingMagic(), Body(ps, step));
    ParsesBody(ps, step);
  }

  // ----- the theorems -----

  /** A posting list decodes to itself, exactly when it is no longer than the readers accept. */
  lemma {:induction false} RoundTrip(crc: Checksum, ps: seq<Posting>, step: nat)
    requires Encodable(ps, step) && PositionsWithinLimit(ps)
    ensures Decode(crc, Encode(crc, ps, step).value) == if |ps| <= MAX_COLLECTION_ENTRIES then Some(ps) else None
  {
    hide Encode, Parse, DecodeAll, ListOf, Body, Valid, Typed;
    ParsesEncoded(crc, ps, step);
    DecodesAll(ps, step);
  }

  /** For every skip step and every document, seeking finds exactly what a scan of the whole list finds. */
  lemma {:induction false} SeekIsLinear(crc: Checksum, ps: seq<Posting>, step: nat, target: nat)
    requires Encodable(ps, step) && PositionsWithinLimit(ps)
    ensures Seek(crc, Encode(crc, ps, step).value, target) == Some(Linear(ps, target))
  {
    hide Encode, Parse, SeekFrom, SkipBefore, Skips, Body, Valid, Typed, Linear;
    ParsesEncoded(crc, ps, step);
    SeeksInList(ps, step, target);
  }

  /** A scan finds the posting of the document, and only that. */
  lemma {:induction false} LinearFinds(ps: seq<Posting>, target: nat)
    ensures match Linear(ps, target)
            case None => forall k :: 0 <= k < |ps| ==> ps[k].docId != target
            case Some(p) => p in ps && p.docId == target
  {
    if ps != [] && ps[0].docId != target {
      LinearFinds(ps[1..], target);
    }
  }
}
