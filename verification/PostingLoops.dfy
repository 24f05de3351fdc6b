/** The loops over posting lists (crates/compact-core/src/search/postings.rs) against their specifications. */
module PostingLoops {
  import opened Wrappers
  import opened Bytes
  import opened Limits
  import opened Postings
  import Varint

  // ----- validation -----

  /** `validate_positions`: neighbours only. */
  method ValidatePositions(values: seq<nat>) returns (ok: bool)
    ensures ok == StrictlyIncreasing(values)
  {
    for i := 0 to |values|
      invariant StrictlyIncreasing(values[..i])
    {
      if i > 0 && values[i] <= values[i - 1] {
        return false;
      }
      assert values[..i + 1] == values[..i] + [values[i]];
      assert forall j :: 0 <= j < i ==> values[..i][j] <= values[..i][i - 1];
    }
    assert values[..|values|] == values;
    return true;
  }

  method ValidatePostings(ps: seq<Posting>) returns (ok: bool)
    ensures ok == Valid(ps)
  {
    for i := 0 to |ps|
      invariant Valid(ps[..i])
    {
      ghost var front := ps[..i + 1];
      if i > 0 && ps[i].docId <= ps[i - 1].docId {
        assert DocIds(ps)[i] <= DocIds(ps)[i - 1];
        return false;
      }
      var increasing := ValidatePositions(ps[i].positions);
      if !increasing {
        return false;
      }
      forall a, b | 0 <= a < b < |front| ensures DocIds(front)[a] < DocIds(front)[b] {
        if b < i {
          assert DocIds(ps[..i])[a] < DocIds(ps[..i])[b];
        } else if a < i - 1 {
          assert DocIds(ps[..i])[a] < DocIds(ps[..i])[i - 1];
        }
      }
      assert forall k :: 0 <= k < i ==> front[k] == ps[..i][k];
    }
    assert ps[..|ps|] == ps;
    return true;
  }

  /** `validate_index`: once the number of entries is right, `idx * skip_step` stays below the document count. */
  method ValidateIndex(docCount: u64, step: u64, docIdsLen: nat, frequenciesLen: nat, positionsLen: nat,
                       skips: seq<SkipEntry>)
    returns (ok: bool)
    requires step > 0
    ensures ok == IndexValid(docCount, step, docIdsLen, frequenciesLen, positionsLen, skips)
  {
    hide SkipCount, Ordinal;
    if |skips| != SkipCount(docCount, step) {
      return false;
    }
    for i := 0 to |skips|
      invariant forall k :: 0 <= k < i ==>
        && skips[k].ordinal == Ordinal(k, step) && skips[k].ordinal < docCount
        && skips[k].docIdsOffset <= docIdsLen && skips[k].frequenciesOffset <= frequenciesLen
        && skips[k].positionsOffset <= positionsLen
      invariant forall a, b :: 0 <= a < b < i ==> b > a + 1 || skips[a].firstDocId < skips[b].firstDocId
    {
      OrdinalInside(i, docCount, step);
      var expected: u64 := Ordinal(i, step);
      var entry := skips[i];
      if entry.ordinal != expected || entry.ordinal >= docCount {
        return false;
      }
      if i > 0 && entry.firstDocId <= skips[i - 1].firstDocId {
        return false;
      }
      if entry.docIdsOffset > docIdsLen || entry.frequenciesOffset > frequenciesLen || entry.positionsOffset > positionsLen {
        return false;
      }
    }
    return true;
  }

  // ----- encoding -----

  /** The skip table grows with every `step`-th posting. */
  lemma SkipCountStep(i: nat, step: nat)
    requires step > 0
    ensures i % step == 0 ==> i == Ordinal(SkipCount(i, step), step) && SkipCount(i + 1, step) == SkipCount(i, step) + 1
    ensures i % step != 0 ==> SkipCount(i + 1, step) == SkipCount(i, step)
  {
    var (q, r) := (i / step, i % step);
    assert i == q * step + r;
    if r == 0 {
      DivOf(i + step - 1, q, step - 1, step);
      DivOf(i + step, q + 1, 0, step);
    } else {
      DivOf(i + step - 1, q + 1, r - 1, step);
      DivOf(i + step, q + 1, r, step);
    }
  }

  lemma {:induction false} PartsPush(parts: seq<seq<byte>>, i: nat)
    requires i < |parts|
    ensures Concat(parts[..i + 1]) == Concat(parts[..i]) + parts[i]
  {
    ConcatPush(parts[..i], parts[i]);
    assert parts[..i + 1] == parts[..i] + [parts[i]];
  }

  lemma {:induction false} DeltasStep(positions: seq<nat>, i: nat, previous: nat)
    requires StrictlyIncreasing(positions) && i < |positions| && previous == if i == 0 then 0 else positions[i - 1]
    ensures previous <= positions[i]
    ensures DeltasFrom(previous, positions[i..]) == [positions[i] - previous] + DeltasFrom(positions[i], positions[i + 1..])
  {
    assert positions[i..][0] == positions[i] && positions[i..][1..] == positions[i + 1..];
  }

  /** `encode_position_deltas` */
  method EncodePositionDeltas(positions: seq<nat>) returns (bytes: seq<byte>)
    requires StrictlyIncreasing(positions)
    ensures bytes == Varint.EncodeAll(DeltasFrom(0, positions))
  {
    NoDeltas();
    hide Varint.EncodeAll, DeltasFrom, StrictlyIncreasing;
    var deltas: seq<nat>, previous: nat := [], 0;
    assert positions[0..] == positions;
    for i := 0 to |positions|
      invariant DeltasFrom(0, positions) == deltas + DeltasFrom(previous, positions[i..])
      invariant previous == if i == 0 then 0 else positions[i - 1]
    {
      DeltasStep(positions, i, previous);
      var rest := DeltasFrom(positions[i], positions[i + 1..]);
      assert deltas + ([positions[i] - previous] + rest) == (deltas + [positions[i] - previous]) + rest;
      deltas := deltas + [positions[i] - previous];
      previous := positions[i];
    }
    assert positions[|positions|..] == [];
    assert deltas + [] == deltas;
    bytes := Varint.EncodeAll(deltas);
  }

  lemma NoDeltas()
    ensures forall previous :: DeltasFrom(previous, []) == []
  {
  }

  lemma {:induction false} PreviousIsLess(ps: seq<Posting>, k: nat)
    requires Valid(ps) && k < |ps|
    ensures Previous(ps, k) <= ps[k].docId && StrictlyIncreasing(ps[k].positions)
  {
    if k > 0 {
      assert DocIds(ps)[k - 1] < DocIds(ps)[k];
    }
  }

  lemma {:induction false} NoParts(ps: seq<Posting>)
    ensures Concat(DocParts(ps)[..0]) == [] && Concat(FrequencyParts(ps)[..0]) == [] && Concat(PositionParts(ps)[..0]) == []
  {
  }

  lemma {:induction false} AllParts(ps: seq<Posting>)
    ensures DocParts(ps)[..|ps|] == DocParts(ps) && FrequencyParts(ps)[..|ps|] == FrequencyParts(ps)
    ensures PositionParts(ps)[..|ps|] == PositionParts(ps)
  {
  }

  lemma {:induction false} SkipsSnoc(ps: seq<Posting>, step: nat, i: nat)
    requires step > 0 && i < |ps|
    ensures SkipCount(i, step) <= SkipCount(i + 1, step) <= SkipCount(|ps|, step)
    ensures i % step == 0 ==>
              Skips(ps, step)[..SkipCount(i + 1, step)] == Skips(ps, step)[..SkipCount(i, step)] + [SkipAt(ps, i)]
    ensures i % step != 0 ==> SkipCount(i + 1, step) == SkipCount(i, step)
  {
    hide SkipAt, SkipCount;
    SkipCountStep(i, step);
    SkipCountMonotone(i + 1, |ps|, step);
    if i % step == 0 {
      var n := SkipCount(i, step);
      assert Skips(ps, step)[n] == SkipAt(ps, i);
    }
  }

  lemma SkipCountMonotone(i: nat, j: nat, step: nat)
    requires step > 0 && i <= j
    ensures SkipCount(i, step) <= SkipCount(j, step)
  {
    OrdinalInside(SkipCount(j, step), j, step);
    OrdinalInside(SkipCount(j, step), i, step);
  }

  lemma NoSkips(step: nat)
    requires step > 0
    ensures SkipCount(0, step) == 0
  {
    OrdinalInside(0, 0, step);
  }

  /** `encode_postings`: the three sections and the skip table grow side by side. */
  method EncodePostings(crc: Checksum, ps: seq<Posting>, step: nat) returns (r: Option<seq<byte>>)
    ensures r == Encode(crc, ps, step)
  {
    hide Valid, Varint.Encode, Varint.EncodeAll, Concat, DeltasFrom, Skips, SkipCount, SkipParts, Sealed;
    if step == 0 {
      return None;
    }
    var valid := ValidatePostings(ps);
    if !valid {
      return None;
    }
    var docIds, frequencies, positions: seq<byte>, skips: seq<SkipEntry> := [], [], [], [];
    var previous: nat := 0;
    NoParts(ps);
    NoSkips(step);
    for i := 0 to |ps|
      invariant docIds == Concat(DocParts(ps)[..i]) && frequencies == Concat(FrequencyParts(ps)[..i])
      invariant positions == Concat(PositionParts(ps)[..i]) && previous == Previous(ps, i)
      invariant SkipCount(i, step) <= SkipCount(|ps|, step) && skips == Skips(ps, step)[..SkipCount(i, step)]
    {
      SkipsSnoc(ps, step, i);
      if i % step == 0 {
        skips := skips + [SkipEntry(i, ps[i].docId, previous, |docIds|, |frequencies|, |positions|)];
      }
      PreviousIsLess(ps, i);
      PartsPush(DocParts(ps), i);
      PartsPush(FrequencyParts(ps), i);
      PartsPush(PositionParts(ps), i);
      docIds := docIds + Varint.Encode(ps[i].docId - previous);
      previous := ps[i].docId;
      frequencies := frequencies + Varint.Encode(|ps[i].positions|);
      var deltas := EncodePositionDeltas(ps[i].positions);
      positions := positions + deltas;
    }
    AllParts(ps);
    assert Skips(ps, step)[..|Skips(ps, step)|] == Skips(ps, step);
    var skipBytes := EncodeSkips(skips);
    var body := Varint.EncodeAll([|ps|, step, |docIds|, |frequencies|, |positions|, |skipBytes|])
                + (docIds + (frequencies + (positions + skipBytes)));
    return Some(Sealed(crc, PostingMagic(), body));
  }

  method EncodeSkips(skips: seq<SkipEntry>) returns (bytes: seq<byte>)
    ensures bytes == Concat(SkipParts(skips))
  {
    hide Varint.EncodeAll, Concat;
    bytes := [];
    assert SkipParts(skips)[..0] == [];
    ConcatNothing();
    for i := 0 to |skips|
      invariant bytes == Concat(SkipParts(skips)[..i])
    {
      PartsPush(SkipParts(skips), i);
      bytes := bytes + Varint.EncodeAll(SkipWords(skips[i]));
    }
    assert SkipParts(skips)[..|skips|] == SkipParts(skips);
  }

  // ----- decoding -----

  lemma {:induction false} DecodeStep(l: ParsedPostingList, count: nat, c: Cursor, front: seq<Posting>)
    requires count > 0
    ensures ReadPosting(l, c) == None ==> PrefixedAt(front, DecodeFrom(l, count, c)) == None
    ensures ReadPosting(l, c).Some? ==>
              (PrefixedAt(front, DecodeFrom(l, count, c))
               == PrefixedAt(front + [ReadPosting(l, c).value.0], DecodeFrom(l, count - 1, ReadPosting(l, c).value.1)))
  {
    hide ReadPosting;
    if ReadPosting(l, c).Some? {
      var (p, next) := ReadPosting(l, c).value;
      var rest := DecodeFrom(l, count - 1, next);
      if rest.Some? {
        assert front + ([p] + rest.value.0) == (front + [p]) + rest.value.0;
      }
    }
  }

  lemma {:induction false} DecodeDone(l: ParsedPostingList, c: Cursor, front: seq<Posting>)
    ensures PrefixedAt(front, DecodeFrom(l, 0, c)) == Some((front, c))
  {
    PrefixedAtEnd(front, c);
  }

  /** `decode_all` */
  method DecodeAllPostings(l: ParsedPostingList) returns (r: Option<seq<Posting>>)
    ensures r == DecodeAll(l)
  {
    hide ReadPosting, DecodeFrom, Valid, PrefixedAt;
    if l.docCount > MAX_COLLECTION_ENTRIES || l.docCount > |l.docIds| || l.docCount > |l.frequencies| {
      return None;
    }
    var postings: seq<Posting>, c := [], Cursor(0, 0, 0, 0);
    PrefixedAtNothing(DecodeFrom(l, l.docCount, c));
    for i := 0 to l.docCount
      invariant DecodeFrom(l, l.docCount, Cursor(0, 0, 0, 0)) == PrefixedAt(postings, DecodeFrom(l, l.docCount - i, c))
    {
      DecodeStep(l, l.docCount - i, c, postings);
      var read := ReadPosting(l, c);
      if read.None? {
        return None;
      }
      postings := postings + [read.value.0];
      c := read.value.1;
    }
    DecodeDone(l, c, postings);
    if c.doc != |l.docIds| || c.frequency != |l.frequencies| || c.position != |l.positions| {
      return None;
    }
    var valid := ValidatePostings(postings);
    return if valid then Some(postings) else None;
  }

  // ----- seeking -----

  predicate FirstsIncrease(skips: seq<SkipEntry>) {
    forall i, j :: 0 <= i < j < |skips| ==> skips[i].firstDocId < skips[j].firstDocId
  }

  lemma {:induction false} SkipBeforeAt(skips: seq<SkipEntry>, target: nat, n: nat)
    requires n <= |skips|
    requires forall k :: 0 <= k < n ==> skips[k].firstDocId <= target
    requires forall k :: n <= k < |skips| ==> skips[k].firstDocId > target
    ensures SkipBefore(skips, target) == if n == 0 then None else Some(skips[n - 1])
    decreases n
  {
    if n > 0 {
      SkipBeforeAt(skips[1..], target, n - 1);
    }
  }

  /** `skip_before_or_at`: binary search for the first entry behind the target. */
  method SkipBeforeOrAt(skips: seq<SkipEntry>, target: nat) returns (r: Option<SkipEntry>)
    requires FirstsIncrease(skips)
    ensures r == SkipBefore(skips, target)
  {
    var low, high := 0, |skips|;
    while low < high
      invariant 0 <= low <= high <= |skips|
      invariant forall k :: 0 <= k < low ==> skips[k].firstDocId <= target
      invariant forall k :: high <= k < |skips| ==> skips[k].firstDocId > target
    {
      var mid := (low + high) / 2;
      if skips[mid].firstDocId <= target {
        low := mid + 1;
      } else {
        high := mid;
      }
    }
    SkipBeforeAt(skips, target, low);
    return if low == 0 then None else Some(skips[low - 1]);
  }

  lemma {:induction false} NeighboursSuffice(skips: seq<SkipEntry>)
    requires forall a, b :: 0 <= a < b < |skips| ==> b > a + 1 || skips[a].firstDocId < skips[b].firstDocId
    ensures FirstsIncrease(skips)
  {
    forall i, j | 0 <= i < j < |skips| ensures skips[i].firstDocId < skips[j].firstDocId {
      Climb(skips, i, j);
    }
  }

  lemma {:induction false} Climb(skips: seq<SkipEntry>, i: nat, j: nat)
    requires forall a, b :: 0 <= a < b < |skips| ==> b > a + 1 || skips[a].firstDocId < skips[b].firstDocId
    requires i < j < |skips|
    ensures skips[i].firstDocId < skips[j].firstDocId
    decreases j
  {
    if i < j - 1 {
      Climb(skips, i, j - 1);
    }
    assert skips[j - 1].firstDocId < skips[j].firstDocId;
  }

  lemma {:induction false} ParsedSkipsIncrease(crc: Checksum, data: seq<byte>)
    requires Parse(crc, data).Some?
    ensures FirstsIncrease(Parse(crc, data).value.skips)
  {
    hide ReadVarints, DecodeSkips, Opened, SkipCount;
    NeighboursSuffice(Parse(crc, data).value.skips);
  }

  /** `seek_doc`: from the cursors of the skip entry on, posting by posting. */
  method SeekDoc(crc: Checksum, data: seq<byte>, target: nat) returns (r: Option<Option<Posting>>)
    ensures r == Seek(crc, data, target)
  {
    hide Parse, ReadPosting, SkipBefore;
    var parsed := Parse(crc, data);
    if parsed.None? {
      return None;
    }
    var l := parsed.value;
    ParsedSkipsIncrease(crc, data);
    var skip := SkipBeforeOrAt(l.skips, target);
    if skip.None? {
      return Some(None);
    }
    var e := skip.value;
    var c := Cursor(e.docIdsOffset, e.frequenciesOffset, e.positionsOffset, e.previousDocId);
    var ordinal := e.ordinal;
    while ordinal < l.docCount
      invariant Seek(crc, data, target) == SeekFrom(l, ordinal, c, target)
      decreases l.docCount - ordinal
    {
      var read := ReadPosting(l, c);
      if read.None? {
        return None;
      }
      var p := read.value.0;
      if p.docId == target {
        return Some(Some(p));
      }
      if p.docId > target {
        return Some(None);
      }
      c := read.value.1;
      ordinal := ordinal + 1;
    }
    return Some(None);
  }
}
