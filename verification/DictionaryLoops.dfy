/** The loops over term dictionaries (crates/compact-core/src/search/dictionary.rs) against their specifications. */
module DictionaryLoops {
  import opened Wrappers
  import opened Bytes
  import Postings
  import opened Dictionary
  import PostingLoops
  import Varint

  // ----- lookup -----

  /** `find_term`: binary search over the sorted entries. */
  method FindTerm(entries: seq<TermEntry>, term: Text) returns (r: Option<TermEntry>)
    requires forall i, j :: 0 <= i < j < |entries| ==> Less(entries[i].term, entries[j].term)
    ensures r == Find(entries, term)
  {
    hide Less, Find;
    FindIs(entries, term);
    var low, high := 0, |entries|;
    while low < high
      invariant 0 <= low <= high <= |entries|
      invariant forall k :: 0 <= k < low ==> entries[k].term != term
      invariant forall k :: high <= k < |entries| ==> entries[k].term != term
    {
      var mid := (low + high) / 2;
      LessTotal(entries[mid].term, term);
      if entries[mid].term == term {
        OnlyOne(entries, term, mid);
        return Some(entries[mid]);
      }
      if Less(entries[mid].term, term) {
        BelowMissing(entries, term, mid);
        low := mid + 1;
      } else {
        AboveMissing(entries, term, mid);
        high := mid;
      }
    }
    return None;
  }

  lemma {:induction false} OnlyOne(entries: seq<TermEntry>, term: Text, mid: nat)
    requires forall i, j :: 0 <= i < j < |entries| ==> Less(entries[i].term, entries[j].term)
    requires mid < |entries| && entries[mid].term == term
    ensures forall k :: 0 <= k < |entries| && entries[k].term == term ==> k == mid
  {
    forall k | 0 <= k < |entries| && entries[k].term == term ensures k == mid {
      LessTotal(term, term);
    }
  }

  lemma {:induction false} BelowMissing(entries: seq<TermEntry>, term: Text, mid: nat)
    requires forall i, j :: 0 <= i < j < |entries| ==> Less(entries[i].term, entries[j].term)
    requires mid < |entries| && Less(entries[mid].term, term)
    ensures forall k :: 0 <= k <= mid ==> entries[k].term != term
  {
    forall k | 0 <= k <= mid ensures entries[k].term != term {
      LessTotal(entries[mid].term, term);
      if k < mid {
        assert Less(entries[k].term, entries[mid].term);
      }
    }
  }

  lemma {:induction false} AboveMissing(entries: seq<TermEntry>, term: Text, mid: nat)
    requires forall i, j :: 0 <= i < j < |entries| ==> Less(entries[i].term, entries[j].term)
    requires mid < |entries| && Less(term, entries[mid].term)
    ensures forall k :: mid <= k < |entries| ==> entries[k].term != term
  {
    forall k | mid <= k < |entries| ensures entries[k].term != term {
      LessTotal(term, entries[mid].term);
      if k > mid {
        assert Less(entries[mid].term, entries[k].term);
      }
    }
  }

  /** Decoded entries are in strictly increasing order of their terms. */
  lemma {:induction false} DecodedIncrease(data: seq<byte>, pos: nat, count: nat, previous: Text, expected: nat,
                                           limit: nat)
    requires DecodeEntries(data, pos, count, previous, expected, limit).Some?
    ensures var es := DecodeEntries(data, pos, count, previous, expected, limit).value.0;
            && (forall k :: 0 <= k < |es| ==> Less(previous, es[k].term))
            && (forall i, j :: 0 <= i < j < |es| ==> Less(es[i].term, es[j].term))
    decreases count
  {
    hide Less, ReadEntry;
    if count > 0 {
      var (e, next) := ReadEntry(data, pos).value;
      DecodedIncrease(data, next, count - 1, e.term, expected + e.len, limit);
      var es := DecodeEntries(data, pos, count, previous, expected, limit).value.0;
      forall k | 0 <= k < |es| ensures Less(previous, es[k].term) {
        if k > 0 {
          LessTransitive(previous, e.term, es[1..][k - 1].term);
        }
      }
      forall i, j | 0 <= i < j < |es| ensures Less(es[i].term, es[j].term) {
        if i > 0 {
          assert Less(es[1..][i - 1].term, es[1..][j - 1].term);
        } else {
          assert Less(e.term, es[1..][j - 1].term);
        }
      }
    }
  }

  lemma {:induction false} ParsedIncrease(crc: Checksum, data: seq<byte>)
    requires Parse(crc, data).Some?
    ensures var es := Parse(crc, data).value.entries;
            forall i, j :: 0 <= i < j < |es| ==> Less(es[i].term, es[j].term)
  {
    hide Postings.Opened, Postings.ReadVarints, DecodeEntries, Less;
    var body := Postings.Opened(crc, TermMagic(), data).value;
    var (w, start) := Postings.ReadVarints(body, 0, 3).value;
    DecodedIncrease(body[start..start + w[1]], 0, w[0], [], 0, w[2]);
  }

  /** `lookup_term` by binary search. */
  method LookupTerm(crc: Checksum, data: seq<byte>, term: Text) returns (r: Option<Option<seq<Postings.Posting>>>)
    ensures r == Lookup(crc, data, term)
  {
    hide Parse, Find, Postings.Parse, Less, Payload;
    var parsed := Parse(crc, data);
    if parsed.None? {
      return None;
    }
    ParsedIncrease(crc, data);
    var entry := FindTerm(parsed.value.entries, term);
    if entry.None? {
      return Some(None);
    }
    var list := Postings.Parse(crc, Payload(parsed.value, entry.value));
    if list.None? {
      return None;
    }
    var postings := PostingLoops.DecodeAllPostings(list.value);
    return if postings.None? then None else Some(Some(postings.value));
  }

  /** `seek_term_doc` by binary search and the skip table. */
  method SeekTermDoc(crc: Checksum, data: seq<byte>, term: Text,
                     docId: nat) returns (r: Option<Option<Postings.Posting>>)
    ensures r == SeekTerm(crc, data, term, docId)
  {
    hide Parse, Find, Postings.Seek, Less, Payload;
    var parsed := Parse(crc, data);
    if parsed.None? {
      return None;
    }
    ParsedIncrease(crc, data);
    var entry := FindTerm(parsed.value.entries, term);
    if entry.None? {
      return Some(None);
    }
    r := PostingLoops.SeekDoc(crc, Payload(parsed.value, entry.value), docId);
  }

  // ----- encoding -----

  /** `validate_terms` */
  method ValidateTerms(lists: seq<TermList>) returns (ok: bool)
    ensures ok == TermsIncrease(TermsOf(lists))
  {
    hide Less;
    ghost var terms := TermsOf(lists);
    for i := 0 to |lists|
      invariant forall k :: 0 <= k < i ==> terms[k] != []
      invariant forall a, b :: 0 <= a < b < i ==> b > a + 1 || Less(terms[a], terms[b])
    {
      assert terms[i] == lists[i].term;
      if lists[i].term == [] {
        return false;
      }
      if i > 0 && !Less(lists[i - 1].term, lists[i].term) {
        assert terms[i - 1] == lists[i - 1].term;
        return false;
      }
    }
    return true;
  }

  lemma {:induction false} EntriesSnoc(es: seq<TermEntry>, e: TermEntry)
    ensures EntriesBytes(es + [e]) == EntriesBytes(es) + EntryBytes(e)
  {
    hide EntryBytes;
    if es == [] {
      assert [] + [e] == [e] && [e][1..] == [];
    } else {
      EntriesSnoc(es[1..], e);
      assert (es + [e])[1..] == es[1..] + [e];
    }
  }

  lemma {:induction false} PayloadStep(crc: Checksum, lists: seq<TermList>, step: nat, i: nat, front: seq<seq<byte>>)
    requires i < |lists|
    ensures Postings.Encode(crc, lists[i].postings, step) == None ==> Prefixed(front, Payloads(crc, lists[i..], step)) == None
    ensures Postings.Encode(crc, lists[i].postings, step).Some? ==>
              (Prefixed(front, Payloads(crc, lists[i..], step))
               == Prefixed(front + [Postings.Encode(crc, lists[i].postings, step).value], Payloads(crc, lists[i + 1..], step)))
  {
    hide Postings.Encode;
    assert lists[i..][0] == lists[i] && lists[i..][1..] == lists[i + 1..];
    if Postings.Encode(crc, lists[i].postings, step).Some? && Payloads(crc, lists[i + 1..], step).Some? {
      var (p, rest) := (Postings.Encode(crc, lists[i].postings, step).value, Payloads(crc, lists[i + 1..], step).value);
      assert front + ([p] + rest) == (front + [p]) + rest;
    }
  }

  /** The entries written so far do not change when more payloads follow. */
  lemma {:induction false} EntriesGrow(lists: seq<TermList>, i: nat, payloads: seq<seq<byte>>, p: seq<byte>)
    requires i < |lists| && |payloads| == i
    ensures EntriesOf(lists[..i + 1], payloads + [p])
         == EntriesOf(lists[..i], payloads) + [TermEntry(lists[i].term, |Concat(payloads)|, |p|, |lists[i].postings|)]
  {
    hide Concat;
    var (all, front) := (payloads + [p], EntriesOf(lists[..i], payloads));
    forall k | 0 <= k < i ensures EntryOf(lists[..i + 1], all, k) == front[k] {
      assert all[..k] == payloads[..k];
    }
    assert all[..i] == payloads;
  }

  /** `encode_dictionary`: metadata and payloads grow side by side. */
  method EncodeDictionary(crc: Checksum, lists: seq<TermList>, step: nat) returns (r: Option<seq<byte>>)
    ensures r == Encode(crc, lists, step)
  {
    hide Postings.Encode, Payloads, EntriesOf, EntriesBytes, Concat, Postings.Sealed, Varint.Encode, Varint.EncodeAll;
    hide TermsIncrease, Prefixed;
    var valid := ValidateTerms(lists);
    if !valid {
      return None;
    }
    var dictionary: seq<byte>, blob: seq<byte> := [], [];
    ghost var payloads: seq<seq<byte>> := [];
    assert lists[0..] == lists && lists[..0] == [];
    PrefixedNothing(Payloads(crc, lists, step));
    NothingWritten();
    for i := 0 to |lists|
      invariant |payloads| == i
      invariant blob == Concat(payloads) && dictionary == EntriesBytes(EntriesOf(lists[..i], payloads))
      invariant Payloads(crc, lists, step) == Prefixed(payloads, Payloads(crc, lists[i..], step))
    {
      PayloadStep(crc, lists, step, i, payloads);
      BehindNone(payloads);
      var encoded := PostingLoops.EncodePostings(crc, lists[i].postings, step);
      if encoded.None? {
        return None;
      }
      var entry := TermEntry(lists[i].term, |blob|, |encoded.value|, |lists[i].postings|);
      EntriesGrow(lists, i, payloads, encoded.value);
      EntriesSnoc(EntriesOf(lists[..i], payloads), entry);
      ConcatPush(payloads, encoded.value);
      dictionary := dictionary + EntryBytes(entry);
      blob := blob + encoded.value;
      payloads := payloads + [encoded.value];
    }
    BehindAll(crc, lists, step, payloads);
    assert lists[..|lists|] == lists;
    var body := Varint.EncodeAll([|lists|, |dictionary|, |blob|]) + (dictionary + blob);
    return Some(Postings.Sealed(crc, TermMagic(), body));
  }

  lemma NothingWritten()
    ensures Concat([]) == [] && EntriesBytes(EntriesOf([], [])) == []
  {
  }

  lemma {:induction false} BehindNone(front: seq<seq<byte>>)
    ensures Prefixed(front, None) == None
  {
  }

  lemma {:induction false} BehindAll(crc: Checksum, lists: seq<TermList>, step: nat, front: seq<seq<byte>>)
    ensures Prefixed(front, Payloads(crc, lists[|lists|..], step)) == Some(front)
  {
    PrefixedEnd(front);
  }
}
