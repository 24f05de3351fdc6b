/** Boolean, ranked and phrase queries over a term dictionary (crates/compact-core/src/search/query.rs). */
module Query {
  import opened Wrappers
  import opened Bytes
  import Postings
  import Dictionary
  import DictionaryLoops
  import Varint

  type Text = seq<byte>
  type Posting = Postings.Posting

  datatype TopKHit = TopKHit(docId: nat, score: nat)

  // ----- what the queries mean, over the posting lists of the terms -----

  /** The postings of every term; a missing term has none. */
  type Lists = Text -> seq<Posting>

  /** What a dictionary, corrupt or not, answers for the terms that it can look up. */
  function ListsOf(crc: Checksum, dictionary: seq<byte>): Lists {
    term => match Dictionary.Lookup(crc, dictionary, term) case Some(Some(ps)) => ps case _ => []
  }

  ghost predicate HasDoc(ps: seq<Posting>, docId: nat) {
    exists k :: 0 <= k < |ps| && ps[k].docId == docId
  }

  /** How often a term occurs in a document. */
  function Frequency(ps: seq<Posting>, docId: nat): nat {
    if ps == [] then 0 else if ps[0].docId == docId then |ps[0].positions| else Frequency(ps[1..], docId)
  }

  /** The summed frequency of the terms in a document; a term asked for twice counts twice. */
  function Score(of: Lists, terms: seq<Text>, docId: nat): nat {
    if terms == [] then 0 else Score(of, terms[..|terms| - 1], docId) + Frequency(of(terms[|terms| - 1]), docId)
  }

  /** The total order of the ranking: score descending, then document ascending. */
  predicate Before(a: TopKHit, b: TopKHit) {
    a.score > b.score || (a.score == b.score && a.docId < b.docId)
  }

  /** The positions at which a term occurs in a document. */
  ghost function PositionsIn(ps: seq<Posting>, docId: nat): set<nat> {
    set k, j | 0 <= k < |ps| && ps[k].docId == docId && 0 <= j < |ps[k].positions| :: ps[k].positions[j]
  }

  /** Every occurrence in a document: which of the terms, and where. */
  ghost function Occurrences(of: Lists, terms: seq<Text>, docId: nat): set<(nat, nat)> {
    set i, x | 0 <= i < |terms| && x in PositionsIn(of(terms[i]), docId) :: (i, x)
  }

  ghost function ValuesOf(values: seq<nat>): set<nat> {
    set x | x in values
  }

  lemma {:induction false} DistinctValues(values: seq<nat>)
    requires Postings.StrictlyIncreasing(values)
    ensures |ValuesOf(values)| == |values|
    decreases |values|
  {
    if values == [] {
      assert ValuesOf(values) == {};
    } else {
      var (front, last) := (values[..|values| - 1], values[|values| - 1]);
      FrontIncreases(values);
      DistinctValues(front);
      assert values == front + [last];
      assert ValuesOf(values) == ValuesOf(front) + {last};
    }
  }

  lemma {:induction false} FrontIncreases(values: seq<nat>)
    requires Postings.StrictlyIncreasing(values) && values != []
    ensures Postings.StrictlyIncreasing(values[..|values| - 1])
    ensures values[|values| - 1] !in values[..|values| - 1]
  {
  }

  /** The frequency of a term in a document is the number of its positions there. */
  lemma {:induction false} FrequencyCounts(ps: seq<Posting>, docId: nat)
    requires Postings.Valid(ps)
    ensures |PositionsIn(ps, docId)| == Frequency(ps, docId)
    decreases |ps|
  {
    if ps == [] {
      assert PositionsIn(ps, docId) == {};
    } else {
      var rest := ps[1..];
      RestValid(ps);
      if ps[0].docId == docId {
        assert PositionsIn(ps, docId) == ValuesOf(ps[0].positions) by {
          forall k | 0 < k < |ps| ensures ps[k].docId != docId {
            assert Postings.DocIds(ps)[0] < Postings.DocIds(ps)[k];
          }
        }
        DistinctValues(ps[0].positions);
      } else {
        FrequencyCounts(rest, docId);
        assert PositionsIn(ps, docId) == PositionsIn(rest, docId) by {
          assert ps == [ps[0]] + rest;
        }
      }
    }
  }

  lemma {:induction false} RestValid(ps: seq<Posting>)
    requires Postings.Valid(ps) && ps != []
    ensures Postings.Valid(ps[1..])
  {
    var (ids, rest) := (Postings.DocIds(ps), Postings.DocIds(ps[1..]));
    assert forall k :: 0 <= k < |rest| ==> rest[k] == ids[k + 1];
  }

  /** The positions of one term among the occurrences. */
  ghost function Tagged(n: nat, positions: set<nat>): set<(nat, nat)> {
    set x | x in positions :: (n, x)
  }

  lemma {:induction false} TaggedCount(n: nat, positions: set<nat>)
    ensures |Tagged(n, positions)| == |positions|
    decreases |positions|
  {
    if positions == {} {
      assert Tagged(n, positions) == {};
    } else {
      var p :| p in positions;
      TaggedCount(n, positions - {p});
      assert Tagged(n, positions) == Tagged(n, positions - {p}) + {(n, p)};
    }
  }

  lemma {:induction false} OccurrencesPush(of: Lists, terms: seq<Text>, docId: nat)
    requires terms != []
    ensures var (n, front) := (|terms| - 1, terms[..|terms| - 1]);
            && Occurrences(of, terms, docId) == Occurrences(of, front, docId) + Tagged(n, PositionsIn(of(terms[n]), docId))
            && Occurrences(of, front, docId) !! Tagged(n, PositionsIn(of(terms[n]), docId))
  {
    hide PositionsIn;
    var (n, front) := (|terms| - 1, terms[..|terms| - 1]);
    forall o | o in Occurrences(of, terms, docId)
      ensures o in Occurrences(of, front, docId) + Tagged(n, PositionsIn(of(terms[n]), docId))
    {
      if o.0 < n {
        assert front[o.0] == terms[o.0];
      }
    }
    forall o | o in Occurrences(of, front, docId) ensures o in Occurrences(of, terms, docId) && o.0 < n {
      assert front[o.0] == terms[o.0];
    }
  }

  /** The score of a document is the number of occurrences of the terms in it. */
  lemma {:induction false} ScoreCounts(of: Lists, terms: seq<Text>, docId: nat)
    requires forall term :: term in terms ==> Postings.Valid(of(term))
    ensures |Occurrences(of, terms, docId)| == Score(of, terms, docId)
    decreases |terms|
  {
    if terms == [] {
      assert Occurrences(of, terms, docId) == {};
    } else {
      hide PositionsIn, Postings.Valid, Frequency, Occurrences, Tagged;
      var (n, front) := (|terms| - 1, terms[..|terms| - 1]);
      ScoreCounts(of, front, docId);
      FrequencyCounts(of(terms[n]), docId);
      TaggedCount(n, PositionsIn(of(terms[n]), docId));
      OccurrencesPush(of, terms, docId);
    }
  }

  // ----- lookups -----

  /** An encoded dictionary answers for every term, with the list it has in the map. */
  lemma {:induction false} EncodedServes(crc: Checksum, lists: seq<Dictionary.TermList>, step: nat, term: Text)
    requires Dictionary.Storable(crc, lists, step)
    ensures Dictionary.Encode(crc, lists, step).Some?
    ensures var (dictionary, m) := (Dictionary.Encode(crc, lists, step).value, Dictionary.MapOf(lists));
            && Dictionary.Lookup(crc, dictionary, term).Some?
            && ListsOf(crc, dictionary)(term) == if term in m then m[term] else []
  {
    hide Dictionary.Lookup, Dictionary.Encode, Dictionary.Storable;
    Dictionary.LookupIsMap(crc, lists, step, term);
  }

  lemma {:induction false} SumsTyped(data: seq<byte>, pos: nat, count: nat, previous: nat)
    requires Postings.ReadSums(data, pos, count, previous).Some?
    ensures AllU64(Postings.ReadSums(data, pos, count, previous).value.0)
    decreases count
  {
    hide Varint.Read;
    if count > 0 {
      var (delta, next) := Varint.Read(data, pos).value;
      SumsTyped(data, next, count - 1, previous + delta);
    }
  }

  lemma {:induction false} DecodedTyped(l: Postings.ParsedPostingList, count: nat, c: Postings.Cursor)
    requires Postings.DecodeFrom(l, count, c).Some?
    ensures forall k :: 0 <= k < |Postings.DecodeFrom(l, count, c).value.0| ==>
              AllU64(Postings.DecodeFrom(l, count, c).value.0[k].positions)
    decreases count
  {
    hide Varint.Read, Postings.ReadSums, AllU64;
    if count > 0 {
      var (p, next) := Postings.ReadPosting(l, c).value;
      var frequency := Varint.Read(l.frequencies, c.frequency).value.0;
      NoneTyped();
      if Postings.ReadSums(l.positions, c.position, frequency, 0).Some? {
        SumsTyped(l.positions, c.position, frequency, 0);
      }
      DecodedTyped(l, count - 1, next);
    }
  }

  lemma NoneTyped()
    ensures AllU64([])
  {
  }

  /** On arbitrary bytes: a list that is looked up is valid, in 64-bit numbers. */
  lemma {:induction false} LookedUp(crc: Checksum, dictionary: seq<byte>, term: Text)
    ensures var ps := ListsOf(crc, dictionary)(term);
            && Postings.Valid(ps) && (forall k :: 0 <= k < |ps| ==> AllU64(ps[k].positions))
    ensures match Dictionary.Lookup(crc, dictionary, term)
            case Some(Some(ps)) => ps == ListsOf(crc, dictionary)(term)
            case _ => ListsOf(crc, dictionary)(term) == []
  {
    hide Dictionary.Parse, Dictionary.Find, Dictionary.Payload, Postings.Parse, Postings.DecodeFrom, AllU64;
    if Dictionary.Lookup(crc, dictionary, term).Some? && Dictionary.Lookup(crc, dictionary, term).value.Some? {
      var parsed := Dictionary.Parse(crc, dictionary).value;
      var l := Postings.Parse(crc, Dictionary.Payload(parsed, Dictionary.Find(parsed.entries, term).value)).value;
      DecodedTyped(l, l.docCount, Postings.Cursor(0, 0, 0, 0));
    }
  }

  // ----- conjunction -----

  /** Strictly increasing lists with the same members are the same list. */
  lemma {:induction false} IncreasingUnique(a: seq<nat>, b: seq<nat>)
    requires Postings.StrictlyIncreasing(a) && Postings.StrictlyIncreasing(b) && forall x :: x in a <==> x in b
    ensures a == b
    decreases |a|
  {
    if a != [] && b != [] {
      FirstIsLeast(a, b[0]);
      FirstIsLeast(b, a[0]);
      assert a[0] in b && b[0] in a;
      var (s, t) := (a[1..], b[1..]);
      forall x ensures x in s <==> x in t {
        TailMember(a, x);
        TailMember(b, x);
      }
      assert Postings.StrictlyIncreasing(s) && Postings.StrictlyIncreasing(t);
      IncreasingUnique(s, t);
    } else if a != [] {
      FirstIn(a);
    } else if b != [] {
      FirstIn(b);
    }
  }

  lemma {:induction false} FirstIn(a: seq<nat>)
    requires a != []
    ensures a[0] in a
  {
  }

  lemma {:induction false} FirstIsLeast(a: seq<nat>, x: nat)
    requires Postings.StrictlyIncreasing(a) && a != [] && x in a
    ensures a[0] <= x
  {
  }

  lemma {:induction false} TailMember(a: seq<nat>, x: nat)
    requires Postings.StrictlyIncreasing(a) && a != []
    ensures x in a[1..] <==> x in a && x != a[0]
  {
    if x in a && x != a[0] {
      var k :| 0 <= k < |a| && a[k] == x;
      assert a[1..][k - 1] == x;
    }
    if x in a[1..] {
      var k :| 0 <= k < |a[1..]| && a[1..][k] == x;
      assert a[k + 1] == x;
    }
  }

  /** `binary_search_by_key` on a list in document order. */
  method ContainsDoc(ps: seq<Posting>, docId: nat) returns (found: bool)
    requires Postings.Valid(ps)
    ensures found == HasDoc(ps, docId)
  {
    var low, high := 0, |ps|;
    while low < high
      invariant 0 <= low <= high <= |ps|
      invariant forall k :: 0 <= k < low ==> ps[k].docId < docId
      invariant forall k :: high <= k < |ps| ==> ps[k].docId > docId
    {
      var mid := (low + high) / 2;
      if ps[mid].docId == docId {
        return true;
      }
      if ps[mid].docId < docId {
        Sorted(ps, mid);
        low := mid + 1;
      } else {
        Sorted(ps, mid);
        high := mid;
      }
    }
    return false;
  }

  lemma {:induction false} Sorted(ps: seq<Posting>, mid: nat)
    requires Postings.Valid(ps) && mid < |ps|
    ensures forall k :: 0 <= k < mid ==> ps[k].docId < ps[mid].docId
    ensures forall k :: mid < k < |ps| ==> ps[mid].docId < ps[k].docId
  {
    var ids := Postings.DocIds(ps);
    forall k | 0 <= k < mid ensures ps[k].docId < ps[mid].docId {
      assert ids[k] < ids[mid];
    }
    forall k | mid < k < |ps| ensures ps[mid].docId < ps[k].docId {
      assert ids[mid] < ids[k];
    }
  }

  /** The lists in ascending order of length, equal lengths as they were (`sort_by_key` is stable). */
  function InsertByLen(list: seq<Posting>, sorted: seq<seq<Posting>>): (r: seq<seq<Posting>>)
    ensures |r| == |sorted| + 1
  {
    if sorted == [] || |list| <= |sorted[0]| then [list] + sorted else [sorted[0]] + InsertByLen(list, sorted[1..])
  }

  function SortByLen(lists: seq<seq<Posting>>): (r: seq<seq<Posting>>)
    ensures |r| == |lists|
  {
    if lists == [] then [] else InsertByLen(lists[0], SortByLen(lists[1..]))
  }

  lemma {:induction false} InsertMembers(list: seq<Posting>, sorted: seq<seq<Posting>>, x: seq<Posting>)
    ensures x in InsertByLen(list, sorted) <==> x == list || x in sorted
  {
    if sorted != [] && |list| > |sorted[0]| {
      InsertMembers(list, sorted[1..], x);
      var rest := InsertByLen(list, sorted[1..]);
      assert x in [sorted[0]] + rest <==> x == sorted[0] || x in rest;
      assert sorted == [sorted[0]] + sorted[1..];
    }
  }

  lemma {:induction false} SortMembers(lists: seq<seq<Posting>>, x: seq<Posting>)
    ensures x in SortByLen(lists) <==> x in lists
  {
    if lists != [] {
      SortMembers(lists[1..], x);
      InsertMembers(lists[0], SortByLen(lists[1..]), x);
      assert lists == [lists[0]] + lists[1..];
    }
  }

  /** A document is in every list of a set of lists, in whatever order they stand. */
  ghost predicate InAll(lists: seq<seq<Posting>>, docId: nat) {
    forall list :: list in lists ==> HasDoc(list, docId)
  }

  lemma {:induction false} InAllSorted(lists: seq<seq<Posting>>, docId: nat)
    ensures InAll(SortByLen(lists), docId) == InAll(lists, docId)
  {
    hide SortByLen, HasDoc;
    forall list ensures list in SortByLen(lists) <==> list in lists {
      SortMembers(lists, list);
    }
  }

  /** The inner test: every other list has the candidate. */
  method AllContain(lists: seq<seq<Posting>>, docId: nat) returns (all: bool)
    requires forall list :: list in lists ==> Postings.Valid(list)
    ensures all == InAll(lists, docId)
  {
    hide Postings.Valid, HasDoc;
    for i := 0 to |lists|
      invariant forall k :: 0 <= k < i ==> HasDoc(lists[k], docId)
    {
      assert lists[i] in lists;
      var found := ContainsDoc(lists[i], docId);
      if !found {
        return false;
      }
    }
    return true;
  }

  /** The candidates of the first list that are in all the others. */
  method Intersect(lists: seq<seq<Posting>>) returns (result: seq<nat>)
    requires lists != [] && forall list :: list in lists ==> Postings.Valid(list)
    ensures Postings.StrictlyIncreasing(result) && forall d :: d in result <==> InAll(lists, d)
  {
    hide Postings.Valid, HasDoc, Postings.StrictlyIncreasing;
    NothingIncreases();
    result := [];
    var candidates := lists[0];
    assert candidates in lists;
    for i := 0 to |candidates|
      invariant Postings.StrictlyIncreasing(result)
      invariant forall d :: d in result <==> (exists k :: 0 <= k < i && candidates[k].docId == d) && InAll(lists[1..], d)
    {
      Sorted(candidates, i);
      var d := candidates[i].docId;
      var all := AllContain(lists[1..], d);
      if all {
        forall x | x in result ensures x < d {
        }
        IncreasingSnoc(result, d);
        result := result + [d];
      }
    }
    forall d ensures d in result <==> InAll(lists, d) {
      InAllCons(lists, d);
    }
  }

  lemma {:induction false} IncreasingSnoc(ids: seq<nat>, d: nat)
    requires Postings.StrictlyIncreasing(ids) && forall x :: x in ids ==> x < d
    ensures Postings.StrictlyIncreasing(ids + [d])
  {
    forall i, j | 0 <= i < j < |ids| + 1 ensures (ids + [d])[i] < (ids + [d])[j] {
      assert ids[i] in ids;
    }
  }

  lemma {:induction false} InAllCons(lists: seq<seq<Posting>>, d: nat)
    requires lists != []
    ensures InAll(lists, d) <==> (exists k :: 0 <= k < |lists[0]| && lists[0][k].docId == d) && InAll(lists[1..], d)
  {
    assert lists == [lists[0]] + lists[1..];
    assert HasDoc(lists[0], d) <==> exists k :: 0 <= k < |lists[0]| && lists[0][k].docId == d;
  }

  /** The documents of the intersection of all terms. */
  ghost predicate Matches(of: Lists, terms: seq<Text>, docId: nat) {
    forall k :: 0 <= k < |terms| ==> HasDoc(of(terms[k]), docId)
  }

  lemma {:induction false} MatchesIsInAll(of: Lists, terms: seq<Text>, lists: seq<seq<Posting>>, docId: nat)
    requires |lists| == |terms| && forall k :: 0 <= k < |terms| ==> lists[k] == of(terms[k])
    ensures Matches(of, terms, docId) == InAll(lists, docId)
  {
    hide HasDoc;
  }

  lemma {:induction false} EmptyMatchesNothing(of: Lists, terms: seq<Text>, i: nat)
    requires i < |terms| && of(terms[i]) == []
    ensures forall d :: !Matches(of, terms, d)
  {
    forall d ensures !Matches(of, terms, d) {
      assert !HasDoc(of(terms[i]), d);
    }
  }

  /** Some term cannot be looked up, and every term in front of it has a document: the lookups stop at the first empty list. */
  ghost predicate LookupFails(crc: Checksum, dictionary: seq<byte>, terms: seq<Text>) {
    exists i :: 0 <= i < |terms| && Dictionary.Lookup(crc, dictionary, terms[i]).None?
      && forall j :: 0 <= j < i ==> ListsOf(crc, dictionary)(terms[j]) != []
  }

  /**
    `and_doc_ids`, on arbitrary bytes: an error when a lookup fails before an empty list is met, and otherwise the
    strictly increasing list of exactly the documents that every term has (none for no terms), whatever order the sort
    by length puts the lists in.
  */
  method AndDocIds(crc: Checksum, dictionary: seq<byte>, terms: seq<Text>) returns (r: Option<seq<nat>>)
    ensures r.None? <==> LookupFails(crc, dictionary, terms)
    ensures r.Some? ==> Postings.StrictlyIncreasing(r.value)
    ensures r.Some? ==> forall d :: d in r.value <==> terms != [] && Matches(ListsOf(crc, dictionary), terms, d)
  {
    hide Dictionary.Lookup, ListsOf, Postings.Valid, HasDoc, SortByLen, Matches, InAll, Postings.StrictlyIncreasing;
    NothingIncreases();
    ghost var of := ListsOf(crc, dictionary);
    if terms == [] {
      return Some([]);
    }
    var lists: seq<seq<Posting>> := [];
    for i := 0 to |terms|
      invariant |lists| == i
      invariant forall k :: 0 <= k < i ==> lists[k] == of(terms[k]) && of(terms[k]) != [] && Dictionary.Lookup(crc, dictionary, terms[k]).Some?
      invariant forall list :: list in lists ==> Postings.Valid(list)
    {
      LookedUp(crc, dictionary, terms[i]);
      var found := DictionaryLoops.LookupTerm(crc, dictionary, terms[i]);
      if found.None? {
        return None;
      }
      var postings := if found.value.None? then [] else found.value.value;
      if postings == [] {
        EmptyMatchesNothing(of, terms, i);
        return Some([]);
      }
      lists := lists + [postings];
    }
    var sorted := SortByLen(lists);
    forall list | list in sorted ensures Postings.Valid(list) {
      SortMembers(lists, list);
    }
    var result := Intersect(sorted);
    forall d ensures d in result <==> Matches(of, terms, d) {
      InAllSorted(lists, d);
      MatchesIsInAll(of, terms, lists, d);
    }
    return Some(result);
  }

  lemma NothingIncreases()
    ensures Postings.StrictlyIncreasing([])
  {
  }

  // ----- ranking -----

  function ScoreOf(hits: seq<TopKHit>, docId: nat): nat {
    if hits == [] then 0 else if hits[0].docId == docId then hits[0].score else ScoreOf(hits[1..], docId)
  }

  /** One hit per document, each with a positive score. */
  ghost predicate Tally(hits: seq<TopKHit>) {
    && (forall i, j :: 0 <= i < j < |hits| ==> hits[i].docId != hits[j].docId)
    && forall i :: 0 <= i < |hits| ==> hits[i].score > 0
  }

  lemma {:induction false} ScoreOfAt(hits: seq<TopKHit>, k: nat)
    requires Tally(hits) && k < |hits|
    ensures ScoreOf(hits, hits[k].docId) == hits[k].score
    decreases k
  {
    if k > 0 {
      ScoreOfAt(hits[1..], k - 1);
    }
  }

  lemma {:induction false} ScoreOfMissing(hits: seq<TopKHit>, docId: nat)
    requires forall k :: 0 <= k < |hits| ==> hits[k].docId != docId
    ensures ScoreOf(hits, docId) == 0
  {
    if hits != [] {
      ScoreOfMissing(hits[1..], docId);
    }
  }

  /** A positive score belongs to a hit. */
  lemma {:induction false} ScoreOfFound(hits: seq<TopKHit>, docId: nat) returns (k: nat)
    requires ScoreOf(hits, docId) > 0
    ensures k < |hits| && hits[k] == TopKHit(docId, ScoreOf(hits, docId))
  {
    if hits[0].docId == docId {
      k := 0;
    } else {
      k := ScoreOfFound(hits[1..], docId);
      k := k + 1;
    }
  }

  lemma {:induction false} ScoreOfUpdate(hits: seq<TopKHit>, k: nat, score: nat, docId: nat)
    requires Tally(hits) && k < |hits|
    ensures ScoreOf(hits[k := TopKHit(hits[k].docId, score)], docId) == if docId == hits[k].docId then score else ScoreOf(hits, docId)
    decreases k
  {
    var changed := hits[k := TopKHit(hits[k].docId, score)];
    if k > 0 {
      ScoreOfUpdate(hits[1..], k - 1, score, docId);
      assert changed[1..] == hits[1..][k - 1 := TopKHit(hits[k].docId, score)];
    }
  }

  lemma {:induction false} ScoreOfPush(hits: seq<TopKHit>, hit: TopKHit, docId: nat)
    requires forall k :: 0 <= k < |hits| ==> hits[k].docId != hit.docId
    ensures ScoreOf(hits + [hit], docId) == if docId == hit.docId then hit.score else ScoreOf(hits, docId)
  {
    if hits == [] {
      assert [] + [hit] == [hit];
    } else {
      ScoreOfPush(hits[1..], hit, docId);
      assert (hits + [hit])[1..] == hits[1..] + [hit];
    }
  }

  /** The search for the hit of a document. */
  method FindHit(hits: seq<TopKHit>, docId: nat) returns (k: nat)
    ensures k <= |hits| && (k < |hits| ==> hits[k].docId == docId)
    ensures k == |hits| ==> forall i :: 0 <= i < |hits| ==> hits[i].docId != docId
  {
    k := 0;
    while k < |hits|
      invariant k <= |hits| && forall i :: 0 <= i < k ==> hits[i].docId != docId
    {
      if hits[k].docId == docId {
        return;
      }
      k := k + 1;
    }
  }

  /** Counting one posting adds its frequency to its document and to no other. */
  method AddPosting(hits: seq<TopKHit>, p: Posting) returns (r: seq<TopKHit>)
    requires Tally(hits)
    ensures Tally(r)
    ensures forall d :: ScoreOf(r, d) == ScoreOf(hits, d) + if d == p.docId then |p.positions| else 0
  {
    var score := |p.positions|;
    if score == 0 {
      return hits;
    }
    var k := FindHit(hits, p.docId);
    hide ScoreOf;
    if k < |hits| {
      ScoreOfAt(hits, k);
      r := hits[k := TopKHit(hits[k].docId, hits[k].score + score)];
      forall d ensures ScoreOf(r, d) == ScoreOf(hits, d) + if d == p.docId then score else 0 {
        ScoreOfUpdate(hits, k, hits[k].score + score, d);
      }
    } else {
      ScoreOfMissing(hits, p.docId);
      r := hits + [TopKHit(p.docId, score)];
      forall d ensures ScoreOf(r, d) == ScoreOf(hits, d) + if d == p.docId then score else 0 {
        ScoreOfPush(hits, TopKHit(p.docId, score), d);
      }
    }
  }

  lemma {:induction false} FrequencySnoc(ps: seq<Posting>, j: nat, docId: nat)
    requires Postings.Valid(ps) && j < |ps|
    ensures Frequency(ps[..j + 1], docId) == Frequency(ps[..j], docId) + if docId == ps[j].docId then |ps[j].positions| else 0
  {
    Sorted(ps, j);
    FrequencyPush(ps[..j], ps[j], docId);
    assert ps[..j + 1] == ps[..j] + [ps[j]];
  }

  lemma {:induction false} FrequencyPush(ps: seq<Posting>, p: Posting, docId: nat)
    requires forall k :: 0 <= k < |ps| ==> ps[k].docId != p.docId
    ensures Frequency(ps + [p], docId) == Frequency(ps, docId) + if docId == p.docId then |p.positions| else 0
  {
    if ps == [] {
      assert [] + [p] == [p] && [p][1..] == [];
    } else {
      FrequencyPush(ps[1..], p, docId);
      assert (ps + [p])[1..] == ps[1..] + [p];
      if ps[0].docId == docId {
        assert docId != p.docId;
      }
    }
  }

  /** All postings of one term. */
  method AddTerm(hits: seq<TopKHit>, ps: seq<Posting>) returns (r: seq<TopKHit>)
    requires Tally(hits) && Postings.Valid(ps)
    ensures Tally(r) && forall d :: ScoreOf(r, d) == ScoreOf(hits, d) + Frequency(ps, d)
  {
    hide Tally, ScoreOf, Frequency, Postings.Valid;
    r := hits;
    NoFrequency(ps);
    for j := 0 to |ps|
      invariant Tally(r)
      invariant forall d :: ScoreOf(r, d) == ScoreOf(hits, d) + Frequency(ps[..j], d)
    {
      forall d ensures Frequency(ps[..j + 1], d) == Frequency(ps[..j], d) + if d == ps[j].docId then |ps[j].positions| else 0 {
        FrequencySnoc(ps, j, d);
      }
      r := AddPosting(r, ps[j]);
    }
    assert ps[..|ps|] == ps;
  }

  lemma {:induction false} NoFrequency(ps: seq<Posting>)
    ensures forall d :: Frequency(ps[..0], d) == 0
  {
  }

  // ----- sorting the hits -----

  function Insert(hit: TopKHit, sorted: seq<TopKHit>): (r: seq<TopKHit>)
    ensures |r| == |sorted| + 1
  {
    if sorted == [] || Before(hit, sorted[0]) then [hit] + sorted else [sorted[0]] + Insert(hit, sorted[1..])
  }

  function Sort(hits: seq<TopKHit>): (r: seq<TopKHit>)
    ensures |r| == |hits|
  {
    if hits == [] then [] else Insert(hits[0], Sort(hits[1..]))
  }

  predicate Ranked(hits: seq<TopKHit>) {
    forall i, j :: 0 <= i < j < |hits| ==> Before(hits[i], hits[j])
  }

  lemma {:induction false} InsertHas(hit: TopKHit, sorted: seq<TopKHit>, x: TopKHit)
    ensures x in Insert(hit, sorted) <==> x == hit || x in sorted
  {
    if sorted != [] && !Before(hit, sorted[0]) {
      InsertHas(hit, sorted[1..], x);
      var rest := Insert(hit, sorted[1..]);
      assert x in [sorted[0]] + rest <==> x == sorted[0] || x in rest;
      assert sorted == [sorted[0]] + sorted[1..];
    }
  }

  lemma {:induction false} InsertRanked(hit: TopKHit, sorted: seq<TopKHit>)
    requires Ranked(sorted) && forall x :: x in sorted ==> x.docId != hit.docId
    ensures Ranked(Insert(hit, sorted))
  {
    if sorted != [] && !Before(hit, sorted[0]) {
      var rest := Insert(hit, sorted[1..]);
      assert sorted[0] in sorted;
      forall x | x in sorted[1..] ensures x in sorted {
      }
      InsertRanked(hit, sorted[1..]);
      forall j | 0 <= j < |rest| ensures Before(sorted[0], rest[j]) {
        InsertHas(hit, sorted[1..], rest[j]);
        if rest[j] != hit {
          var k :| 0 <= k < |sorted[1..]| && sorted[1..][k] == rest[j];
          assert Before(sorted[0], sorted[k + 1]);
        }
      }
    } else if sorted != [] {
      forall j | 0 <= j < |sorted| ensures Before(hit, sorted[j]) {
        if j > 0 {
          assert Before(sorted[0], sorted[j]);
        }
      }
    }
  }

  lemma {:induction false} SortHas(hits: seq<TopKHit>, x: TopKHit)
    ensures x in Sort(hits) <==> x in hits
  {
    if hits != [] {
      SortHas(hits[1..], x);
      InsertHas(hits[0], Sort(hits[1..]), x);
      assert hits == [hits[0]] + hits[1..];
    }
  }

  lemma {:induction false} SortRanks(hits: seq<TopKHit>)
    requires Tally(hits)
    ensures Ranked(Sort(hits))
  {
    if hits != [] {
      SortRanks(hits[1..]);
      forall x | x in Sort(hits[1..]) ensures x.docId != hits[0].docId {
        SortHas(hits[1..], x);
        var k :| 0 <= k < |hits[1..]| && hits[1..][k] == x;
        assert hits[k + 1] == x;
      }
      InsertRanked(hits[0], Sort(hits[1..]));
    }
  }

  /**
    The first `k` documents of the ranking: in order, with their true positive scores, and every other document
    with a positive score comes behind all of them, which is possible only when there are `k`.
  */
  ghost predicate TopK(of: Lists, terms: seq<Text>, k: nat, r: seq<TopKHit>) {
    && |r| <= k
    && (forall i, j :: 0 <= i < j < |r| ==> Behind(r[j].docId, r[j].score, r[i]))
    && (forall i :: 0 <= i < |r| ==> r[i].score > 0 && r[i].score == Score(of, terms, r[i].docId))
    && forall d :: Score(of, terms, d) > 0 && TopKHit(d, Score(of, terms, d)) !in r ==>
         |r| == k && forall i :: 0 <= i < |r| ==> Behind(d, Score(of, terms, d), r[i])
  }

  /** A document comes behind a hit: its score is smaller, or the same and its number is greater. */
  ghost predicate Behind(docId: nat, score: nat, hit: TopKHit) {
    score <= hit.score && (score == hit.score ==> hit.docId < docId)
  }

  /**
    `top_k_by_term_frequency`, on arbitrary bytes: an error exactly when a lookup fails; no terms, or no hits asked for,
    give none.
  */
  method TopKByTermFrequency(crc: Checksum, dictionary: seq<byte>, terms: seq<Text>,
                             k: nat) returns (r: Option<seq<TopKHit>>)
    ensures r.None? <==> k > 0 && exists term :: term in terms && Dictionary.Lookup(crc, dictionary, term).None?
    ensures r.Some? ==> TopK(ListsOf(crc, dictionary), terms, k, r.value)
  {
    hide Dictionary.Lookup, ListsOf, Postings.Valid, Tally, ScoreOf, Score, TopK, Frequency, Sort;
    ghost var of := ListsOf(crc, dictionary);
    if k == 0 || terms == [] {
      TopKOfNothing(of, terms, k);
      return Some([]);
    }
    var hits: seq<TopKHit> := [];
    NothingScored(of, terms);
    for t := 0 to |terms|
      invariant Tally(hits) && forall d :: ScoreOf(hits, d) == Score(of, terms[..t], d)
      invariant forall i :: 0 <= i < t ==> Dictionary.Lookup(crc, dictionary, terms[i]).Some?
    {
      LookedUp(crc, dictionary, terms[t]);
      var found := DictionaryLoops.LookupTerm(crc, dictionary, terms[t]);
      if found.None? {
        assert terms[t] in terms;
        return None;
      }
      var postings := if found.value.None? then [] else found.value.value;
      forall d ensures Score(of, terms[..t + 1], d) == Score(of, terms[..t], d) + Frequency(postings, d) {
        ScoreSnoc(of, terms, t, d);
      }
      hits := AddTerm(hits, postings);
    }
    assert terms[..|terms|] == terms;
    var scores := Sort(hits);
    FirstOfSorted(of, terms, k, hits);
    return Some(if |scores| > k then scores[..k] else scores);
  }

  lemma {:induction false} NothingScored(of: Lists, terms: seq<Text>)
    ensures Tally([]) && forall d :: ScoreOf([], d) == Score(of, terms[..0], d)
  {
  }

  lemma {:induction false} ScoreSnoc(of: Lists, terms: seq<Text>, t: nat, d: nat)
    requires t < |terms|
    ensures Score(of, terms[..t + 1], d) == Score(of, terms[..t], d) + Frequency(of(terms[t]), d)
  {
    assert terms[..t + 1][..t] == terms[..t];
  }

  lemma {:induction false} TopKOfNothing(of: Lists, terms: seq<Text>, k: nat)
    requires k == 0 || terms == []
    ensures TopK(of, terms, k, [])
  {
  }

  lemma {:induction false} FirstOfSorted(of: Lists, terms: seq<Text>, k: nat, hits: seq<TopKHit>)
    requires Tally(hits) && forall d :: ScoreOf(hits, d) == Score(of, terms, d)
    ensures TopK(of, terms, k, if |Sort(hits)| > k then Sort(hits)[..k] else Sort(hits))
  {
    hide ScoreOf, Score, Sort;
    var scores := Sort(hits);
    var r := if |scores| > k then scores[..k] else scores;
    SortRanks(hits);
    forall i | 0 <= i < |r| ensures r[i].score > 0 && r[i].score == Score(of, terms, r[i].docId) {
      assert r[i] == scores[i] && scores[i] in scores;
      SortHas(hits, r[i]);
      var j :| 0 <= j < |hits| && hits[j] == r[i];
      ScoreOfAt(hits, j);
    }
    forall d | Score(of, terms, d) > 0 && TopKHit(d, Score(of, terms, d)) !in r
      ensures |r| == k && forall i :: 0 <= i < |r| ==> Behind(d, Score(of, terms, d), r[i])
    {
      var hit := TopKHit(d, Score(of, terms, d));
      var n := ScoreOfFound(hits, d);
      assert hits[n] in hits;
      SortHas(hits, hit);
      var j :| 0 <= j < |scores| && scores[j] == hit;
      OutsidePrefix(scores, k, j);
      assert forall i :: 0 <= i < |r| ==> r[i] == scores[i] && Before(scores[i], hit);
    }
  }

  lemma {:induction false} OutsidePrefix(scores: seq<TopKHit>, k: nat, j: nat)
    requires Ranked(scores) && j < |scores|
    requires scores[j] !in if |scores| > k then scores[..k] else scores
    ensures |scores| > k && j >= k && forall i :: 0 <= i < k ==> Before(scores[i], scores[j])
  {
    var r := if |scores| > k then scores[..k] else scores;
    assert forall i :: 0 <= i < |r| ==> r[i] == scores[i] && r[i] in r;
  }

  // ----- one document -----

  /**
    `term_contains_doc`, by the skip table. On a dictionary that the encoder wrote it tells whether the term's postings
    have the document; elsewhere nobody compares the skip table with the documents.
  */
  method TermContainsDoc(crc: Checksum, dictionary: seq<byte>, term: Text, docId: nat) returns (r: Option<bool>)
    ensures r.None? <==> Dictionary.SeekTerm(crc, dictionary, term, docId).None?
    ensures forall lists, step | Dictionary.Storable(crc, lists, step) && Dictionary.Encode(crc, lists, step) == Some(dictionary) ::
              r == Some(HasDoc(ListsOf(crc, dictionary)(term), docId))
  {
    hide Dictionary.SeekTerm, Dictionary.Encode, Dictionary.Storable, Dictionary.MapOf, Postings.Linear, ListsOf;
    var found := DictionaryLoops.SeekTermDoc(crc, dictionary, term, docId);
    forall lists, step | Dictionary.Storable(crc, lists, step) && Dictionary.Encode(crc, lists, step) == Some(dictionary)
      ensures found.Some? && found.value.Some? == HasDoc(ListsOf(crc, dictionary)(term), docId)
    {
      EncodedServes(crc, lists, step, term);
      Dictionary.SeekIsMap(crc, lists, step, term, docId);
      Dictionary.PostingSeek.LinearFinds(ListsOf(crc, dictionary)(term), docId);
    }
    return if found.None? then None else Some(found.value.Some?);
  }

  /** `has_position_gap` for neighbours: some position of the first is followed by one of the second. */
  ghost predicate Adjacent(first: Posting, second: Posting) {
    exists i, j :: 0 <= i < |first.positions| && 0 <= j < |second.positions| && first.positions[i] + 1 == second.positions[j]
  }

  /** The search of one position in a sorted list. */
  method ContainsPosition(positions: seq<nat>, position: nat) returns (found: bool)
    requires Postings.StrictlyIncreasing(positions)
    ensures found == (position in positions)
  {
    var low, high := 0, |positions|;
    while low < high
      invariant 0 <= low <= high <= |positions|
      invariant forall k :: 0 <= k < low ==> positions[k] < position
      invariant forall k :: high <= k < |positions| ==> positions[k] > position
    {
      var mid := (low + high) / 2;
      if positions[mid] == position {
        return true;
      }
      if positions[mid] < position {
        low := mid + 1;
      } else {
        high := mid;
      }
    }
    return false;
  }

  method HasPositionGap(first: Posting, second: Posting) returns (found: bool)
    requires Postings.StrictlyIncreasing(second.positions)
    requires forall j :: 0 <= j < |second.positions| ==> second.positions[j] < U64_LIMIT
    ensures found == Adjacent(first, second)
  {
    for i := 0 to |first.positions|
      invariant forall a, b :: 0 <= a < i && 0 <= b < |second.positions| ==> first.positions[a] + 1 != second.positions[b]
    {
      var next := first.positions[i] + 1;
      if next < U64_LIMIT {
        var there := ContainsPosition(second.positions, next);
        if there {
          return true;
        }
      }
    }
    return false;
  }

  method FindDoc(ps: seq<Posting>, docId: nat) returns (r: Option<Posting>)
    ensures r == Postings.Linear(ps, docId)
  {
    assert ps[0..] == ps;
    for i := 0 to |ps|
      invariant Postings.Linear(ps, docId) == Postings.Linear(ps[i..], docId)
    {
      assert ps[i..][0] == ps[i] && ps[i..][1..] == ps[i + 1..];
      if ps[i].docId == docId {
        return Some(ps[i]);
      }
    }
    return None;
  }

  /**
    `has_adjacent_phrase`, on arbitrary bytes: both terms occur in the document, next to each other. The second term is
    looked up only when the first one occurs.
  */
  method HasAdjacentPhrase(crc: Checksum, dictionary: seq<byte>, first: Text, second: Text,
                           docId: nat) returns (r: Option<bool>)
    ensures var p := Postings.Linear(ListsOf(crc, dictionary)(first), docId);
            r.None? <==> Dictionary.Lookup(crc, dictionary, first).None?
                         || (p.Some? && Dictionary.Lookup(crc, dictionary, second).None?)
    ensures var (p, q) := (Postings.Linear(ListsOf(crc, dictionary)(first), docId), Postings.Linear(ListsOf(crc, dictionary)(second), docId));
            r.Some? ==> r.value == (p.Some? && q.Some? && Adjacent(p.value, q.value))
  {
    hide Dictionary.Lookup, ListsOf, Postings.Linear;
    LookedUp(crc, dictionary, first);
    LookedUp(crc, dictionary, second);
    var a := DictionaryLoops.LookupTerm(crc, dictionary, first);
    if a.None? {
      return None;
    }
    var p := FindDoc(if a.value.None? then [] else a.value.value, docId);
    if p.None? {
      return Some(false);
    }
    var b := DictionaryLoops.LookupTerm(crc, dictionary, second);
    if b.None? {
      return None;
    }
    var q := FindDoc(if b.value.None? then [] else b.value.value, docId);
    if q.None? {
      return Some(false);
    }
    Dictionary.PostingSeek.LinearFinds(ListsOf(crc, dictionary)(second), docId);
    var found := HasPositionGap(p.value, q.value);
    return Some(found);
  }
}
