/**
  The CMP2 writer (crates/compact-core/src/streaming/writer.rs): lines are buffered into a row group until
  one of the two block limits is reached, and each row group becomes one framed block.
*/
module Writer {
  import opened Wrappers
  import opened Bytes
  import opened Limits
  import opened BlockStream
  import opened Lines

  datatype BlockOptions = BlockOptions(maxRows: nat, maxBytes: nat)

  predicate ValidOptions(o: BlockOptions) {
    o.maxRows > 0 && o.maxBytes > 0
  }

  /**
    The column-block codec for one schema: `encode` takes the non-blank lines of a row group to a column
    block, `decode` takes a column block back to JSONL text.
  */
  datatype RowCodec = RowCodec(encode: seq<Line> -> Option<seq<byte>>, decode: seq<byte> -> Option<seq<byte>>)

  datatype RowGroup = RowGroup(rows: nat, rawBytes: nat, column: seq<byte>)

  /** `encode_jsonl_row_group`: the encoder counts the rows it finds in the text itself. */
  function EncodeRowGroup(codec: RowCodec, text: seq<byte>): Option<RowGroup> {
    var rows := RowsOf(text);
    match codec.encode(rows)
    case None => None
    case Some(column) => Some(RowGroup(|rows|, |text|, column))
  }

  function BlockOf(codec: RowCodec, text: seq<byte>, index: u64, firstRow: u64): Option<Block> {
    match EncodeRowGroup(codec, text)
    case None => None
    case Some(g) => Some(Block(index, firstRow, AsU64(g.rows), AsU64(g.rawBytes), g.column))
  }

  // ----- the greedy splitter -----

  predicate WouldExceed(o: BlockOptions, buffer: seq<Line>, line: Line) {
    buffer != [] && (|buffer| + 1 > o.maxRows || |Concat(buffer)| + |line| > o.maxBytes)
  }

  predicate Reached(o: BlockOptions, buffer: seq<Line>) {
    |buffer| >= o.maxRows || |Concat(buffer)| >= o.maxBytes
  }

  /** One raw line: the row groups it completes, in order, and what stays buffered. */
  function SplitLine(o: BlockOptions, buffer: seq<Line>, raw: Line): Option<(seq<seq<Line>>, seq<Line>)> {
    if Blank(raw) then Some(([], buffer))
    else
      match Normalize(raw)
      case None => None
      case Some(line) =>
        if |line| > o.maxBytes then None
        else
          var full := WouldExceed(o, buffer, line);
          var before := if full then [buffer] else [];
          var grown := if full then [line] else buffer + [line];
          Some(if Reached(o, grown) then (before + [grown], []) else (before, grown))
  }

  function SplitFrom(o: BlockOptions, buffer: seq<Line>, raws: seq<Line>): Option<(seq<seq<Line>>, seq<Line>)>
    decreases |raws|
  {
    if raws == [] then Some(([], buffer))
    else
      match SplitLine(o, buffer, raws[0])
      case None => None
      case Some((groups, rest)) =>
        match SplitFrom(o, rest, raws[1..])
        case None => None
        case Some((more, last)) => Some((groups + more, last))
  }

  /** The row groups of a whole input: the last one is whatever is left over. */
  function Split(o: BlockOptions, raws: seq<Line>): Option<seq<seq<Line>>> {
    match SplitFrom(o, [], raws)
    case None => None
    case Some((groups, last)) => Some(if last == [] then groups else groups + [last])
  }

  /** The rows an input stands for: its non-blank lines, normalized; None when one cannot be. */
  function NormalRows(raws: seq<Line>): Option<seq<Line>> {
    if raws == [] then Some([])
    else if Blank(raws[0]) then NormalRows(raws[1..])
    else
      match (Normalize(raws[0]), NormalRows(raws[1..]))
      case (Some(line), Some(rest)) => Some([line] + rest)
      case (_, _) => None
  }

  function Flatten(groups: seq<seq<Line>>): seq<Line> {
    if groups == [] then [] else groups[0] + Flatten(groups[1..])
  }

  lemma {:induction false} FlattenAppend(a: seq<seq<Line>>, b: seq<seq<Line>>)
    ensures Flatten(a + b) == Flatten(a) + Flatten(b)
    decreases |a|
  {
    if a == [] {
      assert a + b == b;
    } else {
      assert (a + b)[1..] == a[1..] + b;
      FlattenAppend(a[1..], b);
    }
  }

  /** Every group is within both limits and not empty, and made of normalized lines. */
  ghost predicate GoodGroup(o: BlockOptions, group: seq<Line>) {
    1 <= |group| <= o.maxRows && |Concat(group)| <= o.maxBytes && AllNormal(group)
  }

  ghost predicate GoodGroups(o: BlockOptions, groups: seq<seq<Line>>) {
    forall k :: 0 <= k < |groups| ==> GoodGroup(o, groups[k])
  }

  /** A buffer between two lines: below both limits. */
  ghost predicate GoodBuffer(o: BlockOptions, buffer: seq<Line>) {
    AllNormal(buffer) && (buffer != [] ==> !Reached(o, buffer))
  }

  lemma {:induction false} FlattenTwo(a: seq<Line>, b: seq<Line>)
    ensures Flatten([a, b]) == a + b && Flatten([a]) == a && Flatten([]) == [] && Flatten([] + [a]) == a
    ensures Flatten([a] + [b]) == a + b
  {
    assert [a, b][1..] == [b] && [a][1..] == [] && [b][1..] == [];
    assert [] + [a] == [a] && [a] + [b] == [a, b];
    assert Flatten([b]) == b + [];
    assert Flatten([a]) == a + [];
  }

  /** What one line adds to the rows. */
  function RowOf(raw: Line): seq<Line> {
    if Blank(raw) || Normalize(raw).None? then [] else [Normalize(raw).value]
  }

  lemma {:induction false} SplitLineFlat(o: BlockOptions, buffer: seq<Line>, raw: Line)
    requires SplitLine(o, buffer, raw).Some?
    ensures var (groups, rest) := SplitLine(o, buffer, raw).value;
            Flatten(groups) + rest == buffer + RowOf(raw)
  {
    hide Blank, Normalize, Concat;
    if !Blank(raw) {
      var line := Normalize(raw).value;
      FlattenTwo(buffer, [line]);
      FlattenTwo(buffer + [line], []);
      FlattenTwo([line], []);
      assert (buffer + [line]) + [] == buffer + [line];
    }
  }

  lemma {:induction false} SplitLineGood(o: BlockOptions, buffer: seq<Line>, raw: Line)
    requires ValidOptions(o) && GoodBuffer(o, buffer) && SplitLine(o, buffer, raw).Some?
    ensures var (groups, rest) := SplitLine(o, buffer, raw).value;
            && GoodGroups(o, groups) && GoodBuffer(o, rest)
            && |groups| <= 2 && (|groups| == 2 ==> rest == [])
  {
    if !Blank(raw) {
      NormalizeIsNormal(raw);
      hide Blank, Normalize, Concat, IsNormal;
      var line := Normalize(raw).value;
      ConcatPush(buffer, line);
      ConcatPush([], line);
      assert [] + [line] == [line];
      ConcatNothing();
    }
  }

  lemma {:induction false} SplitFromGood(o: BlockOptions, buffer: seq<Line>, raws: seq<Line>)
    requires ValidOptions(o) && GoodBuffer(o, buffer) && SplitFrom(o, buffer, raws).Some?
    ensures var (groups, rest) := SplitFrom(o, buffer, raws).value;
            GoodGroups(o, groups) && GoodBuffer(o, rest)
    decreases |raws|
  {
    if raws != [] {
      SplitLineGood(o, buffer, raws[0]);
      hide SplitLine, GoodGroup, GoodBuffer;
      SplitFromGood(o, SplitLine(o, buffer, raws[0]).value.1, raws[1..]);
    }
  }

  lemma {:induction false} Join<T>(a: seq<T>, b: seq<T>, last: seq<T>, rest: seq<T>, buffer: seq<T>, row: seq<T>,
                                   tail: seq<T>)
    requires a + rest == buffer + row && b + last == rest + tail
    ensures (a + b) + last == buffer + (row + tail)
  {
    calc {
      (a + b) + last;
      a + (b + last);
      a + (rest + tail);
      (a + rest) + tail;
      (buffer + row) + tail;
      buffer + (row + tail);
    }
  }

  lemma {:induction false} SplitFromFlat(o: BlockOptions, buffer: seq<Line>, raws: seq<Line>)
    requires SplitFrom(o, buffer, raws).Some?
    ensures var (groups, rest) := SplitFrom(o, buffer, raws).value;
            NormalRows(raws).Some? && Flatten(groups) + rest == buffer + NormalRows(raws).value
    decreases |raws|
  {
    if raws == [] {
      assert [] + buffer == buffer + [];
    } else {
      SplitLineFlat(o, buffer, raws[0]);
      var (groups, rest) := SplitLine(o, buffer, raws[0]).value;
      SplitFromFlat(o, rest, raws[1..]);
      var (more, last) := SplitFrom(o, rest, raws[1..]).value;
      NormalRowsCons(o, buffer, raws);
      FlattenAppend(groups, more);
      Join(Flatten(groups), Flatten(more), last, rest, buffer, RowOf(raws[0]), NormalRows(raws[1..]).value);
    }
  }

  lemma {:induction false} NormalRowsCons(o: BlockOptions, buffer: seq<Line>, raws: seq<Line>)
    requires raws != [] && SplitLine(o, buffer, raws[0]).Some? && NormalRows(raws[1..]).Some?
    ensures NormalRows(raws) == Some(RowOf(raws[0]) + NormalRows(raws[1..]).value)
  {
    assert [] + NormalRows(raws[1..]).value == NormalRows(raws[1..]).value;
  }

  /** Splitting conserves the rows: none is lost, duplicated or reordered, and both limits hold. */
  lemma {:induction false} SplitGood(o: BlockOptions, raws: seq<Line>)
    requires ValidOptions(o) && Split(o, raws).Some?
    ensures GoodGroups(o, Split(o, raws).value)
    ensures NormalRows(raws) == Some(Flatten(Split(o, raws).value))
  {
    SplitFromGood(o, [], raws);
    SplitFromFlat(o, [], raws);
    var (groups, last) := SplitFrom(o, [], raws).value;
    FlattenTwo(last, []);
    FlattenAppend(groups, [last]);
    assert [] + NormalRows(raws).value == NormalRows(raws).value;
    assert Flatten(groups) + [] == Flatten(groups);
    if last != [] {
      assert GoodGroup(o, last);
    }
  }

  // ----- the contents of the lines -----

  /** The contents of the non-blank lines, in order. */
  ghost predicate Contents(raws: seq<Line>, contents: seq<Line>) {
    && |contents| == |DropBlank(raws)|
    && forall k :: 0 <= k < |contents| ==> HasContent(DropBlank(raws)[k], contents[k])
  }

  /** Every content with one line feed behind it. */
  function Terminated(contents: seq<Line>): seq<Line> {
    if contents == [] then [] else [contents[0] + [LF]] + Terminated(contents[1..])
  }

  lemma {:induction false} ContentsCons(raws: seq<Line>, contents: seq<Line>)
    requires raws != [] && !Blank(raws[0])
    ensures Contents(raws, contents) <==>
            contents != [] && HasContent(raws[0], contents[0]) && Contents(raws[1..], contents[1..])
  {
    hide HasContent, Blank;
    var all, rest := DropBlank(raws), DropBlank(raws[1..]);
    assert all == [raws[0]] + rest;
    if contents != [] && HasContent(raws[0], contents[0]) && Contents(raws[1..], contents[1..]) {
      forall k | 0 <= k < |contents| ensures HasContent(all[k], contents[k]) {
        if k > 0 {
          assert HasContent(rest[k - 1], contents[1..][k - 1]);
        }
      }
    }
    if Contents(raws, contents) {
      assert HasContent(all[0], contents[0]);
      forall k | 0 <= k < |rest| ensures HasContent(rest[k], contents[1..][k]) {
        assert HasContent(all[k + 1], contents[k + 1]);
      }
    }
  }

  lemma {:induction false} BlankSkipped(raws: seq<Line>, contents: seq<Line>)
    requires raws != [] && Blank(raws[0])
    ensures Contents(raws, contents) <==> Contents(raws[1..], contents)
    ensures NormalRows(raws) == NormalRows(raws[1..])
  {
  }

  /** The rows of an input are the contents of its non-blank lines, each with one line feed behind it. */
  lemma {:induction false} NormalRowsIff(raws: seq<Line>, contents: seq<Line>)
    ensures Contents(raws, contents) <==> NormalRows(raws) == Some(Terminated(contents))
    decreases |raws|
  {
    if raws == [] {
      assert Contents(raws, contents) <==> contents == [];
    } else if Blank(raws[0]) {
      BlankSkipped(raws, contents);
      NormalRowsIff(raws[1..], contents);
    } else {
      ContentsCons(raws, contents);
      hide Blank, Normalize, HasContent, Contents;
      if contents != [] {
        var (first, rest) := (contents[0] + [LF], Terminated(contents[1..]));
        NormalizeIff(raws[0], contents[0]);
        NormalRowsIff(raws[1..], contents[1..]);
        assert ([first] + rest)[0] == first && ([first] + rest)[1..] == rest;
        if NormalRows(raws) == Some(Terminated(contents)) {
          FirstRow(raws);
        }
      }
    }
  }

  lemma {:induction false} FirstRow(raws: seq<Line>)
    requires raws != [] && !Blank(raws[0]) && NormalRows(raws).Some?
    ensures Normalize(raws[0]).Some? && NormalRows(raws[1..]).Some?
    ensures NormalRows(raws).value[0] == Normalize(raws[0]).value
    ensures NormalRows(raws).value[1..] == NormalRows(raws[1..]).value
  {
    hide Blank, Normalize;
  }

  /** An input whose lines can be normalized has contents. */
  lemma {:induction false} ContentsOf(raws: seq<Line>) returns (contents: seq<Line>)
    requires NormalRows(raws).Some?
    ensures Contents(raws, contents) && NormalRows(raws) == Some(Terminated(contents))
    decreases |raws|
  {
    hide Normalize, HasContent, Contents;
    if raws == [] {
      contents := [];
    } else if Blank(raws[0]) {
      contents := ContentsOf(raws[1..]);
    } else {
      var rest := ContentsOf(raws[1..]);
      NormalizeIff(raws[0], Body(raws[0]));
      contents := [Body(raws[0])] + rest;
      assert contents[1..] == rest;
    }
    NormalRowsIff(raws, contents);
  }

  // ----- the splitter is greedy -----

  /** No group could have taken the first line of the next one. */
  ghost predicate Greedy(o: BlockOptions, groups: seq<seq<Line>>) {
    forall k: nat :: k + 1 < |groups| ==> ClosedAt(o, groups, k)
  }

  predicate ClosedAt(o: BlockOptions, groups: seq<seq<Line>>, k: nat)
    requires k + 1 < |groups|
  {
    groups[k + 1] != [] && Closed(o, groups[k], groups[k + 1][0])
  }

  predicate Closed(o: BlockOptions, group: seq<Line>, next: Line) {
    |group| + 1 > o.maxRows || |Concat(group)| + |next| > o.maxBytes
  }

  /** The groups and what is left over. */
  function Parts(groups: seq<seq<Line>>, last: seq<Line>): seq<seq<Line>> {
    if last == [] then groups else groups + [last]
  }

  lemma {:induction false} GreedyJoin(o: BlockOptions, a: seq<seq<Line>>, b: seq<seq<Line>>)
    requires Greedy(o, a) && Greedy(o, b)
    requires a != [] && b != [] ==> b[0] != [] && Closed(o, a[|a| - 1], b[0][0])
    ensures Greedy(o, a + b)
  {
    hide Closed;
    var all := a + b;
    forall k: nat | k + 1 < |all| ensures ClosedAt(o, all, k) {
      if k + 1 < |a| {
        assert ClosedAt(o, a, k);
      } else if k + 1 > |a| {
        assert ClosedAt(o, b, k - |a|);
      }
    }
  }

  lemma {:induction false} ReachedCloses(o: BlockOptions, group: seq<Line>, next: Line)
    requires Reached(o, group) && next != []
    ensures Closed(o, group, next)
  {
  }

  /** What one line completes: each group is closed by the line behind it, and the last one before an empty buffer is full. */
  lemma {:induction false} SplitLineGreedy(o: BlockOptions, buffer: seq<Line>, raw: Line)
    requires ValidOptions(o) && GoodBuffer(o, buffer) && SplitLine(o, buffer, raw).Some?
    ensures var (groups, rest) := SplitLine(o, buffer, raw).value;
            && Greedy(o, Parts(groups, rest))
            && (groups != [] && rest == [] ==> Reached(o, groups[|groups| - 1]))
            && (buffer != [] ==> Parts(groups, rest) != [] && buffer <= Parts(groups, rest)[0])
  {
    hide Blank, Normalize, Concat, IsNormal;
    if !Blank(raw) {
      var line := Normalize(raw).value;
      var (groups, rest) := SplitLine(o, buffer, raw).value;
      if WouldExceed(o, buffer, line) {
        assert Parts(groups, rest) == [buffer, [line]];
      } else {
        assert Parts(groups, rest) == [buffer + [line]];
      }
    }
  }

  lemma {:induction false} PartsGood(o: BlockOptions, groups: seq<seq<Line>>, last: seq<Line>)
    requires GoodGroups(o, groups) && GoodBuffer(o, last)
    ensures GoodGroups(o, Parts(groups, last))
  {
    hide Concat, AllNormal;
    if last != [] {
      assert GoodGroup(o, last);
    }
  }

  lemma {:induction false} FirstLine(o: BlockOptions, groups: seq<seq<Line>>)
    requires GoodGroups(o, groups) && groups != []
    ensures groups[0] != [] && groups[0][0] != []
  {
    assert GoodGroup(o, groups[0]);
    assert IsNormal(groups[0][0]);
  }

  lemma {:induction false} SplitFromGreedy(o: BlockOptions, buffer: seq<Line>, raws: seq<Line>)
    requires ValidOptions(o) && GoodBuffer(o, buffer) && SplitFrom(o, buffer, raws).Some?
    ensures var (groups, last) := SplitFrom(o, buffer, raws).value;
            && Greedy(o, Parts(groups, last))
            && (buffer != [] ==> Parts(groups, last) != [] && buffer <= Parts(groups, last)[0])
    decreases |raws|
  {
    hide Closed, GoodGroups, GoodBuffer;
    if raws != [] {
      SplitLineGreedy(o, buffer, raws[0]);
      SplitLineGood(o, buffer, raws[0]);
      hide SplitLine, Greedy;
      var (groups, rest) := SplitLine(o, buffer, raws[0]).value;
      SplitFromGreedy(o, rest, raws[1..]);
      SplitFromGood(o, rest, raws[1..]);
      var (more, last) := SplitFrom(o, rest, raws[1..]).value;
      var behind := Parts(more, last);
      PartsGood(o, more, last);
      assert Parts(groups + more, last) == groups + behind;
      GroupsBehind(o, groups, rest, behind);
    }
  }

  /** The groups that the buffer `rest` grows into, behind the groups in front of it. */
  lemma {:induction false} GroupsBehind(o: BlockOptions, groups: seq<seq<Line>>, rest: seq<Line>,
                                        behind: seq<seq<Line>>)
    requires Greedy(o, Parts(groups, rest)) && Greedy(o, behind) && GoodGroups(o, behind)
    requires groups != [] && rest == [] ==> Reached(o, groups[|groups| - 1])
    requires rest != [] ==> behind != [] && rest <= behind[0]
    ensures Greedy(o, groups + behind)
  {
    hide Closed, GoodGroups;
    var all := Parts(groups, rest);
    forall k: nat | k + 1 < |groups| ensures ClosedAt(o, groups, k) {
      assert ClosedAt(o, all, k) && all[k] == groups[k] && all[k + 1] == groups[k + 1];
    }
    if groups != [] && behind != [] {
      FirstLine(o, behind);
      if rest == [] {
        ReachedCloses(o, groups[|groups| - 1], behind[0][0]);
      } else {
        assert ClosedAt(o, all, |groups| - 1) && all[|groups| - 1] == groups[|groups| - 1] && all[|groups|] == rest;
      }
    }
    GreedyJoin(o, groups, behind);
  }

  /** The row groups of an input are as long as the limits allow. */
  lemma {:induction false} SplitIsGreedy(o: BlockOptions, raws: seq<Line>)
    requires ValidOptions(o) && Split(o, raws).Some?
    ensures Greedy(o, Split(o, raws).value)
  {
    hide Greedy, SplitFrom;
    SplitFromGreedy(o, [], raws);
  }

  lemma {:induction false} FirstNoLonger(o: BlockOptions, a: seq<seq<Line>>, b: seq<seq<Line>>)
    requires GoodGroups(o, a) && GoodGroups(o, b) && Greedy(o, a) && a != [] && b != []
    requires Flatten(a) == Flatten(b)
    ensures |a[0]| >= |b[0]|
  {
    hide Flatten, AllNormal, Concat;
    assert GoodGroup(o, a[0]) && GoodGroup(o, b[0]);
    var (x, y, all) := (a[0], b[0], Flatten(a));
    FlattenCons(a);
    FlattenCons(b);
    if |x| < |y| {
      if |a| == 1 {
        assert a[1..] == [];
        FlattenNothing();
        assert false;
      } else {
        FlattenCons(a[1..]);
        assert GoodGroup(o, a[1]);
        var next := a[1][0];
        assert x == all[..|x|] && all[|x|] == next && y[..|x| + 1] == all[..|x| + 1] == x + [next];
        assert ClosedAt(o, a, 0);
        LongerGroup(x, next, y);
        assert false;
      }
    }
  }

  lemma {:induction false} LongerGroup(x: seq<Line>, next: Line, y: seq<Line>)
    requires |x| < |y| && y[..|x| + 1] == x + [next]
    ensures |Concat(y)| >= |Concat(x)| + |next|
  {
    hide Concat;
    ConcatPush(x, next);
    ConcatAppend(x + [next], y[|x| + 1..]);
    assert y == (x + [next]) + y[|x| + 1..];
  }

  lemma {:induction false} FlattenCons(groups: seq<seq<Line>>)
    requires groups != []
    ensures Flatten(groups) == groups[0] + Flatten(groups[1..])
  {
  }

  lemma {:induction false} FlattenNothing()
    ensures Flatten([]) == []
  {
  }

  lemma {:induction false} NoGroups(o: BlockOptions, groups: seq<seq<Line>>)
    requires GoodGroups(o, groups)
    ensures Flatten(groups) == [] <==> groups == []
  {
    if groups != [] {
      assert GoodGroup(o, groups[0]);
    }
  }

  /** There is only one way to split rows into groups that are within the limits and as long as these allow. */
  lemma {:induction false} GreedyUnique(o: BlockOptions, a: seq<seq<Line>>, b: seq<seq<Line>>)
    requires GoodGroups(o, a) && GoodGroups(o, b) && Greedy(o, a) && Greedy(o, b) && Flatten(a) == Flatten(b)
    ensures a == b
    decreases |a|
  {
    NoGroups(o, a);
    NoGroups(o, b);
    if a != [] {
      FirstNoLonger(o, a, b);
      FirstNoLonger(o, b, a);
      FlattenCons(a);
      FlattenCons(b);
      hide GoodGroup, Closed, Flatten;
      var all := Flatten(a);
      assert a[0] == all[..|a[0]|] == b[0];
      assert Flatten(a[1..]) == all[|a[0]|..] == Flatten(b[1..]);
      GreedyRest(o, a);
      GreedyRest(o, b);
      GreedyUnique(o, a[1..], b[1..]);
    }
  }

  lemma {:induction false} GreedyRest(o: BlockOptions, groups: seq<seq<Line>>)
    requires Greedy(o, groups) && groups != []
    ensures Greedy(o, groups[1..])
  {
    hide Closed;
    var rest := groups[1..];
    forall k: nat | k + 1 < |rest| ensures ClosedAt(o, rest, k) {
      assert ClosedAt(o, groups, k + 1) && rest[k] == groups[k + 1] && rest[k + 1] == groups[k + 2];
    }
  }

  // ----- when splitting succeeds -----

  /** Every line, with its line feed, is within the byte limit of a block. */
  ghost predicate ShortLines(o: BlockOptions, lines: seq<Line>) {
    forall k :: 0 <= k < |lines| ==> |lines[k]| <= o.maxBytes
  }

  lemma {:induction false} SplitFromExists(o: BlockOptions, buffer: seq<Line>, raws: seq<Line>)
    ensures SplitFrom(o, buffer, raws).Some? <==> NormalRows(raws).Some? && ShortLines(o, NormalRows(raws).value)
    decreases |raws|
  {
    if raws != [] {
      hide Blank, Normalize, Reached, WouldExceed;
      var first := SplitLine(o, buffer, raws[0]);
      if Blank(raws[0]) {
        SplitFromExists(o, buffer, raws[1..]);
      } else {
        if NormalRows(raws).Some? {
          FirstRow(raws);
          var rows := NormalRows(raws).value;
          assert rows == [rows[0]] + rows[1..];
          assert ShortLines(o, rows) <==> |rows[0]| <= o.maxBytes && ShortLines(o, rows[1..]);
        }
        if first.Some? {
          SplitFromExists(o, first.value.1, raws[1..]);
        }
      }
    }
  }

  /** Splitting fails exactly when a line cannot be normalized or is longer than a block may be. */
  lemma {:induction false} SplitExists(o: BlockOptions, raws: seq<Line>)
    ensures Split(o, raws).Some? <==> NormalRows(raws).Some? && ShortLines(o, NormalRows(raws).value)
  {
    SplitFromExists(o, [], raws);
  }

  // ----- the writer's state -----

  datatype WriterState = WriterState(
    output: seq<byte>,
    buffer: seq<Line>,
    blocks: nat,
    rows: u64,
    bytes: u64,
    metadata: seq<BlockMetadata>)

  /** Encode one row group and write its frame. */
  function Emit(crc: Checksum, codec: RowCodec, w: WriterState, group: seq<Line>): Option<WriterState> {
    if w.blocks >= MAX_STREAM_BLOCKS then None
    else
      match BlockOf(codec, Concat(group), w.blocks, w.rows)
      case None => None
      case Some(b) =>
        var frame := BlockFrame(crc, b);
        if w.rows + b.rows >= U64_LIMIT || w.bytes + |frame| >= U64_LIMIT then None
        else Some(WriterState(w.output + frame, [], w.blocks + 1, w.rows + b.rows, w.bytes + |frame|,
                              w.metadata + [MetadataOf(crc, b, w.bytes)]))
  }

  function Flush(crc: Checksum, codec: RowCodec, w: WriterState): Option<WriterState> {
    if w.buffer == [] then Some(w) else Emit(crc, codec, w, w.buffer)
  }

  /** `write_jsonl_line` */
  function WriteLine(crc: Checksum, codec: RowCodec, o: BlockOptions, w: WriterState, raw: Line): Option<WriterState> {
    if Blank(raw) then Some(w)
    else
      match Normalize(raw)
      case None => None
      case Some(line) =>
        if |line| > o.maxBytes then None
        else
          match (if WouldExceed(o, w.buffer, line) then Flush(crc, codec, w) else Some(w))
          case None => None
          case Some(w1) =>
            var w2 := w1.(buffer := w1.buffer + [line]);
            if Reached(o, w2.buffer) then Flush(crc, codec, w2) else Some(w2)
  }

  function WriteLines(crc: Checksum, codec: RowCodec, o: BlockOptions, w: WriterState,
                      raws: seq<Line>): Option<WriterState>
    decreases |raws|
  {
    if raws == [] then Some(w)
    else
      match WriteLine(crc, codec, o, w, raws[0])
      case None => None
      case Some(w') => WriteLines(crc, codec, o, w', raws[1..])
  }

  function EmitAll(crc: Checksum, codec: RowCodec, w: WriterState, groups: seq<seq<Line>>): Option<WriterState>
    decreases |groups|
  {
    if groups == [] then Some(w)
    else
      match Emit(crc, codec, w, groups[0])
      case None => None
      case Some(w') => EmitAll(crc, codec, w', groups[1..])
  }

  // ----- the writer is the splitter followed by the encoder -----

  /** Splitting off row groups first and writing them afterwards. */
  function SplitThenEmit(crc: Checksum, codec: RowCodec, w: WriterState,
                         split: Option<(seq<seq<Line>>, seq<Line>)>): Option<WriterState> {
    match split
    case None => None
    case Some((groups, rest)) =>
      match EmitAll(crc, codec, w.(buffer := []), groups)
      case None => None
      case Some(w') => Some(w'.(buffer := rest))
  }

  lemma {:induction false} EmitIgnoresBuffer(crc: Checksum, codec: RowCodec, w: WriterState, buffer: seq<Line>,
                                             group: seq<Line>)
    ensures Emit(crc, codec, w.(buffer := buffer), group) == Emit(crc, codec, w, group)
    ensures Emit(crc, codec, w, group).Some? ==> Emit(crc, codec, w, group).value.buffer == []
  {
  }

  lemma {:induction false} EmitOneOrTwo(crc: Checksum, codec: RowCodec, w: WriterState, a: seq<Line>, b: seq<Line>)
    ensures EmitAll(crc, codec, w, [a]) == Emit(crc, codec, w, a)
    ensures EmitAll(crc, codec, w, [a, b]) ==
            match Emit(crc, codec, w, a) case None => None case Some(w') => Emit(crc, codec, w', b)
  {
    assert [a][1..] == [] && [b][1..] == [] && [a, b][1..] == [b];
    if Emit(crc, codec, w, a).Some? {
      var w' := Emit(crc, codec, w, a).value;
      assert EmitAll(crc, codec, w', [b]) == Emit(crc, codec, w', b);
    }
  }

  lemma {:induction false} WriteLineSplits(crc: Checksum, codec: RowCodec, o: BlockOptions, w: WriterState, raw: Line)
    ensures WriteLine(crc, codec, o, w, raw) == SplitThenEmit(crc, codec, w, SplitLine(o, w.buffer, raw))
  {
    hide Blank, Normalize, Reached, Emit;
    if !Blank(raw) && Normalize(raw).Some? && |Normalize(raw).value| <= o.maxBytes {
      var line := Normalize(raw).value;
      assert [] + [line] == [line] && [w.buffer] + [[line]] == [w.buffer, [line]];
      EmitOneOrTwo(crc, codec, w.(buffer := []), w.buffer, [line]);
      EmitOneOrTwo(crc, codec, w.(buffer := []), w.buffer + [line], []);
      assert [] + [w.buffer + [line]] == [w.buffer + [line]];
      EmitIgnoresBuffer(crc, codec, w, [], w.buffer);
      EmitIgnoresBuffer(crc, codec, w, [], w.buffer + [line]);
      EmitIgnoresBuffer(crc, codec, w, w.buffer + [line], w.buffer + [line]);
      if WouldExceed(o, w.buffer, line) && Emit(crc, codec, w, w.buffer).Some? {
        EmitIgnoresBuffer(crc, codec, Emit(crc, codec, w, w.buffer).value, [line], [line]);
      }
    }
  }

  lemma {:induction false} EmitAllAppend(crc: Checksum, codec: RowCodec, w: WriterState, a: seq<seq<Line>>,
                                         b: seq<seq<Line>>)
    ensures EmitAll(crc, codec, w, a + b) ==
            match EmitAll(crc, codec, w, a) case None => None case Some(w') => EmitAll(crc, codec, w', b)
    decreases |a|
  {
    hide Emit;
    if a == [] {
      assert a + b == b;
    } else {
      assert (a + b)[0] == a[0] && (a + b)[1..] == a[1..] + b;
      if Emit(crc, codec, w, a[0]).Some? {
        EmitAllAppend(crc, codec, Emit(crc, codec, w, a[0]).value, a[1..], b);
      }
    }
  }

  lemma {:induction false} EmitAllClears(crc: Checksum, codec: RowCodec, w: WriterState, groups: seq<seq<Line>>)
    requires w.buffer == [] && EmitAll(crc, codec, w, groups).Some?
    ensures EmitAll(crc, codec, w, groups).value.buffer == []
    decreases |groups|
  {
    if groups != [] {
      EmitAllClears(crc, codec, Emit(crc, codec, w, groups[0]).value, groups[1..]);
    }
  }

  /** Writing any input line by line is splitting the whole input, then encoding the row groups in order. */
  lemma {:induction false} WriteLinesSplits(crc: Checksum, codec: RowCodec, o: BlockOptions, w: WriterState,
                                            raws: seq<Line>)
    ensures WriteLines(crc, codec, o, w, raws) == SplitThenEmit(crc, codec, w, SplitFrom(o, w.buffer, raws))
    decreases |raws|
  {
    hide Emit, WriteLine, SplitLine;
    if raws != [] {
      WriteLineSplits(crc, codec, o, w, raws[0]);
      if SplitLine(o, w.buffer, raws[0]).Some? {
        var (groups, rest) := SplitLine(o, w.buffer, raws[0]).value;
        var emitted := EmitAll(crc, codec, w.(buffer := []), groups);
        if emitted.Some? {
          EmitAllClears(crc, codec, w.(buffer := []), groups);
          var w' := emitted.value.(buffer := rest);
          assert w'.(buffer := []) == emitted.value;
          WriteLinesSplits(crc, codec, o, w', raws[1..]);
        }
        if SplitFrom(o, rest, raws[1..]).Some? {
          EmitAllAppend(crc, codec, w.(buffer := []), groups, SplitFrom(o, rest, raws[1..]).value.0);
        }
      }
    }
  }

  // ----- the blocks behind the bytes -----

  /** The blocks of consecutive row groups, numbered from `index` and `row`. */
  function BlocksOf(codec: RowCodec, groups: seq<seq<Line>>, index: nat, row: nat): (bs: Option<seq<Block>>)
    ensures bs.Some? ==> |bs.value| == |groups|
    decreases |groups|
  {
    if groups == [] then Some([])
    else
      match BlockOf(codec, Concat(groups[0]), AsU64(index), AsU64(row))
      case None => None
      case Some(b) =>
        match BlocksOf(codec, groups[1..], index + 1, row + b.rows)
        case None => None
        case Some(rest) => Some([b] + rest)
  }

  /** A writer that has also written the blocks `bs`. */
  function Extended(crc: Checksum, w: WriterState, bs: seq<Block>): WriterState
    requires Room(crc, w, bs)
  {
    WriterState(w.output + BlocksBytes(crc, bs), w.buffer, w.blocks + |bs|, w.rows + TotalRows(bs),
                w.bytes + |BlocksBytes(crc, bs)|, w.metadata + Index(crc, bs, w.bytes))
  }

  /** The writer's own limits: block count, row count and byte count. */
  predicate Room(crc: Checksum, w: WriterState, bs: seq<Block>) {
    w.blocks + |bs| <= MAX_STREAM_BLOCKS && w.rows + TotalRows(bs) < U64_LIMIT && w.bytes + |BlocksBytes(crc, bs)| < U64_LIMIT
  }

  lemma {:induction false} RoomFirst(crc: Checksum, w: WriterState, b: Block, rest: seq<Block>, w': WriterState)
    requires w'.blocks == w.blocks + 1 && w'.rows == w.rows + b.rows && w'.bytes == w.bytes + |BlockFrame(crc, b)|
    ensures Room(crc, w, [b] + rest) <==> Room(crc, w', rest)
  {
    assert ([b] + rest)[1..] == rest;
  }

  lemma {:induction false} ExtendedFirst(crc: Checksum, w: WriterState, b: Block, rest: seq<Block>, w': WriterState)
    requires w.buffer == [] && w.rows + b.rows < U64_LIMIT && w.bytes + |BlockFrame(crc, b)| < U64_LIMIT
    requires w' == WriterState(w.output + BlockFrame(crc, b), [], w.blocks + 1, w.rows + b.rows, w.bytes + |BlockFrame(crc, b)|,
                               w.metadata + [MetadataOf(crc, b, w.bytes)])
    requires Room(crc, w', rest) && Room(crc, w, [b] + rest)
    ensures Extended(crc, w', rest) == Extended(crc, w, [b] + rest)
  {
    hide BlockFrame, MetadataOf;
    assert ([b] + rest)[1..] == rest;
  }

  /** Emitting row groups writes exactly their blocks, and fails exactly when one cannot be encoded or a limit is hit. */
  lemma {:induction false} EmitAllWrites(crc: Checksum, codec: RowCodec, w: WriterState, groups: seq<seq<Line>>)
    requires w.buffer == [] && w.blocks <= MAX_STREAM_BLOCKS
    ensures EmitAll(crc, codec, w, groups) ==
            match BlocksOf(codec, groups, w.blocks, w.rows)
            case None => None
            case Some(bs) => if Room(crc, w, bs) then Some(Extended(crc, w, bs)) else None
    decreases |groups|
  {
    hide BlockOf, BlockFrame, MetadataOf, Concat;
    if groups == [] {
      assert w.output + [] == w.output && w.metadata + [] == w.metadata;
    } else {
      var block := BlockOf(codec, Concat(groups[0]), w.blocks, w.rows);
      if block.Some? && w.blocks < MAX_STREAM_BLOCKS {
        var b := block.value;
        EmitFirst(crc, codec, w, groups, b);
      }
    }
  }

  lemma {:induction false} EmitFirst(crc: Checksum, codec: RowCodec, w: WriterState, groups: seq<seq<Line>>, b: Block)
    requires w.buffer == [] && w.blocks < MAX_STREAM_BLOCKS && groups != []
    requires BlockOf(codec, Concat(groups[0]), w.blocks, w.rows) == Some(b)
    ensures EmitAll(crc, codec, w, groups) ==
            match BlocksOf(codec, groups, w.blocks, w.rows)
            case None => None
            case Some(bs) => if Room(crc, w, bs) then Some(Extended(crc, w, bs)) else None
    decreases |groups|, 0
  {
    hide BlockOf, BlockFrame, MetadataOf, Concat, BlocksBytes;
    if w.rows + b.rows < U64_LIMIT && w.bytes + |BlockFrame(crc, b)| < U64_LIMIT {
      var w' := Emit(crc, codec, w, groups[0]).value;
      EmitAllWrites(crc, codec, w', groups[1..]);
      var rest := BlocksOf(codec, groups[1..], w'.blocks, w'.rows);
      if rest.Some? {
        RoomFirst(crc, w, b, rest.value, w');
        if Room(crc, w', rest.value) {
          ExtendedFirst(crc, w, b, rest.value, w');
        }
      }
    } else {
      var rest := BlocksOf(codec, groups[1..], w.blocks + 1, w.rows + b.rows);
      if rest.Some? {
        NoRoom(crc, w, b, rest.value);
      }
    }
  }

  lemma {:induction false} NoRoom(crc: Checksum, w: WriterState, b: Block, rest: seq<Block>)
    requires w.rows + b.rows >= U64_LIMIT || w.bytes + |BlockFrame(crc, b)| >= U64_LIMIT
    ensures !Room(crc, w, [b] + rest)
  {
    assert ([b] + rest)[1..] == rest;
  }

  /** The codec accepts the rows of every group. */
  ghost predicate Encodes(codec: RowCodec, groups: seq<seq<Line>>) {
    forall k :: 0 <= k < |groups| ==> codec.encode(Bodies(groups[k])).Some?
  }

  lemma {:induction false} EncodesCons(codec: RowCodec, groups: seq<seq<Line>>)
    requires groups != []
    ensures Encodes(codec, groups) <==> codec.encode(Bodies(groups[0])).Some? && Encodes(codec, groups[1..])
  {
    hide Bodies;
    assert groups == [groups[0]] + groups[1..];
  }

  lemma {:induction false} BlockExists(codec: RowCodec, o: BlockOptions, group: seq<Line>, index: u64, row: u64)
    requires GoodGroup(o, group)
    ensures BlockOf(codec, Concat(group), index, row).Some? <==> codec.encode(Bodies(group)).Some?
  {
    RowsOfConcat(group);
    hide Concat, RowsOf, AllNormal;
  }

  /** Row groups have blocks exactly when the codec accepts the rows of each. */
  lemma {:induction false} BlocksExist(codec: RowCodec, o: BlockOptions, groups: seq<seq<Line>>, index: nat, row: nat)
    requires GoodGroups(o, groups)
    ensures BlocksOf(codec, groups, index, row).Some? <==> Encodes(codec, groups)
    decreases |groups|
  {
    hide Concat, GoodGroup, AsU64;
    if groups != [] {
      BlockExists(codec, o, groups[0], AsU64(index), AsU64(row));
      var block := BlockOf(codec, Concat(groups[0]), AsU64(index), AsU64(row));
      EncodesCons(codec, groups);
      hide Encodes, BlockOf, Bodies;
      if block.Some? {
        BlocksExist(codec, o, groups[1..], index + 1, row + block.value.rows);
      }
    }
  }

  // ----- whole streams -----

  /** A writer that has just written the stream header. */
  function Fresh(): WriterState {
    WriterState(StreamHeader(), [], 0, 0, STREAM_HEADER_LEN, [])
  }

  /**
    `encode_jsonl_stream` over the lines `raws` its reader yields; `readOk` is false when reading then
    fails (a line that is too long, or not UTF-8).
  */
  function EncodeStream(crc: Checksum, codec: RowCodec, o: BlockOptions, raws: seq<Line>,
                        readOk: bool): Option<seq<byte>> {
    if !ValidOptions(o) then None
    else
      match WriteLines(crc, codec, o, Fresh(), raws)
      case None => None
      case Some(w) =>
        if !readOk then None
        else
          match Flush(crc, codec, w)
          case None => None
          case Some(w') => Some(w'.output + IndexFooter(w'.metadata))
  }

  /** The row groups of a finished input, and the bytes a sealed stream of blocks has. */
  function SealedBytes(crc: Checksum, bs: seq<Block>): seq<byte> {
    StreamBytes(crc, bs) + IndexFooter(Index(crc, bs, STREAM_HEADER_LEN))
  }

  lemma {:induction false} WriteAndFlush(crc: Checksum, codec: RowCodec, o: BlockOptions, w: WriterState,
                                         raws: seq<Line>)
    requires w.buffer == []
    ensures (match WriteLines(crc, codec, o, w, raws) case None => None case Some(w') => Flush(crc, codec, w'))
            == match Split(o, raws) case None => None case Some(groups) => EmitAll(crc, codec, w, groups)
  {
    WriteLinesSplits(crc, codec, o, w, raws);
    hide Emit, SplitFrom;
    assert w.(buffer := []) == w;
    var split := SplitFrom(o, [], raws);
    if split.Some? {
      var (groups, last) := split.value;
      EmitAllAppend(crc, codec, w, groups, [last]);
      if EmitAll(crc, codec, w, groups).Some? {
        EmitAllClears(crc, codec, w, groups);
        var w' := EmitAll(crc, codec, w, groups).value;
        EmitOneOrTwo(crc, codec, w', last, []);
        EmitIgnoresBuffer(crc, codec, w', last, last);
        assert w'.(buffer := []) == w';
      }
    }
  }

  /** The sequential encoder writes the sealed stream of the input's row groups, or fails for a reason its parts have. */
  lemma {:induction false} EncodeStreamIs(crc: Checksum, codec: RowCodec, o: BlockOptions, raws: seq<Line>,
                                          readOk: bool)
    requires ValidOptions(o)
    ensures EncodeStream(crc, codec, o, raws, readOk) ==
            match Split(o, raws)
            case None => None
            case Some(groups) =>
              match BlocksOf(codec, groups, 0, 0)
              case None => None
              case Some(bs) => if readOk && Room(crc, Fresh(), bs) then Some(SealedBytes(crc, bs)) else None
  {
    hide Flush, WriteLines, EmitAll, BlocksOf, Split;
    WriteAndFlush(crc, codec, o, Fresh(), raws);
    if Split(o, raws).Some? {
      EmitAllWrites(crc, codec, Fresh(), Split(o, raws).value);
      var blocks := BlocksOf(codec, Split(o, raws).value, 0, 0);
      if blocks.Some? {
        assert [] + Index(crc, blocks.value, STREAM_HEADER_LEN) == Index(crc, blocks.value, STREAM_HEADER_LEN);
      }
    }
  }

  /** Encoding fails only for a reason its options, its input, its reader or its codec has, or at one of the writer's limits. */
  lemma {:induction false} EncodeExists(crc: Checksum, codec: RowCodec, o: BlockOptions, raws: seq<Line>, readOk: bool)
    ensures Split(o, raws).Some? <==> NormalRows(raws).Some? && ShortLines(o, NormalRows(raws).value)
    ensures o.maxRows > 0 && o.maxBytes > 0 && Split(o, raws).Some? ==>
              (BlocksOf(codec, Split(o, raws).value, 0, 0).Some? <==> Encodes(codec, Split(o, raws).value))
    ensures EncodeStream(crc, codec, o, raws, readOk).Some? <==>
            && o.maxRows > 0 && o.maxBytes > 0 && readOk
            && Split(o, raws).Some? && Encodes(codec, Split(o, raws).value)
            && Room(crc, Fresh(), BlocksOf(codec, Split(o, raws).value, 0, 0).value)
  {
    hide Flush, WriteLines, BlocksOf, Split, Encodes, NormalRows, ShortLines, Room, GoodGroups;
    SplitExists(o, raws);
    if ValidOptions(o) {
      EncodeStreamIs(crc, codec, o, raws, readOk);
      if Split(o, raws).Some? {
        SplitGood(o, raws);
        BlocksExist(codec, o, Split(o, raws).value, 0, 0);
      }
    }
  }

  /** The blocks of row groups are numbered consecutively; with frames within the size limit they form a chain. */
  lemma {:induction false} BlocksOfChain(codec: RowCodec, groups: seq<seq<Line>>, index: nat, row: nat)
    requires BlocksOf(codec, groups, index, row).Some?
    requires var bs := BlocksOf(codec, groups, index, row).value;
             && index + |bs| < U64_LIMIT && row + TotalRows(bs) < U64_LIMIT
             && (forall k :: 0 <= k < |bs| ==> |BlockPayload(bs[k])| <= MAX_ENCODED_BLOCK_BYTES)
    ensures Chain(BlocksOf(codec, groups, index, row).value, index, row)
    decreases |groups|
  {
    hide BlockPayload, Concat, EncodeRowGroup;
    if groups != [] {
      var bs := BlocksOf(codec, groups, index, row).value;
      var b := bs[0];
      assert bs[1..] == BlocksOf(codec, groups[1..], index + 1, row + b.rows).value;
      assert |BlockPayload(bs[0])| <= MAX_ENCODED_BLOCK_BYTES;
      BlocksOfChain(codec, groups[1..], index + 1, row + b.rows);
    }
  }
}
