/** JSONL lines as bytes: blank lines, normalization, and how a text falls apart into lines again. */
module Lines {
  import opened Wrappers
  import opened Bytes

  type Line = seq<byte>

  const LF: byte := 10
  const CR: byte := 13

  /** The length of the Unicode white space character a text starts with, or 0. */
  function SpaceLen(s: seq<byte>): (n: nat)
    ensures n <= |s|
  {
    if |s| >= 1 && (9 <= s[0] <= 13 || s[0] == 0x20) then 1
    else if |s| >= 2 && s[0] == 0xC2 && (s[1] == 0x85 || s[1] == 0xA0) then 2
    else if |s| >= 3 && IsWideSpace(s[0], s[1], s[2]) then 3
    else 0
  }

  /** U+1680, U+2000-U+200A, U+2028, U+2029, U+202F, U+205F and U+3000 in UTF-8. */
  predicate IsWideSpace(a: byte, b: byte, c: byte) {
    || (a == 0xE1 && b == 0x9A && c == 0x80)
    || (a == 0xE2 && b == 0x80 && (0x80 <= c <= 0x8A || c == 0xA8 || c == 0xA9 || c == 0xAF))
    || (a == 0xE2 && b == 0x81 && c == 0x9F)
    || (a == 0xE3 && b == 0x80 && c == 0x80)
  }

  /** `line.trim().is_empty()` */
  predicate Blank(s: seq<byte>)
    decreases |s|
  {
    s == [] || (SpaceLen(s) > 0 && Blank(s[SpaceLen(s)..]))
  }

  function StripSuffix(s: seq<byte>, last: byte): seq<byte> {
    if s != [] && s[|s| - 1] == last then s[..|s| - 1] else s
  }

  /** The content of a line, without its line ending. */
  function Body(line: Line): Line {
    StripSuffix(StripSuffix(line, LF), CR)
  }

  /** `normalize_jsonl_line`: exactly one line feed at the end and none inside, or an error. */
  function Normalize(line: Line): Option<Line> {
    var body := Body(line);
    if LF in body || CR in body then None else Some(body + [LF])
  }

  ghost predicate IsNormal(line: Line) {
    && line != [] && line[|line| - 1] == LF
    && LF !in line[..|line| - 1] && CR !in line[..|line| - 1]
    && !Blank(line[..|line| - 1])
  }

  lemma {:induction false} BlankWithEnding(s: seq<byte>, ending: byte)
    requires ending == LF || ending == CR
    ensures Blank(s + [ending]) <==> Blank(s)
    decreases |s|
  {
    if s == [] {
      assert ([] + [ending])[1..] == [];
    } else {
      assert SpaceLen(s + [ending]) == SpaceLen(s);
      if SpaceLen(s) > 0 {
        assert (s + [ending])[SpaceLen(s)..] == s[SpaceLen(s)..] + [ending];
        BlankWithEnding(s[SpaceLen(s)..], ending);
      }
    }
  }

  /** Stripping a line ending never turns a line blank or non-blank. */
  lemma {:induction false} BodyBlank(line: Line)
    ensures Blank(Body(line)) <==> Blank(line)
  {
    var once := StripSuffix(line, LF);
    if once != line {
      assert line == once + [LF];
      BlankWithEnding(once, LF);
    }
    if Body(line) != once {
      assert once == Body(line) + [CR];
      BlankWithEnding(Body(line), CR);
    }
  }

  lemma {:induction false} NormalizeIsNormal(line: Line)
    requires !Blank(line) && Normalize(line).Some?
    ensures IsNormal(Normalize(line).value)
  {
    BodyBlank(line);
    assert (Body(line) + [LF])[..|Body(line)|] == Body(line);
  }

  /** `content` stands in `line` in front of its line ending, which is none, LF, CR or CR LF. */
  predicate HasContent(line: Line, content: Line) {
    && LF !in content && CR !in content
    && (line == content || line == content + [LF] || line == content + [CR] || line == content + [CR, LF])
  }

  lemma {:induction false} StripIff(s: seq<byte>, last: byte)
    ensures s == StripSuffix(s, last) || s == StripSuffix(s, last) + [last]
  {
  }

  lemma {:induction false} StripEnding(content: Line, last: byte)
    ensures StripSuffix(content + [last], last) == content
    ensures last !in content ==> StripSuffix(content, last) == content
  {
    assert (content + [last])[..|content|] == content;
    if content != [] {
      assert content[|content| - 1] in content;
    }
  }

  lemma {:induction false} BodyOfContent(line: Line, content: Line)
    requires HasContent(line, content)
    ensures Body(line) == content
  {
    StripEnding(content, LF);
    StripEnding(content, CR);
    if line == content + [CR] {
      assert LF !in line;
      StripEnding(line, LF);
    } else if line == content + [CR, LF] {
      assert line == (content + [CR]) + [LF];
      StripEnding(content + [CR], LF);
    }
  }

  lemma {:induction false} ContentOfBody(line: Line)
    requires LF !in Body(line) && CR !in Body(line)
    ensures HasContent(line, Body(line))
  {
    var once := StripSuffix(line, LF);
    StripIff(line, LF);
    StripIff(once, CR);
    assert (Body(line) + [CR]) + [LF] == Body(line) + [CR, LF];
  }

  /** Normalizing keeps the content and gives it one line feed, and is an error for a line without content. */
  lemma {:induction false} NormalizeIff(line: Line, content: Line)
    ensures Normalize(line) == Some(content + [LF]) <==> HasContent(line, content)
    ensures Normalize(line).Some? ==> HasContent(line, Body(line)) && Normalize(line) == Some(Body(line) + [LF])
  {
    if HasContent(line, content) {
      BodyOfContent(line, content);
    }
    hide HasContent, Body;
    if Normalize(line).Some? {
      ContentOfBody(line);
      if Normalize(line) == Some(content + [LF]) {
        assert Body(line) == (content + [LF])[..|content|] == content;
      }
    }
  }

  // ----- blank lines -----

  /** White space by its Unicode code point. */
  predicate IsWhiteSpace(point: nat) {
    || 9 <= point <= 13 || point == 0x20 || point == 0x85 || point == 0xA0 || point == 0x1680
    || 0x2000 <= point <= 0x200A || point == 0x2028 || point == 0x2029 || point == 0x202F || point == 0x205F
    || point == 0x3000
  }

  /** A code point of the basic plane in UTF-8. */
  function Utf8Of(point: nat): (s: seq<byte>)
    requires point < 0x1_0000
    ensures s != []
  {
    if point < 0x80 then [point]
    else if point < 0x800 then [0xC0 + point / 64, 0x80 + point % 64]
    else [0xE0 + point / 4096, 0x80 + point / 64 % 64, 0x80 + point % 64]
  }

  function Utf8All(points: seq<nat>): seq<byte>
    requires forall k :: 0 <= k < |points| ==> points[k] < 0x1_0000
  {
    if points == [] then [] else Utf8Of(points[0]) + Utf8All(points[1..])
  }

  ghost predicate AllWhiteSpace(points: seq<nat>) {
    forall k :: 0 <= k < |points| ==> IsWhiteSpace(points[k])
  }

  /** The point of the white space character a text starts with. */
  lemma {:induction false} SpacePoint(s: seq<byte>) returns (point: nat)
    requires SpaceLen(s) > 0
    ensures IsWhiteSpace(point) && Utf8Of(point) == s[..SpaceLen(s)]
  {
    if SpaceLen(s) == 1 {
      point := s[0];
      assert s[..1] == [s[0]];
    } else if SpaceLen(s) == 2 {
      point := s[1];
      assert s[..2] == [s[0], s[1]];
    } else {
      var a: nat, b: nat, c: nat := s[0], s[1], s[2];
      point := (a - 0xE0) * 4096 + (b - 0x80) * 64 + (c - 0x80);
      assert s[..3] == [s[0], s[1], s[2]];
    }
  }

  lemma {:induction false} SpaceOfPoint(point: nat, rest: seq<byte>)
    requires IsWhiteSpace(point)
    ensures SpaceLen(Utf8Of(point) + rest) == |Utf8Of(point)|
  {
    var c := Utf8Of(point);
    assert forall k :: 0 <= k < |c| ==> (c + rest)[k] == c[k];
    if 0x2000 <= point <= 0x200A {
      assert point / 4096 == 2 && point / 64 % 64 == 0 && point % 64 == point - 0x2000;
    }
  }

  lemma {:induction false} BlankPoints(s: seq<byte>) returns (points: seq<nat>)
    requires Blank(s)
    ensures AllWhiteSpace(points) && s == Utf8All(points)
    decreases |s|
  {
    if s == [] {
      points := [];
    } else {
      var point := SpacePoint(s);
      var rest := BlankPoints(s[SpaceLen(s)..]);
      points := [point] + rest;
      assert points[1..] == rest && s == s[..SpaceLen(s)] + s[SpaceLen(s)..];
    }
  }

  lemma {:induction false} PointsBlank(points: seq<nat>)
    requires AllWhiteSpace(points)
    ensures Blank(Utf8All(points))
    decreases |points|
  {
    if points != [] {
      PointsBlank(points[1..]);
      var (first, rest) := (Utf8Of(points[0]), Utf8All(points[1..]));
      SpaceOfPoint(points[0], rest);
      assert (first + rest)[|first|..] == rest;
    }
  }

  /** A line is blank exactly when it is made of white space characters. */
  lemma {:induction false} BlankIff(s: seq<byte>)
    ensures Blank(s) <==> exists points :: AllWhiteSpace(points) && s == Utf8All(points)
  {
    if Blank(s) {
      var points := BlankPoints(s);
    }
    if points: seq<nat> :| AllWhiteSpace(points) && s == Utf8All(points) {
      PointsBlank(points);
    }
  }

  // ----- texts -----

  /** The position of the first line feed at or after `from`, or the length of the text. */
  function FindLf(text: seq<byte>, from: nat): (i: nat)
    requires from <= |text|
    ensures from <= i <= |text|
    ensures forall k :: from <= k < i ==> text[k] != LF
    ensures i < |text| ==> text[i] == LF
    decreases |text| - from
  {
    if from == |text| || text[from] == LF then from else FindLf(text, from + 1)
  }

  /** `str::lines`: split at line feeds, dropping a carriage return before each of them. */
  function SplitLines(text: seq<byte>): seq<Line>
    decreases |text|
  {
    if text == [] then []
    else
      var i := FindLf(text, 0);
      if i == |text| then [text]
      else [StripSuffix(text[..i], CR)] + SplitLines(text[i + 1..])
  }

  function DropBlank(lines: seq<Line>): seq<Line> {
    if lines == [] then []
    else if Blank(lines[0]) then DropBlank(lines[1..])
    else [lines[0]] + DropBlank(lines[1..])
  }

  /** The rows the row-group encoder sees in a text, and what the readers count. */
  function RowsOf(text: seq<byte>): seq<Line> {
    DropBlank(SplitLines(text))
  }

  function Bodies(lines: seq<Line>): (r: seq<Line>)
    ensures |r| == |lines|
  {
    if lines == [] then [] else [Body(lines[0])] + Bodies(lines[1..])
  }

  ghost predicate AllNormal(lines: seq<Line>) {
    forall k :: 0 <= k < |lines| ==> IsNormal(lines[k])
  }

  lemma {:induction false} BodyOfNormal(line: Line)
    requires IsNormal(line)
    ensures Body(line) == line[..|line| - 1]
  {
    var body := line[..|line| - 1];
    if body != [] {
      assert body[|body| - 1] in body;
    }
  }

  lemma {:induction false} FindLfOfNormal(line: Line, rest: seq<byte>)
    requires IsNormal(line)
    ensures FindLf(line + rest, 0) == |line| - 1
  {
    var text, i, n := line + rest, FindLf(line + rest, 0), |line| - 1;
    forall k | 0 <= k < n
      ensures text[k] != LF
    {
      assert text[k] == line[..n][k] && line[..n][k] in line[..n];
    }
    assert text[n] == LF;
  }

  /** The rows of a text made of normalized lines are those lines, one row each. */
  lemma {:induction false} RowsOfConcat(lines: seq<Line>)
    requires AllNormal(lines)
    ensures RowsOf(Concat(lines)) == Bodies(lines)
    decreases |lines|
  {
    if lines != [] {
      var line, rest := lines[0], Concat(lines[1..]);
      FindLfOfNormal(line, rest);
      BodyOfNormal(line);
      var body := line[..|line| - 1];
      assert (line + rest)[..|body|] == body && (line + rest)[|line|..] == rest;
      assert StripSuffix(body, CR) == body;
      assert SplitLines(Concat(lines)) == [body] + SplitLines(rest);
      assert ([body] + SplitLines(rest))[1..] == SplitLines(rest);
      RowsOfConcat(lines[1..]);
    }
  }
}
