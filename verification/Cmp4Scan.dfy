/** Scanning a CMP4 file with projection and predicate pushdown (crates/compact-core/src/io/v4.rs). */
module Cmp4Scan {
  import opened Wrappers
  import opened Bytes
  import opened Cmp4Format
  import opened Columns
  import opened ColumnSelect
  import opened Cmp4Validate
  import ColumnFormat
  import Numbers

  datatype Op = Eq(n: nat) | Lt(n: nat) | LtEq(n: nat) | Gt(n: nat) | GtEq(n: nat)

  datatype Predicate = NumberIs(column: Text, op: Op) | IsNull(column: Text)

  /** A row of output, before it is printed as JSON: names and values in column order. */
  type Rendered = seq<(Text, Json)>

  datatype ScanResult = ScanResult(rows: seq<Rendered>, scanned: nat, pruned: nat)

  // ----- schema, projection, predicate -----

  predicate Implemented(c: ColumnSchema) {
    match c.valueType
    case BoolType => c.codec.Auto? || c.codec.BitmapCodec?
    case NumberType => c.codec.Auto? || c.codec.Bitpack? || c.codec.DeltaBitpack? || c.codec.DeltaVarint? || c.codec.Stored?
    case TextType => c.codec.Auto? || c.codec.Dictionary? || c.codec.Prefix? || c.codec.Rle? || c.codec.Stored?
  }

  /** `validate_implemented_schema`. */
  predicate SchemaOk(columns: seq<ColumnSchema>) {
    && columns != []
    && (forall k :: 0 <= k < |columns| ==> columns[k].name != [] && Implemented(columns[k]))
    && forall i, j :: 0 <= i < j < |columns| ==> columns[i].name != columns[j].name
  }

  function FindColumn(columns: seq<ColumnSchema>, name: Text): (r: Option<ColumnSchema>)
    ensures r.Some? ==> r.value in columns && r.value.name == name
    ensures r.None? ==> forall c :: c in columns ==> c.name != name
  {
    if columns == [] then None else if columns[0].name == name then Some(columns[0]) else FindColumn(columns[1..], name)
  }

  function FindEntry(entries: seq<ColumnEntry>, name: Text): (r: Option<ColumnEntry>)
    ensures r.Some? ==> r.value in entries && r.value.name == name
  {
    if entries == [] then None else if entries[0].name == name then Some(entries[0]) else FindEntry(entries[1..], name)
  }

  function SelectNames(columns: seq<ColumnSchema>, names: seq<Text>, seen: seq<Text>): (r: Option<seq<ColumnSchema>>)
    ensures r.Some? ==> forall c :: c in r.value ==> c in columns
    ensures r.Some? ==> |r.value| == |names|
    decreases |names|
  {
    if names == [] then Some([])
    else if names[0] in seen then None
    else
      match FindColumn(columns, names[0])
      case None => None
      case Some(c) =>
        match SelectNames(columns, names[1..], seen + [names[0]]) case None => None case Some(rest) => Some([c] + rest)
  }

  /** `select_projection`: all columns, or the named ones without duplicates. */
  function SelectProjection(columns: seq<ColumnSchema>, projection: seq<Text>): (r: Option<seq<ColumnSchema>>)
    ensures r.Some? ==> forall c :: c in r.value ==> c in columns
  {
    if projection == [] then Some(columns) else SelectNames(columns, projection, [])
  }

  predicate PredicateOk(columns: seq<ColumnSchema>, p: Option<Predicate>) {
    match p
    case None => true
    case Some(q) =>
      match FindColumn(columns, q.column)
      case None => false
      case Some(c) => q.NumberIs? ==> c.valueType == NumberType
  }

  predicate Holds(op: Op, value: nat) {
    match op
    case Eq(n) => value == n
    case Lt(n) => value < n
    case LtEq(n) => value <= n
    case Gt(n) => value > n
    case GtEq(n) => value >= n
  }

  /** What a predicate says about one value. */
  predicate Accepts(p: Predicate, value: Json) {
    match p
    case NumberIs(_, op) => value.Number? && Holds(op, value.n)
    case IsNull(_) => value.Null?
  }

  // ----- decoding the columns of a group -----

  predicate SchemaMatches(m: ColumnMetadata, c: ColumnSchema, rowCount: nat) {
    && m.name == c.name && m.valueType == c.valueType && m.nullable == c.nullable
    && (c.codec == Auto || m.codec == c.codec) && m.valueCount == rowCount
  }

  predicate EntryMatches(e: ColumnEntry, m: ColumnMetadata) {
    && e.name == m.name && e.valueCount == m.valueCount && e.nullCount == m.nullCount
    && e.statistics == m.statistics && e.payloadLen == m.compressedSize
  }

  /** `decode_footer_column`. */
  function DecodeEntry(data: seq<byte>, g: GroupEntry, e: ColumnEntry, c: ColumnSchema): Option<Column> {
    if e.metadataOffset + e.metadataLen > |data| then None
    else
      match ColumnFormat.Decode(data[e.metadataOffset..e.metadataOffset + e.metadataLen])
      case None => None
      case Some(m) =>
        if !SchemaMatches(m, c, g.rowCount) || !EntryMatches(e, m) then None
        else if e.payloadOffset + e.payloadLen > |data| then None
        else DecodeColumn(m, data[e.payloadOffset..e.payloadOffset + e.payloadLen])
  }

  function DecodeOf(data: seq<byte>, g: GroupEntry, c: ColumnSchema): Option<Column> {
    match FindEntry(g.columns, c.name) case None => None case Some(e) => DecodeEntry(data, g, e, c)
  }

  /** A decoded column, and whether it is shown. */
  datatype Selection = Selection(name: Text, column: Column, render: bool)

  function Lookup(columns: seq<ColumnSchema>, projected: seq<ColumnSchema>, name: Text): Option<ColumnSchema> {
    match FindColumn(projected, name) case Some(c) => Some(c) case None => FindColumn(columns, name)
  }

  function DecodeNames(data: seq<byte>, g: GroupEntry, columns: seq<ColumnSchema>, projected: seq<ColumnSchema>,
                       names: seq<Text>)
    : Option<seq<Selection>>
    decreases |names|
  {
    if names == [] then Some([])
    else
      match Lookup(columns, projected, names[0])
      case None => None
      case Some(c) =>
        match DecodeOf(data, g, c)
        case None => None
        case Some(column) =>
          match DecodeNames(data, g, columns, projected, names[1..])
          case None => None
          case Some(rest) => Some([Selection(c.name, column, FindColumn(projected, c.name).Some?)] + rest)
  }

  function NamesOf(columns: seq<ColumnSchema>): (names: seq<Text>)
    ensures |names| == |columns|
    ensures forall k :: 0 <= k < |columns| ==> names[k] == columns[k].name
  {
    seq(|columns|, k requires 0 <= k < |columns| => columns[k].name)
  }

  /** The projected columns, and the predicate's column behind them unless it is one of them. */
  function RequiredNames(projected: seq<ColumnSchema>, p: Option<Predicate>): seq<Text> {
    match p
    case None => NamesOf(projected)
    case Some(q) => if q.column in NamesOf(projected) then NamesOf(projected) else NamesOf(projected) + [q.column]
  }

  function FindSelection(selected: seq<Selection>, name: Text, rendered: bool): Option<Selection> {
    if selected == [] then None
    else if selected[0].name == name && (rendered ==> selected[0].render) then Some(selected[0])
    else FindSelection(selected[1..], name, rendered)
  }

  /** `row_matches`; None when the predicate's column was not decoded or is too short. */
  function RowMatches(selected: seq<Selection>, k: nat, p: Option<Predicate>): Option<bool> {
    match p
    case None => Some(true)
    case Some(q) =>
      match FindSelection(selected, q.column, false)
      case None => None
      case Some(s) => if k >= s.column.Rows() then None else Some(Accepts(q, ValueAt(s.column, k)))
  }

  function RenderRow(selected: seq<Selection>, projected: seq<ColumnSchema>, k: nat): Option<Rendered> {
    if projected == [] then Some([])
    else
      match FindSelection(selected, projected[0].name, true)
      case None => None
      case Some(s) =>
        if k >= s.column.Rows() then None
        else
          match RenderRow(selected, projected[1..], k)
          case None => None
          case Some(rest) => Some([(projected[0].name, ValueAt(s.column, k))] + rest)
  }

  /** The first `n` rows filtered and rendered. */
  function RenderRows(selected: seq<Selection>, projected: seq<ColumnSchema>, p: Option<Predicate>,
                      n: nat): Option<seq<Rendered>> {
    if n == 0 then Some([])
    else
      match RenderRows(selected, projected, p, n - 1)
      case None => None
      case Some(front) =>
        match RowMatches(selected, n - 1, p)
        case None => None
        case Some(matches) =>
          if !matches then Some(front)
          else match RenderRow(selected, projected, n - 1) case None => None case Some(row) => Some(front + [row])
  }

  /** One group that is not pruned: verify, decode, filter, render. */
  function ScanGroup(crc: Checksum, data: seq<byte>, g: GroupEntry, columns: seq<ColumnSchema>,
                     projected: seq<ColumnSchema>,
                     p: Option<Predicate>): Option<seq<Rendered>> {
    if !VerifyGroup(crc, data, g) then None
    else
      match DecodeNames(data, g, columns, projected, RequiredNames(projected, p))
      case None => None
      case Some(selected) => RenderRows(selected, projected, p, if selected == [] then 0 else selected[0].column.Rows())
  }

  /** `row_group_may_match`; None when the predicate's column has no entry or unreadable statistics. */
  function MayMatch(g: GroupEntry, p: Option<Predicate>): Option<bool> {
    match p
    case None => Some(true)
    case Some(q) =>
      match FindEntry(g.columns, q.column)
      case None => None
      case Some(e) =>
        match q
        case IsNull(_) => Some(e.nullCount > 0)
        case NumberIs(_, op) =>
          match DecodeStatistics(e.statistics)
          case None => None
          case Some(Range(min, max)) =>
            Some(match op
                 case Eq(n) => min <= n <= max
                 case Lt(n) => min < n
                 case LtEq(n) => min <= n
                 case Gt(n) => max > n
                 case GtEq(n) => max >= n)
          case Some(_) => Some(true)
  }

  function ScanGroups(crc: Checksum, data: seq<byte>, gs: seq<GroupEntry>, columns: seq<ColumnSchema>,
                      projected: seq<ColumnSchema>, p: Option<Predicate>): Option<ScanResult>
    decreases |gs|
  {
    if gs == [] then Some(ScanResult([], 0, 0))
    else
      match MayMatch(gs[0], p)
      case None => None
      case Some(may) =>
        if !may then
          match ScanGroups(crc, data, gs[1..], columns, projected, p)
          case None => None
          case Some(rest) => Some(ScanResult(rest.rows, rest.scanned, rest.pruned + 1))
        else
          match ScanGroup(crc, data, gs[0], columns, projected, p)
          case None => None
          case Some(rows) =>
            match ScanGroups(crc, data, gs[1..], columns, projected, p)
            case None => None
            case Some(rest) => Some(ScanResult(rows + rest.rows, rest.scanned + 1, rest.pruned))
  }

  /** `scan_jsonl`. */
  function Scan(crc: Checksum, data: seq<byte>, columns: seq<ColumnSchema>, projection: seq<Text>, p: Option<Predicate>)
    : Option<ScanResult>
  {
    if !SchemaOk(columns) || !HeaderOk(data) then None
    else
      match DecodeFooter(crc, data)
      case None => None
      case Some(footer) =>
        match SelectProjection(columns, projection)
        case None => None
        case Some(projected) =>
          if !PredicateOk(columns, p) then None else ScanGroups(crc, data, footer.groups, columns, projected, p)
  }

  // ----- the meaning of a scan -----

  /** The value of a rendered row under a name. */
  function Cell(row: Rendered, name: Text): Json {
    if row == [] then Null else if row[0].0 == name then row[0].1 else Cell(row[1..], name)
  }

  function Project(row: Rendered, projected: seq<ColumnSchema>): (r: Rendered)
    ensures |r| == |projected|
  {
    seq(|projected|, k requires 0 <= k < |projected| => (projected[k].name, Cell(row, projected[k].name)))
  }

  predicate Matches(row: Rendered, p: Option<Predicate>) {
    p.Some? ==> Accepts(p.value, Cell(row, p.value.column))
  }

  /** The rows that match, each reduced to the projection: what a scan is meant to return. */
  function FilterProject(rows: seq<Rendered>, projected: seq<ColumnSchema>, p: Option<Predicate>): seq<Rendered> {
    if rows == [] then []
    else
      var (front, last) := (rows[..|rows| - 1], rows[|rows| - 1]);
      FilterProject(front, projected, p) + (if Matches(last, p) then [Project(last, projected)] else [])
  }

  lemma {:induction false} FilterProjectConcat(a: seq<Rendered>, b: seq<Rendered>, projected: seq<ColumnSchema>,
                                               p: Option<Predicate>)
    ensures FilterProject(a + b, projected, p) == FilterProject(a, projected, p) + FilterProject(b, projected, p)
    decreases |b|
  {
    if b == [] {
      assert a + b == a;
    } else {
      FilterProjectConcat(a, b[..|b| - 1], projected, p);
      assert (a + b)[..|a + b| - 1] == a + b[..|b| - 1];
    }
  }

  // ----- one group -----

  /** Every column of the schema decodes in this group, to as many values as the group has rows. */
  ghost predicate Decodable(data: seq<byte>, g: GroupEntry, columns: seq<ColumnSchema>) {
    forall c :: c in columns ==> DecodeOf(data, g, c).Some? && DecodeOf(data, g, c).value.Rows() == g.rowCount
  }

  function FullRow(data: seq<byte>, g: GroupEntry, columns: seq<ColumnSchema>, k: nat): (r: Rendered)
    requires Decodable(data, g, columns) && k < g.rowCount
    ensures |r| == |columns|
  {
    seq(|columns|, i requires 0 <= i < |columns| => (columns[i].name, ValueAt(DecodeOf(data, g, columns[i]).value, k)))
  }

  function GroupRows(data: seq<byte>, g: GroupEntry, columns: seq<ColumnSchema>, n: nat): (rows: seq<Rendered>)
    requires Decodable(data, g, columns) && n <= g.rowCount
    ensures |rows| == n
  {
    seq(n, k requires 0 <= k < n => FullRow(data, g, columns, k))
  }

  lemma {:induction false} FindUnique(columns: seq<ColumnSchema>, c: ColumnSchema)
    requires forall i, j :: 0 <= i < j < |columns| ==> columns[i].name != columns[j].name
    requires c in columns
    ensures FindColumn(columns, c.name) == Some(c)
  {
    if columns[0] != c {
      var k :| 0 <= k < |columns| && columns[k] == c;
      assert columns[1..][k - 1] == c;
      FindUnique(columns[1..], c);
    }
  }

  lemma {:induction false} LookupIs(columns: seq<ColumnSchema>, projected: seq<ColumnSchema>, name: Text)
    requires SchemaOk(columns) && (forall c :: c in projected ==> c in columns)
    ensures Lookup(columns, projected, name) == FindColumn(columns, name)
  {
    hide Implemented;
    if FindColumn(projected, name).Some? {
      FindUnique(columns, FindColumn(projected, name).value);
    }
  }

  lemma {:induction false} CellIs(data: seq<byte>, g: GroupEntry, columns: seq<ColumnSchema>, k: nat, c: ColumnSchema)
    requires SchemaOk(columns) && Decodable(data, g, columns) && k < g.rowCount && c in columns
    ensures Cell(FullRow(data, g, columns, k), c.name) == ValueAt(DecodeOf(data, g, c).value, k)
  {
    hide Implemented, DecodeOf;
    var i :| 0 <= i < |columns| && columns[i] == c;
    CellAt(FullRow(data, g, columns, k), i);
  }

  lemma {:induction false} CellAt(row: Rendered, i: nat)
    requires i < |row| && forall j :: 0 <= j < i ==> row[j].0 != row[i].0
    ensures Cell(row, row[i].0) == row[i].1
    decreases |row|
  {
    if i > 0 {
      CellAt(row[1..], i - 1);
    }
  }

  /** The decoded columns are the ones asked for, under their own names. */
  ghost predicate Selected(data: seq<byte>, g: GroupEntry, columns: seq<ColumnSchema>, projected: seq<ColumnSchema>,
                           names: seq<Text>, selected: seq<Selection>) {
    && |selected| == |names|
    && forall k :: 0 <= k < |names| ==>
         (&& selected[k].name == names[k]
          && FindColumn(columns, names[k]).Some?
          && DecodeOf(data, g, FindColumn(columns, names[k]).value) == Some(selected[k].column)
          && selected[k].render == FindColumn(projected, names[k]).Some?)
  }

  lemma {:induction false} DecodeNamesSelects(data: seq<byte>, g: GroupEntry, columns: seq<ColumnSchema>,
                                              projected: seq<ColumnSchema>, names: seq<Text>)
    requires SchemaOk(columns) && (forall c :: c in projected ==> c in columns)
    requires forall k :: 0 <= k < |names| ==> FindColumn(columns, names[k]).Some?
    ensures DecodeNames(data, g, columns, projected, names).Some? <==>
            forall k :: 0 <= k < |names| ==> DecodeOf(data, g, FindColumn(columns, names[k]).value).Some?
    ensures DecodeNames(data, g, columns, projected, names).Some? ==>
              Selected(data, g, columns, projected, names, DecodeNames(data, g, columns, projected, names).value)
    decreases |names|
  {
    hide DecodeOf, SchemaOk, FindColumn, Lookup;
    if names != [] {
      LookupIs(columns, projected, names[0]);
      DecodeNamesSelects(data, g, columns, projected, names[1..]);
      assert names == [names[0]] + names[1..];
    }
  }

  lemma {:induction false} FindSelected(data: seq<byte>, g: GroupEntry, columns: seq<ColumnSchema>,
                                        projected: seq<ColumnSchema>,
                                        names: seq<Text>, selected: seq<Selection>, name: Text, rendered: bool)
    requires Selected(data, g, columns, projected, names, selected) && name in names
    requires rendered ==> FindColumn(projected, name).Some?
    ensures FindSelection(selected, name, rendered).Some? && FindColumn(columns, name).Some?
    ensures DecodeOf(data, g, FindColumn(columns, name).value) == Some(FindSelection(selected, name, rendered).value.column)
    decreases |names|
  {
    hide DecodeOf, FindColumn;
    if names[0] != name {
      FindSelected(data, g, columns, projected, names[1..], selected[1..], name, rendered);
    }
  }

  /** A decoded column has the rows of its group. */
  lemma {:induction false} DecodedRows(data: seq<byte>, g: GroupEntry, c: ColumnSchema)
    requires DecodeOf(data, g, c).Some?
    ensures DecodeOf(data, g, c).value.Rows() == g.rowCount && DecodeOf(data, g, c).value.Type() == c.valueType
  {
    hide DecodeColumn, ColumnFormat.Decode;
    var e := FindEntry(g.columns, c.name).value;
    var m := ColumnFormat.Decode(data[e.metadataOffset..e.metadataOffset + e.metadataLen]).value;
    DecodedIsDeclared(m, data[e.payloadOffset..e.payloadOffset + e.payloadLen]);
  }

  lemma {:induction false} RenderRowIs(data: seq<byte>, g: GroupEntry, columns: seq<ColumnSchema>,
                                       projected: seq<ColumnSchema>,
                                       part: seq<ColumnSchema>, names: seq<Text>, selected: seq<Selection>, k: nat)
    requires SchemaOk(columns) && Decodable(data, g, columns) && k < g.rowCount
    requires Selected(data, g, columns, projected, names, selected)
    requires forall c :: c in part ==> c in projected && c in columns && c.name in names
    ensures RenderRow(selected, part, k) == Some(Project(FullRow(data, g, columns, k), part))
    decreases |part|
  {
    hide DecodeOf, FindColumn, FindSelection, Cell, Implemented;
    if part != [] {
      var c := part[0];
      ProjectedFound(projected, c);
      FindSelected(data, g, columns, projected, names, selected, c.name, true);
      FindUnique(columns, c);
      CellIs(data, g, columns, k, c);
      RenderRowIs(data, g, columns, projected, part[1..], names, selected, k);
      var row := FullRow(data, g, columns, k);
      assert Project(row, part) == [(c.name, Cell(row, c.name))] + Project(row, part[1..]);
    } else {
      assert Project(FullRow(data, g, columns, k), part) == [];
    }
  }

  lemma {:induction false} ProjectedFound(projected: seq<ColumnSchema>, c: ColumnSchema)
    requires c in projected
    ensures FindColumn(projected, c.name).Some?
  {
  }

  lemma {:induction false} RowMatchesIs(data: seq<byte>, g: GroupEntry, columns: seq<ColumnSchema>,
                                        projected: seq<ColumnSchema>,
                     names: seq<Text>, selected: seq<Selection>, k: nat, p: Option<Predicate>)
    requires SchemaOk(columns) && Decodable(data, g, columns) && k < g.rowCount && PredicateOk(columns, p)
    requires Selected(data, g, columns, projected, names, selected) && (p.Some? ==> p.value.column in names)
    ensures RowMatches(selected, k, p) == Some(Matches(FullRow(data, g, columns, k), p))
  {
    hide DecodeOf, FindSelection, Cell, Implemented, Accepts;
    if p.Some? {
      var c := FindColumn(columns, p.value.column).value;
      FindSelected(data, g, columns, projected, names, selected, p.value.column, false);
      CellIs(data, g, columns, k, c);
    }
  }

  lemma {:induction false} RenderRowsIs(data: seq<byte>, g: GroupEntry, columns: seq<ColumnSchema>,
                                        projected: seq<ColumnSchema>,
                                        names: seq<Text>, selected: seq<Selection>, p: Option<Predicate>, n: nat)
    requires SchemaOk(columns) && Decodable(data, g, columns) && n <= g.rowCount && PredicateOk(columns, p)
    requires Selected(data, g, columns, projected, names, selected) && (p.Some? ==> p.value.column in names)
    requires forall c :: c in projected ==> c in columns && c.name in names
    ensures RenderRows(selected, projected, p, n) == Some(FilterProject(GroupRows(data, g, columns, n), projected, p))
    decreases n
  {
    hide SchemaOk, Decodable, Selected, PredicateOk, RowMatches, RenderRow, Matches, Project, FullRow;
    var rows := GroupRows(data, g, columns, n);
    if n > 0 {
      RenderRowsIs(data, g, columns, projected, names, selected, p, n - 1);
      RowMatchesIs(data, g, columns, projected, names, selected, n - 1, p);
      RenderRowIs(data, g, columns, projected, projected, names, selected, n - 1);
      assert rows[..n - 1] == GroupRows(data, g, columns, n - 1);
      assert rows[n - 1] == FullRow(data, g, columns, n - 1);
      FilterProjectSnoc(rows, projected, p);
    } else {
      assert rows == [];
    }
  }

  lemma {:induction false} FilterProjectSnoc(rows: seq<Rendered>, projected: seq<ColumnSchema>, p: Option<Predicate>)
    requires rows != []
    ensures FilterProject(rows, projected, p)
         == if Matches(rows[|rows| - 1], p) then FilterProject(rows[..|rows| - 1], projected, p) + [Project(rows[|rows| - 1], projected)]
            else FilterProject(rows[..|rows| - 1], projected, p)
  {
    hide Matches, Project;
    var front := FilterProject(rows[..|rows| - 1], projected, p);
    assert front + [] == front;
  }

  lemma {:induction false} RequiredCovers(columns: seq<ColumnSchema>, projected: seq<ColumnSchema>,
                                          p: Option<Predicate>)
    requires PredicateOk(columns, p) && forall c :: c in projected ==> c in columns
    ensures forall c :: c in projected ==> c.name in RequiredNames(projected, p)
    ensures p.Some? ==> p.value.column in RequiredNames(projected, p)
    ensures forall k :: 0 <= k < |RequiredNames(projected, p)| ==> FindColumn(columns, RequiredNames(projected, p)[k]).Some?
  {
    var names := NamesOf(projected);
    forall c | c in projected ensures c.name in RequiredNames(projected, p) {
      var k :| 0 <= k < |projected| && projected[k] == c;
      assert names[k] == c.name;
    }
    forall k | 0 <= k < |RequiredNames(projected, p)| ensures FindColumn(columns, RequiredNames(projected, p)[k]).Some? {
      if k < |names| {
        assert projected[k] in columns;
      }
    }
  }

  /** A group scanned under a projection and a predicate gives the matching rows of the group, projected. */
  lemma {:induction false} ScanGroupIs(crc: Checksum, data: seq<byte>, g: GroupEntry, columns: seq<ColumnSchema>,
                                       projected: seq<ColumnSchema>,
                    p: Option<Predicate>)
    requires SchemaOk(columns) && Decodable(data, g, columns) && VerifyGroup(crc, data, g) && PredicateOk(columns, p)
    requires projected != [] && forall c :: c in projected ==> c in columns
    ensures ScanGroup(crc, data, g, columns, projected, p)
         == Some(FilterProject(GroupRows(data, g, columns, g.rowCount), projected, p))
  {
    hide SchemaOk, PredicateOk, VerifyGroup, DecodeOf, DecodeNames, RenderRows, FilterProject, GroupRows, FindColumn;
    var names := RequiredNames(projected, p);
    RequiredCovers(columns, projected, p);
    forall k | 0 <= k < |names| ensures DecodeOf(data, g, FindColumn(columns, names[k]).value).Some? {
      FoundIn(columns, names[k]);
    }
    DecodeNamesSelects(data, g, columns, projected, names);
    var selected := DecodeNames(data, g, columns, projected, names).value;
    FoundIn(columns, names[0]);
    RenderRowsIs(data, g, columns, projected, names, selected, p, g.rowCount);
  }

  lemma {:induction false} FoundIn(columns: seq<ColumnSchema>, name: Text)
    requires FindColumn(columns, name).Some?
    ensures FindColumn(columns, name).value in columns
  {
  }

  /** A full scan that succeeds has decoded every column. */
  lemma {:induction false} FullScanDecodes(crc: Checksum, data: seq<byte>, g: GroupEntry, columns: seq<ColumnSchema>)
    requires SchemaOk(columns) && ScanGroup(crc, data, g, columns, columns, None).Some?
    ensures VerifyGroup(crc, data, g) && Decodable(data, g, columns)
  {
    hide VerifyGroup, DecodeOf, DecodeNames, RenderRows, FindColumn, Implemented;
    RequiredCovers(columns, columns, None);
    var names := NamesOf(columns);
    DecodeNamesSelects(data, g, columns, columns, names);
    forall c | c in columns ensures DecodeOf(data, g, c).Some? && DecodeOf(data, g, c).value.Rows() == g.rowCount {
      var k :| 0 <= k < |columns| && columns[k] == c;
      FindUnique(columns, c);
      assert names[k] == c.name;
      DecodedRows(data, g, c);
    }
  }

  lemma {:induction false} FullProjection(data: seq<byte>, g: GroupEntry, columns: seq<ColumnSchema>, n: nat)
    requires SchemaOk(columns) && Decodable(data, g, columns) && n <= g.rowCount
    ensures FilterProject(GroupRows(data, g, columns, n), columns, None) == GroupRows(data, g, columns, n)
    decreases n
  {
    hide DecodeOf, Cell, Implemented;
    if n > 0 {
      FullProjection(data, g, columns, n - 1);
      var row := FullRow(data, g, columns, n - 1);
      forall i | 0 <= i < |columns| ensures Project(row, columns)[i] == row[i] {
        CellIs(data, g, columns, n - 1, columns[i]);
      }
      assert Project(row, columns) == row;
      assert GroupRows(data, g, columns, n)[..n - 1] == GroupRows(data, g, columns, n - 1);
    }
  }

  /** A column is shown only from a chunk whose metadata agree with the schema, with the index entry and with the group. */
  lemma {:induction false} DecodedAgrees(data: seq<byte>, g: GroupEntry, c: ColumnSchema)
    returns (e: ColumnEntry, m: ColumnMetadata)
    requires DecodeOf(data, g, c).Some?
    ensures e in g.columns && e.metadataOffset + e.metadataLen <= |data| && e.payloadOffset + e.payloadLen <= |data|
    ensures ColumnFormat.Decode(data[e.metadataOffset..e.metadataOffset + e.metadataLen]) == Some(m)
    ensures DecodeOf(data, g, c) == DecodeColumn(m, data[e.payloadOffset..e.payloadOffset + e.payloadLen])
    ensures c.name == m.name == e.name && c.valueType == m.valueType && c.nullable == m.nullable
    ensures c.codec == Auto || c.codec == m.codec
    ensures g.rowCount == m.valueCount == e.valueCount && m.nullCount == e.nullCount
    ensures m.statistics == e.statistics && m.compressedSize == e.payloadLen
  {
    hide DecodeColumn, ColumnFormat.Decode;
    e := FindEntry(g.columns, c.name).value;
    m := ColumnFormat.Decode(data[e.metadataOffset..e.metadataOffset + e.metadataLen]).value;
  }

  // ----- pruning -----

  lemma {:induction false} PresentMember<T>(cells: seq<Option<T>>, k: nat)
    requires k < |cells| && cells[k].Some?
    ensures cells[k].value in Present(cells)
  {
    if k > 0 {
      PresentMember(cells[1..], k - 1);
    }
  }

  /** The entry of a decoded column carries the column's true statistics and null count. */
  lemma {:induction false} EntryIsTrue(data: seq<byte>, g: GroupEntry, c: ColumnSchema)
    requires DecodeOf(data, g, c).Some?
    ensures FindEntry(g.columns, c.name).Some?
    ensures var (e, column) := (FindEntry(g.columns, c.name).value, DecodeOf(data, g, c).value);
            && DecodeStatistics(e.statistics) == Some(StatisticsOf(column))
            && CountTrue(column.Validity()) + e.nullCount == column.Rows()
            && column.Type() == c.valueType
  {
    hide DecodeColumn, ColumnFormat.Decode, StatisticsOf, CountTrue, DecodeStatistics;
    var e := FindEntry(g.columns, c.name).value;
    var m := ColumnFormat.Decode(data[e.metadataOffset..e.metadataOffset + e.metadataLen]).value;
    DecodedIsDeclared(m, data[e.payloadOffset..e.payloadOffset + e.payloadLen]);
  }

  lemma {:induction false} NoNullShown(column: Column, k: nat)
    requires CountTrue(column.Validity()) == column.Rows() && k < column.Rows()
    ensures !ValueAt(column, k).Null?
  {
    hide CountTrue;
    FullIsAllTrue(column.Validity());
    assert column.Validity()[k];
  }

  lemma {:induction false} RangeExcludes(column: Column, q: Predicate, k: nat)
    requires column.Numbers? && q.NumberIs? && k < column.Rows() && StatisticsOf(column).Range?
    requires Accepts(q, ValueAt(column, k))
    ensures StatisticsOf(column).min <= column.numbers[k].value <= StatisticsOf(column).max
  {
    hide Present, Min, Numbers.Max;
    var (values, v) := (Present(column.numbers), column.numbers[k].value);
    PresentMember(column.numbers, k);
    var i :| 0 <= i < |values| && values[i] == v;
    MinIsBound(values, i);
    Numbers.MaxIsBound(values, i);
  }

  /** Pruning never fails where decoding succeeds, and never drops a matching row. */
  lemma {:induction false} PruneSound(data: seq<byte>, g: GroupEntry, columns: seq<ColumnSchema>, p: Option<Predicate>,
                                      k: nat)
    requires SchemaOk(columns) && Decodable(data, g, columns) && PredicateOk(columns, p)
    ensures MayMatch(g, p).Some?
    ensures k < g.rowCount && Matches(FullRow(data, g, columns, k), p) ==> MayMatch(g, p) == Some(true)
  {
    hide DecodeOf, Cell, Implemented, FindEntry, DecodeStatistics, StatisticsOf, CountTrue;
    if p.Some? {
      var q := p.value;
      var c := FindColumn(columns, q.column).value;
      var column := DecodeOf(data, g, c).value;
      EntryIsTrue(data, g, c);
      if k < g.rowCount && Matches(FullRow(data, g, columns, k), p) {
        CellIs(data, g, columns, k, c);
        if q.IsNull? {
          if CountTrue(column.Validity()) == column.Rows() {
            NoNullShown(column, k);
          }
          CountAtMost(column.Validity());
        } else if StatisticsOf(column).Range? {
          RangeExcludes(column, q, k);
        }
      }
    }
  }

  lemma {:induction false} CountAtMost(bits: seq<bool>)
    ensures CountTrue(bits) <= |bits|
  {
  }

  lemma {:induction false} NoneMatch(data: seq<byte>, g: GroupEntry, columns: seq<ColumnSchema>,
                                     projected: seq<ColumnSchema>,
                                     p: Option<Predicate>, n: nat)
    requires SchemaOk(columns) && Decodable(data, g, columns) && PredicateOk(columns, p) && n <= g.rowCount
    requires MayMatch(g, p) != Some(true)
    ensures FilterProject(GroupRows(data, g, columns, n), projected, p) == []
    decreases n
  {
    hide SchemaOk, PredicateOk, MayMatch, Matches, FullRow, Decodable;
    var rows := GroupRows(data, g, columns, n);
    if n > 0 {
      NoneMatch(data, g, columns, projected, p, n - 1);
      PruneSound(data, g, columns, p, n - 1);
      assert rows[..n - 1] == GroupRows(data, g, columns, n - 1);
      assert rows[n - 1] == FullRow(data, g, columns, n - 1);
      FilterProjectSnoc(rows, projected, p);
    } else {
      assert rows == [];
    }
  }

  // ----- whole files -----

  /** What the full scan found in the groups, group by group. */
  lemma {:induction false} ScanGroupsIs(crc: Checksum, data: seq<byte>, gs: seq<GroupEntry>, columns: seq<ColumnSchema>,
                                        projected: seq<ColumnSchema>, p: Option<Predicate>)
    requires SchemaOk(columns) && PredicateOk(columns, p) && projected != [] && forall c :: c in projected ==> c in columns
    requires ScanGroups(crc, data, gs, columns, columns, None).Some?
    ensures var full := ScanGroups(crc, data, gs, columns, columns, None).value;
            var r := ScanGroups(crc, data, gs, columns, projected, p);
            && r.Some? && r.value.rows == FilterProject(full.rows, projected, p)
            && r.value.scanned + r.value.pruned == |gs| && full.scanned == |gs| && full.pruned == 0
    decreases |gs|
  {
    hide SchemaOk, PredicateOk, ScanGroup, FilterProject, GroupRows, Decodable, VerifyGroup, MayMatch;
    if gs == [] {
      NoRowsFiltered(projected, p);
    } else {
      var g := gs[0];
      NoPredicate(g);
      ScanGroupsIs(crc, data, gs[1..], columns, projected, p);
      FullScanDecodes(crc, data, g, columns);
      SchemaNonEmpty(columns);
      ScanGroupIs(crc, data, g, columns, columns, None);
      FullProjection(data, g, columns, g.rowCount);
      PruneSound(data, g, columns, p, 0);
      var rows := GroupRows(data, g, columns, g.rowCount);
      if MayMatch(g, p) == Some(true) {
        ScanGroupIs(crc, data, g, columns, projected, p);
      } else {
        NoneMatch(data, g, columns, projected, p, g.rowCount);
      }
      var rest := ScanGroups(crc, data, gs[1..], columns, columns, None).value.rows;
      FilterProjectConcat(rows, rest, projected, p);
      assert [] + FilterProject(rest, projected, p) == FilterProject(rest, projected, p);
    }
  }

  lemma {:induction false} NoRowsFiltered(projected: seq<ColumnSchema>, p: Option<Predicate>)
    ensures FilterProject([], projected, p) == []
  {
  }

  lemma {:induction false} NoPredicate(g: GroupEntry)
    ensures MayMatch(g, None) == Some(true)
  {
  }

  lemma {:induction false} SchemaNonEmpty(columns: seq<ColumnSchema>)
    requires SchemaOk(columns)
    ensures columns != [] && PredicateOk(columns, None)
  {
  }

  // ----- the loop -----

  ghost function Front(f: ScanResult, rest: Option<ScanResult>): Option<ScanResult> {
    match rest
    case None => None
    case Some(r) => Some(ScanResult(f.rows + r.rows, f.scanned + r.scanned, f.pruned + r.pruned))
  }

  lemma {:induction false} FrontStart(rest: Option<ScanResult>)
    ensures Front(ScanResult([], 0, 0), rest) == rest
  {
    if rest.Some? {
      assert [] + rest.value.rows == rest.value.rows;
    }
  }

  /** One group of the loop: an error, a pruned group, or its rows. */
  lemma {:induction false} FrontStep(crc: Checksum, data: seq<byte>, gs: seq<GroupEntry>, i: nat,
                                     columns: seq<ColumnSchema>,
                  projected: seq<ColumnSchema>, p: Option<Predicate>, f: ScanResult)
    requires i < |gs|
    ensures var (may, found) := (MayMatch(gs[i], p), ScanGroup(crc, data, gs[i], columns, projected, p));
            Front(f, ScanGroups(crc, data, gs[i..], columns, projected, p)) ==
            if may == None then None
            else if may == Some(false) then
              Front(ScanResult(f.rows, f.scanned, f.pruned + 1), ScanGroups(crc, data, gs[i + 1..], columns, projected, p))
            else if found == None then None
            else
              Front(ScanResult(f.rows + found.value, f.scanned + 1, f.pruned), ScanGroups(crc, data, gs[i + 1..], columns, projected, p))
  {
    hide MayMatch, ScanGroup;
    assert gs[i..][0] == gs[i] && gs[i..][1..] == gs[i + 1..];
    var found := ScanGroup(crc, data, gs[i], columns, projected, p);
    var rest := ScanGroups(crc, data, gs[i + 1..], columns, projected, p);
    if found.Some? && rest.Some? {
      assert f.rows + (found.value + rest.value.rows) == (f.rows + found.value) + rest.value.rows;
    }
  }

  lemma {:induction false} FrontEnd(crc: Checksum, data: seq<byte>, columns: seq<ColumnSchema>,
                                    projected: seq<ColumnSchema>, p: Option<Predicate>,
                 f: ScanResult)
    ensures Front(f, ScanGroups(crc, data, [], columns, projected, p)) == Some(f)
  {
    assert f.rows + [] == f.rows;
  }

  /** `scan_jsonl`: the loop over the row groups of the footer. */
  method ScanJsonl(crc: Checksum, data: seq<byte>, columns: seq<ColumnSchema>, projection: seq<Text>,
                   p: Option<Predicate>)
    returns (r: Option<ScanResult>)
    ensures r == Scan(crc, data, columns, projection, p)
  {
    hide DecodeFooter, SchemaOk, HeaderOk, PredicateOk, SelectProjection, ScanGroup, MayMatch, ScanGroups, Front;
    if !SchemaOk(columns) || !HeaderOk(data) {
      return None;
    }
    var footer := DecodeFooter(crc, data);
    if footer.None? {
      return None;
    }
    var projected := SelectProjection(columns, projection);
    if projected.None? || !PredicateOk(columns, p) {
      return None;
    }
    var gs := footer.value.groups;
    var result := ScanResult([], 0, 0);
    assert gs[0..] == gs;
    FrontStart(ScanGroups(crc, data, gs, columns, projected.value, p));
    for i := 0 to |gs|
      invariant ScanGroups(crc, data, gs, columns, projected.value, p)
             == Front(result, ScanGroups(crc, data, gs[i..], columns, projected.value, p))
    {
      FrontStep(crc, data, gs, i, columns, projected.value, p, result);
      var may := MayMatch(gs[i], p);
      if may.None? {
        return None;
      }
      if !may.value {
        result := result.(pruned := result.pruned + 1);
      } else {
        var found := ScanGroup(crc, data, gs[i], columns, projected.value, p);
        if found.None? {
          return None;
        }
        result := ScanResult(result.rows + found.value, result.scanned + 1, result.pruned);
      }
    }
    FrontEnd(crc, data, columns, projected.value, p, result);
    assert gs[|gs|..] == [];
    return Some(result);
  }
}
