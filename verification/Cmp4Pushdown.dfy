/** What a projection and a predicate give, on arbitrary bytes (crates/compact-core/src/io/v4.rs, `scan_jsonl`). */
module Cmp4Pushdown {
  import opened Wrappers
  import opened Bytes
  import opened Cmp4Format
  import opened Columns
  import opened ColumnSelect
  import opened Cmp4Validate
  import opened Cmp4Scan
  import Numbers

  // ----- projection and predicate -----

  ghost predicate HasColumn(columns: seq<ColumnSchema>, name: Text) {
    exists c :: c in columns && c.name == name
  }

  /** Pairwise different names of columns. */
  ghost predicate ValidProjection(columns: seq<ColumnSchema>, projection: seq<Text>) {
    && (forall i, j :: 0 <= i < j < |projection| ==> projection[i] != projection[j])
    && forall k :: 0 <= k < |projection| ==> HasColumn(columns, projection[k])
  }

  /** A predicate about a column, about numbers only for a column of numbers. */
  ghost predicate ValidPredicate(columns: seq<ColumnSchema>, p: Option<Predicate>) {
    p.Some? ==>
      exists c :: c in columns && c.name == p.value.column && (p.value.NumberIs? ==> c.valueType == NumberType)
  }

  /** The names of the columns a projection shows; no projection shows all columns. */
  function ShownNames(columns: seq<ColumnSchema>, projection: seq<Text>): seq<Text> {
    if projection == [] then NamesOf(columns) else projection
  }

  lemma {:induction false} FoundColumn(columns: seq<ColumnSchema>, name: Text)
    ensures FindColumn(columns, name).Some? <==> HasColumn(columns, name)
  {
  }

  lemma {:induction false} SelectNamesIff(columns: seq<ColumnSchema>, names: seq<Text>, seen: seq<Text>)
    ensures SelectNames(columns, names, seen).Some? <==>
            ValidProjection(columns, names) && forall k :: 0 <= k < |names| ==> names[k] !in seen
    ensures SelectNames(columns, names, seen).Some? ==>
              forall k :: 0 <= k < |names| ==> SelectNames(columns, names, seen).value[k].name == names[k]
    decreases |names|
  {
    if names != [] {
      var (name, rest) := (names[0], names[1..]);
      FoundColumn(columns, name);
      hide HasColumn, FindColumn;
      SelectNamesIff(columns, rest, seen + [name]);
      assert names == [name] + rest;
      if SelectNames(columns, names, seen).Some? {
        forall i, j | 0 <= i < j < |names| ensures names[i] != names[j] {
          if i > 0 {
            assert rest[i - 1] != rest[j - 1];
          } else {
            assert rest[j - 1] !in seen + [name];
          }
        }
        forall k | 0 <= k < |names| ensures names[k] !in seen && HasColumn(columns, names[k]) {
          if k > 0 {
            assert rest[k - 1] !in seen + [name] && HasColumn(columns, rest[k - 1]);
          }
        }
      }
      if ValidProjection(columns, names) && forall k :: 0 <= k < |names| ==> names[k] !in seen {
        forall k | 0 <= k < |rest| ensures rest[k] !in seen + [name] && HasColumn(columns, rest[k]) {
          assert rest[k] == names[k + 1];
        }
        assert ValidProjection(columns, rest);
      }
    }
  }

  /** A projection is accepted exactly when it is valid, and selects the columns of its names in their order. */
  lemma {:induction false} SelectProjectionIff(columns: seq<ColumnSchema>, projection: seq<Text>)
    ensures SelectProjection(columns, projection).Some? <==> ValidProjection(columns, projection)
    ensures SelectProjection(columns, projection).Some? ==>
              var (selected, names) := (SelectProjection(columns, projection).value, ShownNames(columns, projection));
              && |selected| == |names|
              && forall k :: 0 <= k < |names| ==> selected[k] in columns && selected[k].name == names[k]
  {
    SelectNamesIff(columns, projection, []);
  }

  lemma {:induction false} PredicateOkIff(columns: seq<ColumnSchema>, p: Option<Predicate>)
    requires SchemaOk(columns)
    ensures PredicateOk(columns, p) <==> ValidPredicate(columns, p)
  {
    hide Implemented, FindColumn;
    if p.Some? && ValidPredicate(columns, p) {
      var c :| c in columns && c.name == p.value.column && (p.value.NumberIs? ==> c.valueType == NumberType);
      FindUnique(columns, c);
    }
  }

  // ----- rows -----

  /** A row whose cells carry these names. */
  ghost predicate Named(row: Rendered, names: seq<Text>) {
    |row| == |names| && forall j :: 0 <= j < |names| ==> row[j].0 == names[j]
  }

  /** The predicate accepts the value the row has in the predicate's column. */
  ghost predicate Passes(row: Rendered, p: Option<Predicate>) {
    p.Some? ==> exists value :: (p.value.column, value) in row && Accepts(p.value, value)
  }

  /** The row `shown` has the cells of `row` under these names, in their order. */
  ghost predicate Shows(shown: Rendered, row: Rendered, names: seq<Text>) {
    Named(shown, names) && forall c :: 0 <= c < |names| ==> shown[c] in row
  }

  /** Strictly increasing positions below `n`. */
  ghost predicate Positions(keep: seq<nat>, n: nat) {
    && (forall i, j :: 0 <= i < j < |keep| ==> keep[i] < keep[j])
    && forall i :: 0 <= i < |keep| ==> keep[i] < n
  }

  lemma {:induction false} CellNamed(row: Rendered, columns: seq<ColumnSchema>, c: ColumnSchema, value: Json)
    requires SchemaOk(columns) && Named(row, NamesOf(columns)) && c in columns
    ensures Cell(row, c.name) == value <==> (c.name, value) in row
  {
    hide Implemented, Cell;
    var names := NamesOf(columns);
    var i :| 0 <= i < |columns| && columns[i] == c;
    forall j | 0 <= j < |row| && j != i ensures row[j].0 != c.name {
      assert row[j].0 == names[j] == columns[j].name;
    }
    assert row[i].0 == names[i] == c.name;
    CellAt(row, i);
  }

  lemma {:induction false} PassesIff(row: Rendered, columns: seq<ColumnSchema>, p: Option<Predicate>)
    requires SchemaOk(columns) && Named(row, NamesOf(columns)) && ValidPredicate(columns, p)
    ensures Matches(row, p) <==> Passes(row, p)
  {
    hide Cell, SchemaOk, Accepts;
    if p.Some? {
      var c :| c in columns && c.name == p.value.column && (p.value.NumberIs? ==> c.valueType == NumberType);
      CellNamed(row, columns, c, Cell(row, c.name));
      if value: Json :| (c.name, value) in row && Accepts(p.value, value) {
        CellNamed(row, columns, c, value);
      }
    }
  }

  lemma {:induction false} ProjectShows(row: Rendered, columns: seq<ColumnSchema>, selected: seq<ColumnSchema>,
                                        names: seq<Text>)
    requires SchemaOk(columns) && Named(row, NamesOf(columns))
    requires |selected| == |names| && forall k :: 0 <= k < |names| ==> selected[k] in columns && selected[k].name == names[k]
    ensures Shows(Project(row, selected), row, names)
  {
    hide Cell, SchemaOk;
    forall c | 0 <= c < |names| ensures Project(row, selected)[c] in row {
      CellNamed(row, columns, selected[c], Cell(row, names[c]));
    }
  }

  /** Which rows a filter keeps. */
  lemma {:induction false} FilterKeeps(rows: seq<Rendered>, projected: seq<ColumnSchema>, p: Option<Predicate>)
    returns (keep: seq<nat>)
    ensures Positions(keep, |rows|) && forall k: nat :: k < |rows| ==> (k in keep <==> Matches(rows[k], p))
    ensures var out := FilterProject(rows, projected, p);
            |out| == |keep| && forall i :: 0 <= i < |keep| ==> out[i] == Project(rows[keep[i]], projected)
    decreases |rows|
  {
    hide Matches, Project;
    if rows == [] {
      keep := [];
    } else {
      var n := |rows| - 1;
      keep := FilterKeeps(rows[..n], projected, p);
      forall k: nat | k < n ensures k in keep <==> Matches(rows[k], p) {
        assert rows[..n][k] == rows[k];
      }
      FilterProjectSnoc(rows, projected, p);
      if Matches(rows[n], p) {
        keep := keep + [n];
      }
    }
  }

  // ----- the rows of a full scan -----

  /** Every row of a full scan has one cell for each column, in their order. */
  lemma {:induction false} FullRowsNamed(crc: Checksum, data: seq<byte>, gs: seq<GroupEntry>,
                                         columns: seq<ColumnSchema>)
    requires SchemaOk(columns) && ScanGroups(crc, data, gs, columns, columns, None).Some?
    ensures forall row :: row in ScanGroups(crc, data, gs, columns, columns, None).value.rows ==> Named(row, NamesOf(columns))
    decreases |gs|
  {
    hide SchemaOk, ScanGroup, GroupRows, Decodable, VerifyGroup, MayMatch, Named;
    if gs != [] {
      NoPredicate(gs[0]);
      FullRowsNamed(crc, data, gs[1..], columns);
      GroupOfFullScan(crc, data, gs[0], columns);
    }
  }

  /** What a full scan finds in one group. */
  lemma {:induction false} GroupOfFullScan(crc: Checksum, data: seq<byte>, g: GroupEntry, columns: seq<ColumnSchema>)
    requires SchemaOk(columns) && ScanGroup(crc, data, g, columns, columns, None).Some?
    ensures Decodable(data, g, columns)
    ensures ScanGroup(crc, data, g, columns, columns, None).value == GroupRows(data, g, columns, g.rowCount)
    ensures forall row :: row in GroupRows(data, g, columns, g.rowCount) ==> Named(row, NamesOf(columns))
  {
    FullScanDecodes(crc, data, g, columns);
    SchemaNonEmpty(columns);
    hide SchemaOk, ScanGroup, Decodable, VerifyGroup, DecodeOf;
    ScanGroupIs(crc, data, g, columns, columns, None);
    FullProjection(data, g, columns, g.rowCount);
  }

  /**
    Pushdown is exact on arbitrary bytes. Wherever the full scan succeeds, a projection and a predicate succeed exactly
    when they are valid for the schema. Then the result is the rows of the full scan that the predicate accepts, in
    order, each with the cells of the requested names in the requested order; each group is either scanned or pruned.
  */
  lemma {:induction false} PushdownIsExact(crc: Checksum, data: seq<byte>, columns: seq<ColumnSchema>,
                                           projection: seq<Text>, p: Option<Predicate>)
    returns (keep: seq<nat>)
    requires Scan(crc, data, columns, [], None).Some?
    ensures Scan(crc, data, columns, projection, p).Some? <==> ValidProjection(columns, projection) && ValidPredicate(columns, p)
    ensures var full := Scan(crc, data, columns, [], None).value;
            && (forall row :: row in full.rows ==> Named(row, NamesOf(columns))) && full.pruned == 0
            && (Scan(crc, data, columns, projection, p).Some? ==>
                  var r := Scan(crc, data, columns, projection, p).value;
                  && Positions(keep, |full.rows|) && |r.rows| == |keep|
                  && (forall k: nat :: k < |full.rows| ==> (k in keep <==> Passes(full.rows[k], p)))
                  && (forall n :: 0 <= n < |keep| ==> Shows(r.rows[n], full.rows[keep[n]], ShownNames(columns, projection)))
                  && r.scanned + r.pruned == full.scanned)
  {
    hide DecodeFooter, ScanGroups, HeaderOk, PredicateOk, SelectNames, FilterProject, ValidProjection, ValidPredicate;
    hide SchemaOk, Named, Passes, Shows, Matches, Project;
    var footer := DecodeFooter(crc, data).value;
    SchemaNonEmpty(columns);
    SelectProjectionIff(columns, projection);
    PredicateOkIff(columns, p);
    var full := Scan(crc, data, columns, [], None).value;
    FullRowsNamed(crc, data, footer.groups, columns);
    ScanGroupsIs(crc, data, footer.groups, columns, columns, None);
    if Scan(crc, data, columns, projection, p).Some? {
      var selected := SelectProjection(columns, projection).value;
      var names := ShownNames(columns, projection);
      ScanGroupsIs(crc, data, footer.groups, columns, selected, p);
      keep := FilterKeeps(full.rows, selected, p);
      forall k: nat | k < |full.rows| ensures k in keep <==> Passes(full.rows[k], p) {
        PassesIff(full.rows[k], columns, p);
      }
      forall n | 0 <= n < |keep|
        ensures Shows(Scan(crc, data, columns, projection, p).value.rows[n], full.rows[keep[n]], names)
      {
        ProjectShows(full.rows[keep[n]], columns, selected, names);
      }
    } else {
      keep := [];
      if SelectProjection(columns, projection).Some? && PredicateOk(columns, p) {
        ScanGroupsIs(crc, data, footer.groups, columns, SelectProjection(columns, projection).value, p);
      }
    }
  }

  // ----- pruning -----

  /** `lo` and `hi` are the least and the greatest number the rows have under a name. */
  ghost predicate Bounds(rows: seq<Rendered>, name: Text, lo: nat, hi: nat) {
    && (exists row :: row in rows && (name, Number(lo)) in row)
    && (exists row :: row in rows && (name, Number(hi)) in row)
    && forall row, n: nat :: row in rows && (name, Number(n)) in row ==> lo <= n <= hi
  }

  /** No number in this range satisfies a comparison. */
  ghost predicate NoneBetween(op: Op, lo: nat, hi: nat) {
    forall v: nat :: lo <= v <= hi ==> !Holds(op, v)
  }

  /**
    The rows of a group exclude a match: there is no null, or no number from the least to the greatest one of the
    column satisfies the comparison.
  */
  ghost predicate Excluded(rows: seq<Rendered>, p: Option<Predicate>) {
    match p
    case None => false
    case Some(IsNull(name)) => forall row :: row in rows ==> (name, Null) !in row
    case Some(NumberIs(name, op)) => exists lo: nat, hi: nat :: Bounds(rows, name, lo, hi) && NoneBetween(op, lo, hi)
  }

  lemma {:induction false} AllValid(bits: seq<bool>)
    ensures CountTrue(bits) == |bits| <==> forall k :: 0 <= k < |bits| ==> bits[k]
  {
    if CountTrue(bits) == |bits| {
      FullIsAllTrue(bits);
    }
    if forall k :: 0 <= k < |bits| ==> bits[k] {
      AllTrue(|bits|);
      assert bits == seq(|bits|, _ => true);
    }
  }

  /** The cell of a row of the group is the decoded column's. */
  lemma {:induction false} GroupCell(data: seq<byte>, g: GroupEntry, columns: seq<ColumnSchema>, c: ColumnSchema,
                                     k: nat,
                                     value: Json)
    requires SchemaOk(columns) && Decodable(data, g, columns) && c in columns && k < g.rowCount
    ensures (c.name, value) in FullRow(data, g, columns, k) <==> ValueAt(DecodeOf(data, g, c).value, k) == value
  {
    hide DecodeOf, Implemented, Cell;
    CellIs(data, g, columns, k, c);
    CellNamed(FullRow(data, g, columns, k), columns, c, value);
  }

  lemma {:induction false} NullsOfGroup(data: seq<byte>, g: GroupEntry, columns: seq<ColumnSchema>, c: ColumnSchema)
    requires SchemaOk(columns) && Decodable(data, g, columns) && c in columns
    ensures FindEntry(g.columns, c.name).Some?
    ensures FindEntry(g.columns, c.name).value.nullCount == 0 <==>
            forall row :: row in GroupRows(data, g, columns, g.rowCount) ==> (c.name, Null) !in row
  {
    hide DecodeOf, SchemaOk, FindEntry, CountTrue, StatisticsOf, DecodeStatistics, FullRow;
    EntryIsTrue(data, g, c);
    var column := DecodeOf(data, g, c).value;
    AllValid(column.Validity());
    var rows := GroupRows(data, g, columns, g.rowCount);
    if forall k :: 0 <= k < column.Rows() ==> column.Validity()[k] {
      forall row | row in rows ensures (c.name, Null) !in row {
        var k :| 0 <= k < |rows| && rows[k] == row;
        GroupCell(data, g, columns, c, k, Null);
        assert column.Validity()[k];
      }
    }
    if forall row :: row in rows ==> (c.name, Null) !in row {
      forall k | 0 <= k < column.Rows() ensures column.Validity()[k] {
        assert rows[k] in rows;
        GroupCell(data, g, columns, c, k, Null);
      }
    }
  }

  /** The numbers a group shows are the ones its column has. */
  lemma {:induction false} NumbersOfGroup(data: seq<byte>, g: GroupEntry, columns: seq<ColumnSchema>, c: ColumnSchema,
                                          n: nat)
    requires SchemaOk(columns) && Decodable(data, g, columns) && c in columns
    requires DecodeOf(data, g, c).value.Numbers?
    ensures n in Present(DecodeOf(data, g, c).value.numbers) <==>
            exists row :: row in GroupRows(data, g, columns, g.rowCount) && (c.name, Number(n)) in row
  {
    hide DecodeOf, SchemaOk, Present, FullRow;
    var cells := DecodeOf(data, g, c).value.numbers;
    var rows := GroupRows(data, g, columns, g.rowCount);
    PresentIff(cells, n);
    if Some(n) in cells {
      var k :| 0 <= k < |cells| && cells[k] == Some(n);
      GroupCell(data, g, columns, c, k, Number(n));
      assert rows[k] in rows;
    }
    if row :| row in rows && (c.name, Number(n)) in row {
      var k :| 0 <= k < |rows| && rows[k] == row;
      GroupCell(data, g, columns, c, k, Number(n));
      assert cells[k] == Some(n);
    }
  }

  /** The bounds of a group's numbers are the smallest and the largest of its column. */
  lemma {:induction false} BoundsIff(data: seq<byte>, g: GroupEntry, columns: seq<ColumnSchema>, c: ColumnSchema,
                                     lo: nat, hi: nat)
    requires SchemaOk(columns) && Decodable(data, g, columns) && c in columns
    requires DecodeOf(data, g, c).value.Numbers?
    ensures var values := Present(DecodeOf(data, g, c).value.numbers);
            Bounds(GroupRows(data, g, columns, g.rowCount), c.name, lo, hi) <==>
            values != [] && lo == Min(values) && hi == Numbers.Max(values)
  {
    hide DecodeOf, SchemaOk, Present, GroupRows, Min, Numbers.Max;
    var values := Present(DecodeOf(data, g, c).value.numbers);
    var rows := GroupRows(data, g, columns, g.rowCount);
    NumbersOfGroup(data, g, columns, c, lo);
    NumbersOfGroup(data, g, columns, c, hi);
    if values != [] {
      MinIsMember(values);
      Numbers.MaxIsMember(values);
      NumbersOfGroup(data, g, columns, c, Min(values));
      NumbersOfGroup(data, g, columns, c, Numbers.Max(values));
      BoundedBy(values, lo);
      BoundedBy(values, hi);
      if lo == Min(values) && hi == Numbers.Max(values) {
        forall row, n: nat | row in rows && (c.name, Number(n)) in row ensures lo <= n <= hi {
          NumbersOfGroup(data, g, columns, c, n);
          BoundedBy(values, n);
        }
      }
    }
  }

  lemma {:induction false} BoundedBy(values: seq<nat>, n: nat)
    ensures n in values ==> Min(values) <= n <= Numbers.Max(values)
  {
    if n in values {
      var i :| 0 <= i < |values| && values[i] == n;
      MinIsBound(values, i);
      Numbers.MaxIsBound(values, i);
    }
  }

  /** The comparison of a predicate with a range is decided at the ends of the range. */
  lemma {:induction false} NoneBetweenIff(op: Op, lo: nat, hi: nat)
    requires lo <= hi
    ensures NoneBetween(op, lo, hi) <==>
            !match op
             case Eq(n) => lo <= n <= hi
             case Lt(n) => lo < n
             case LtEq(n) => lo <= n
             case Gt(n) => hi > n
             case GtEq(n) => hi >= n
  {
    var v := if op.Eq? then op.n else if op.Lt? || op.LtEq? then lo else hi;
    if lo <= v <= hi && Holds(op, v) {
      assert !NoneBetween(op, lo, hi);
    }
  }

  /** A group is pruned exactly when its own rows exclude a match by their nulls or by their range. */
  lemma {:induction false} PrunedIff(data: seq<byte>, g: GroupEntry, columns: seq<ColumnSchema>, p: Option<Predicate>)
    requires SchemaOk(columns) && Decodable(data, g, columns) && PredicateOk(columns, p)
    ensures MayMatch(g, p) == Some(!Excluded(GroupRows(data, g, columns, g.rowCount), p))
  {
    hide DecodeOf, Implemented, FindEntry, DecodeStatistics, CountTrue, GroupRows, Min, Numbers.Max, Present, Bounds;
    hide NoneBetween;
    if p.Some? {
      var q := p.value;
      var c := FindColumn(columns, q.column).value;
      var rows := GroupRows(data, g, columns, g.rowCount);
      EntryIsTrue(data, g, c);
      if q.IsNull? {
        NullsOfGroup(data, g, columns, c);
      } else {
        var values := Present(DecodeOf(data, g, c).value.numbers);
        if values == [] {
          forall lo: nat, hi: nat ensures !Bounds(rows, c.name, lo, hi) {
            BoundsIff(data, g, columns, c, lo, hi);
          }
        } else {
          var (lo, hi) := (Min(values), Numbers.Max(values));
          MinIsMember(values);
          BoundedBy(values, lo);
          NoneBetweenIff(q.op, lo, hi);
          BoundsIff(data, g, columns, c, lo, hi);
          forall lo': nat, hi': nat ensures Bounds(rows, c.name, lo', hi') ==> lo' == lo && hi' == hi {
            BoundsIff(data, g, columns, c, lo', hi');
          }
        }
      }
    }
  }

  /** The rows of group `g` among rows of which the first has number `row`. */
  ghost predicate Inside(rows: seq<Rendered>, g: GroupEntry, row: nat) {
    row <= g.firstRow && g.firstRow - row + g.rowCount <= |rows|
  }

  function RowsOfGroup(rows: seq<Rendered>, g: GroupEntry, row: nat): seq<Rendered>
    requires Inside(rows, g, row)
  {
    rows[g.firstRow - row..g.firstRow - row + g.rowCount]
  }

  /** Which groups are pruned: the ones whose rows exclude a match. */
  ghost predicate PrunedGroups(pruned: seq<bool>, rows: seq<Rendered>, gs: seq<GroupEntry>, row: nat,
                               p: Option<Predicate>) {
    && |pruned| == |gs|
    && forall k :: 0 <= k < |gs| ==> Inside(rows, gs[k], row) && pruned[k] == Excluded(RowsOfGroup(rows, gs[k], row), p)
  }

  lemma {:induction false} BehindFirst(first: seq<Rendered>, rows: seq<Rendered>, g: GroupEntry, row: nat)
    requires Inside(rows, g, row + |first|)
    ensures Inside(first + rows, g, row) && RowsOfGroup(first + rows, g, row) == RowsOfGroup(rows, g, row + |first|)
  {
  }

  lemma {:induction false} PrunedCons(pruned: seq<bool>, first: seq<Rendered>, rows: seq<Rendered>, gs: seq<GroupEntry>,
                                      row: nat, p: Option<Predicate>)
    requires gs != [] && gs[0].firstRow == row && gs[0].rowCount == |first|
    requires PrunedGroups(pruned, rows, gs[1..], row + |first|, p)
    ensures PrunedGroups([Excluded(first, p)] + pruned, first + rows, gs, row, p)
  {
    hide Excluded;
    var all := [Excluded(first, p)] + pruned;
    forall k | 0 <= k < |gs|
      ensures Inside(first + rows, gs[k], row) && all[k] == Excluded(RowsOfGroup(first + rows, gs[k], row), p)
    {
      if k == 0 {
        assert RowsOfGroup(first + rows, gs[0], row) == first;
      } else {
        assert gs[1..][k - 1] == gs[k] && all[k] == pruned[k - 1];
        BehindFirst(first, rows, gs[k], row);
      }
    }
  }

  lemma {:induction false} PrunedFrom(crc: Checksum, data: seq<byte>, gs: seq<GroupEntry>, columns: seq<ColumnSchema>,
                                      selected: seq<ColumnSchema>, p: Option<Predicate>, n: nat, row: nat, limit: nat)
    returns (pruned: seq<bool>)
    requires SchemaOk(columns) && PredicateOk(columns, p) && EntriesValid(gs, n, row, limit)
    requires ScanGroups(crc, data, gs, columns, columns, None).Some?
    requires ScanGroups(crc, data, gs, columns, selected, p).Some?
    ensures PrunedGroups(pruned, ScanGroups(crc, data, gs, columns, columns, None).value.rows, gs, row, p)
    ensures CountTrue(pruned) == ScanGroups(crc, data, gs, columns, selected, p).value.pruned
    decreases |gs|
  {
    hide SchemaOk, PredicateOk, ScanGroup, GroupRows, Decodable, MayMatch, EntryValid, PrunedGroups, Excluded;
    if gs == [] {
      pruned := [];
      NonePruned(p, row);
    } else {
      var g := gs[0];
      NoPredicate(g);
      GroupOfFullScan(crc, data, g, columns);
      PrunedIff(data, g, columns, p);
      pruned := PrunedFrom(crc, data, gs[1..], columns, selected, p, n + 1, row + g.rowCount, limit);
      var first := GroupRows(data, g, columns, g.rowCount);
      PrunedCons(pruned, first, ScanGroups(crc, data, gs[1..], columns, columns, None).value.rows, gs, row, p);
      pruned := [Excluded(first, p)] + pruned;
    }
  }

  lemma {:induction false} NonePruned(p: Option<Predicate>, row: nat)
    ensures PrunedGroups([], [], [], row, p)
  {
  }

  /** A scan prunes exactly the groups whose rows, as a full scan shows them, exclude a match. */
  lemma {:induction false} PrunesExactly(crc: Checksum, data: seq<byte>, columns: seq<ColumnSchema>,
                                         projection: seq<Text>, p: Option<Predicate>)
    returns (pruned: seq<bool>)
    requires Scan(crc, data, columns, [], None).Some? && Scan(crc, data, columns, projection, p).Some?
    ensures DecodeFooter(crc, data).Some?
    ensures PrunedGroups(pruned, Scan(crc, data, columns, [], None).value.rows, DecodeFooter(crc, data).value.groups, 0, p)
    ensures CountTrue(pruned) == Scan(crc, data, columns, projection, p).value.pruned
  {
    hide ScanGroups, HeaderOk, PredicateOk, SelectNames, SchemaOk, PrunedGroups, EntriesValid;
    var gs := DecodeFooter(crc, data).value.groups;
    IndexOfFooter(crc, data);
    pruned := PrunedFrom(crc, data, gs, columns, SelectProjection(columns, projection).value, p, 0, 0, FooterOffset(data));
  }

  lemma {:induction false} ScannedVerified(crc: Checksum, data: seq<byte>, gs: seq<GroupEntry>,
                                           columns: seq<ColumnSchema>, selected: seq<ColumnSchema>,
                                           p: Option<Predicate>, k: nat)
    requires ScanGroups(crc, data, gs, columns, selected, p).Some? && k < |gs|
    ensures MayMatch(gs[k], p) == Some(false) || VerifyGroup(crc, data, gs[k])
    decreases k
  {
    hide VerifyGroup, DecodeNames, RenderRows, MayMatch;
    if k > 0 {
      ScannedVerified(crc, data, gs[1..], columns, selected, p, k - 1);
    }
  }

  lemma {:induction false} TypedAt(gs: seq<GroupEntry>, behind: nat, k: nat)
    requires EntriesTyped(gs, behind) && k < |gs|
    ensures EntryTyped(gs[k]) && |gs[k].columns| < U32_LIMIT
    decreases k
  {
    hide EntryTyped, EntriesTyped;
    ColumnsFit(gs, behind);
    if k > 0 {
      TypedAt(gs[1..], behind, k - 1);
    }
  }

  /** A scan shows no row of a group whose bytes do not have their own checksum: such a group is pruned, or the scan fails. */
  lemma {:induction false} ScansOnlySealed(crc: Checksum, data: seq<byte>, columns: seq<ColumnSchema>,
                                           projection: seq<Text>, p: Option<Predicate>, k: nat)
    requires |data| < U64_LIMIT && Scan(crc, data, columns, projection, p).Some?
    requires k < |DecodeFooter(crc, data).value.groups|
    ensures var g := DecodeFooter(crc, data).value.groups[k];
            || MayMatch(g, p) == Some(false)
            || (g.offset + g.len <= |data| && SealedGroup(crc, g, data[g.offset..g.offset + g.len]))
  {
    hide ScanGroups, HeaderOk, PredicateOk, SelectNames, SchemaOk, MayMatch, VerifyGroup, SealedGroup, EntriesTyped;
    hide DecodeFooter, EntryTyped, AppendFooter, FooterOffset;
    var f := DecodeFooter(crc, data).value;
    DecodeFooterIff(crc, data, f);
    TypedAt(f.groups, 0, k);
    ScannedVerified(crc, data, f.groups, columns, SelectProjection(columns, projection).value, p, k);
    VerifyGroupIff(crc, data, f.groups[k]);
  }
}
