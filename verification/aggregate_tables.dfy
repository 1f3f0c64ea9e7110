/**
 * typeAndYearTable: the cross table of one aggregated field, with a row per
 * year (ascending) and a Total row, and a column per type group, per type,
 * and for all activities. Every cell is a sumBy over a bucket.
 */
module AggregateTables {
  import opened Decimals
  import opened Sequences
  import opened Activities
  import opened Aggregation
  import opened Groupings

  datatype Row = YearRow(year: int) | TotalRow

  datatype Column = GroupColumn(group: ActivityTypeGroup) | TypeColumn(activityType: ActivityType) | AllColumn

  /** The type columns, in ActivityType declaration order. */
  const TypeColumns: seq<Column> :=
    [TypeColumn(Run), TypeColumn(Ride), TypeColumn(VirtualRide), TypeColumn(Hike),
     TypeColumn(Walk), TypeColumn(Kayaking), TypeColumn(Rowing)]

  /** The columns after the row header: groups, then types, then All. */
  const Columns: seq<Column> := [GroupColumn(Cycling), GroupColumn(Walking)] + TypeColumns + [AllColumn]

  /** The rows: one per year present, smallest first, then Total. */
  function Rows(stats: StatsGen): (rows: seq<Row>)
    ensures |rows| == |stats.Years()| + 1
    ensures rows[|rows| - 1] == TotalRow
    ensures forall i :: 0 <= i < |stats.Years()| ==> rows[i] == YearRow(stats.Years()[i])
  {
    YearRows(stats.Years()) + [TotalRow]
  }

  function YearRows(ys: seq<int>): (rows: seq<Row>)
    ensures |rows| == |ys|
    ensures forall i :: 0 <= i < |ys| ==> rows[i] == YearRow(ys[i])
  {
    if ys == [] then [] else [YearRow(ys[0])] + YearRows(ys[1..])
  }

  /**
   * The figure in one cell of the table of `getField`, as `typeAndYearTable`
   * sums it: over the bucket it looks up, which holds exactly the activities of
   * the cell's column in the cell's row.
   */
  function Cell(stats: StatsGen, getField: Activity -> Decimal, row: Row, col: Column): (r: Decimal)
    ensures r == Sum(CellActivities(stats, row, col), getField)
  {
    match (row, col)
    case (YearRow(y), GroupColumn(g)) =>
      GroupYearBucketsAreFilter(stats, g, y);
      Sum(Flatten(stats.TypeYearBuckets(Members(g), y)), getField)
    case (YearRow(y), TypeColumn(t)) =>
      stats.TypeYearBucketIsFilter(t, y);
      Sum(stats.TypeYearBucket(t, y), getField)
    case (YearRow(y), AllColumn) =>
      stats.YearBucketIsFilter(y);
      Sum(stats.YearBucket(y), getField)
    case (TotalRow, GroupColumn(g)) => Sum(stats.GroupActivities(g), getField)
    case (TotalRow, TypeColumn(t)) =>
      stats.TypeBucketIsFilter(t);
      Sum(stats.TypeBucket(t), getField)
    case (TotalRow, AllColumn) => Sum(stats.activities, getField)
  }

  /** A group's (type, year) buckets flattened are the year's part of the group's activities. */
  lemma GroupYearBucketsAreFilter(stats: StatsGen, g: ActivityTypeGroup, y: int)
    ensures Flatten(stats.TypeYearBuckets(Members(g), y)) == Filter(ColumnActivities(stats, GroupColumn(g)), YearOf, y)
  {
    var act, ts := stats.activities, Members(g);
    stats.TypeYearBucketIsFilter(ts[0], y);
    stats.TypeYearBucketIsFilter(ts[1], y);
    assert stats.TypeYearBuckets(ts, y) == [stats.TypeYearBucket(ts[0], y), stats.TypeYearBucket(ts[1], y)];
    FlattenPair(stats.TypeYearBucket(ts[0], y), stats.TypeYearBucket(ts[1], y));
    FilterAppend(Filter(act, TypeOf, ts[0]), Filter(act, TypeOf, ts[1]), YearOf, y);
  }

  /** The cells of one row, under the given columns. */
  function Cells(stats: StatsGen, getField: Activity -> Decimal, row: Row, cols: seq<Column>): (r: seq<Decimal>)
    ensures |r| == |cols|
    ensures forall i :: 0 <= i < |cols| ==> r[i] == Cell(stats, getField, row, cols[i])
  {
    if cols == [] then []
    else
      var c, rest := Cell(stats, getField, row, cols[0]), Cells(stats, getField, row, cols[1..]);
      ConsRelated(cols, c, rest, (col, d) => d == Cell(stats, getField, row, col));
      [c] + rest
  }

  /** The cells of one column, in the given year rows. */
  function ColumnCells(stats: StatsGen, getField: Activity -> Decimal, col: Column, ys: seq<int>): (r: seq<Decimal>)
    ensures |r| == |ys|
    ensures forall i :: 0 <= i < |ys| ==> r[i] == Cell(stats, getField, YearRow(ys[i]), col)
  {
    if ys == [] then []
    else
      var c, rest := Cell(stats, getField, YearRow(ys[0]), col), ColumnCells(stats, getField, col, ys[1..]);
      ConsRelated(ys, c, rest, (y, d) => d == Cell(stats, getField, YearRow(y), col));
      [c] + rest
  }

  /**
   * The body of typeAndYearTable: a row per year and the Total row, each
   * with a cell per column, every cell the figure of its row and column.
   */
  function Table(stats: StatsGen, getField: Activity -> Decimal): (t: seq<seq<Decimal>>)
    ensures |t| == |stats.Years()| + 1
    ensures forall i :: 0 <= i < |t| ==> |t[i]| == |Columns| == 10
    ensures forall i, j :: 0 <= i < |t| && 0 <= j < |Columns| ==> t[i][j] == Cell(stats, getField, Rows(stats)[i], Columns[j])
  {
    var rows := Rows(stats);
    seq(|rows|, i requires 0 <= i < |rows| => Cells(stats, getField, rows[i], Columns))
  }

  // ---------------------------------------------------------------------
  // What the cells mean

  /**
   * The activities a column covers, defined directly on the activity list:
   * one type's activities; a group's member types' activities one type
   * after the other; or all of them.
   */
  function ColumnActivities(stats: StatsGen, col: Column): seq<Activity> {
    var act := stats.activities;
    match col
    case GroupColumn(g) => Filter(act, TypeOf, Members(g)[0]) + Filter(act, TypeOf, Members(g)[1])
    case TypeColumn(t) => Filter(act, TypeOf, t)
    case AllColumn => act
  }

  /** The activities a row covers: one year's, or all of them. */
  function RowActivities(stats: StatsGen, row: Row): seq<Activity> {
    match row
    case YearRow(y) => Filter(stats.activities, YearOf, y)
    case TotalRow => stats.activities
  }

  /** The activities a cell covers: its column's activities, in its row's year if it has one. */
  function CellActivities(stats: StatsGen, row: Row, col: Column): seq<Activity> {
    match row
    case YearRow(y) => Filter(ColumnActivities(stats, col), YearOf, y)
    case TotalRow => ColumnActivities(stats, col)
  }

  /** A type cell sums the field over the activities of its row of that type. */
  lemma TypeCellMeaning(stats: StatsGen, getField: Activity -> Decimal, row: Row, t: ActivityType)
    ensures Cell(stats, getField, row, TypeColumn(t)) == Sum(Filter(RowActivities(stats, row), TypeOf, t), getField)
  {
    match row
    case YearRow(y) =>
      FilterCommutes(stats.activities, TypeOf, t, YearOf, y);
    case TotalRow =>
  }

  // ---------------------------------------------------------------------
  // How the cells add up

  /** A group cell is its member types' cells added, first member first. */
  lemma GroupCellIsSumOfMemberCells(stats: StatsGen, getField: Activity -> Decimal, row: Row, g: ActivityTypeGroup)
    ensures Cell(stats, getField, row, GroupColumn(g))
         == Add(Cell(stats, getField, row, TypeColumn(Members(g)[0])), Cell(stats, getField, row, TypeColumn(Members(g)[1])))
  {
    match row
    case YearRow(y) => GroupYearCellIsSumOfMemberCells(stats, getField, y, g);
    case TotalRow => GroupTotalCellIsSumOfMemberCells(stats, getField, g);
  }

  lemma GroupYearCellIsSumOfMemberCells(stats: StatsGen, getField: Activity -> Decimal, y: int, g: ActivityTypeGroup)
    ensures Cell(stats, getField, YearRow(y), GroupColumn(g))
         == Add(Cell(stats, getField, YearRow(y), TypeColumn(Members(g)[0])), Cell(stats, getField, YearRow(y), TypeColumn(Members(g)[1])))
  {
    var act, ts := stats.activities, Members(g);
    var a, b := Filter(act, TypeOf, ts[0]), Filter(act, TypeOf, ts[1]);
    assert ColumnActivities(stats, GroupColumn(g)) == a + b;
    var ya, yb := Filter(a, YearOf, y), Filter(b, YearOf, y);
    FilterAppend(a, b, YearOf, y);
    assert Cell(stats, getField, YearRow(y), GroupColumn(g)) == Sum(ya + yb, getField);
    assert Cell(stats, getField, YearRow(y), TypeColumn(ts[0])) == Sum(ya, getField);
    assert Cell(stats, getField, YearRow(y), TypeColumn(ts[1])) == Sum(yb, getField);
    SumAppend(ya, yb, getField);
  }

  lemma GroupTotalCellIsSumOfMemberCells(stats: StatsGen, getField: Activity -> Decimal, g: ActivityTypeGroup)
    ensures Cell(stats, getField, TotalRow, GroupColumn(g))
         == Add(Cell(stats, getField, TotalRow, TypeColumn(Members(g)[0])), Cell(stats, getField, TotalRow, TypeColumn(Members(g)[1])))
  {
    var act, ts := stats.activities, Members(g);
    var a, b := Filter(act, TypeOf, ts[0]), Filter(act, TypeOf, ts[1]);
    assert ColumnActivities(stats, GroupColumn(g)) == a + b;
    assert Cell(stats, getField, TotalRow, GroupColumn(g)) == Sum(a + b, getField);
    assert Cell(stats, getField, TotalRow, TypeColumn(ts[0])) == Sum(a, getField);
    assert Cell(stats, getField, TotalRow, TypeColumn(ts[1])) == Sum(b, getField);
    SumAppend(a, b, getField);
  }

  lemma TypeColumnsListEachType()
    ensures |TypeColumns| == |AllTypes|
    ensures forall i :: 0 <= i < |AllTypes| ==> TypeColumns[i] == TypeColumn(AllTypes[i])
  {
  }

  /** An All cell sums the field over every activity of its row. */
  lemma AllCellMeaning(stats: StatsGen, getField: Activity -> Decimal, row: Row)
    ensures Cell(stats, getField, row, AllColumn) == Sum(RowActivities(stats, row), getField)
  {
    assert ColumnActivities(stats, AllColumn) == stats.activities;
  }

  /** A row's type cells are its activities' per-type sums, in type order. */
  lemma TypeCellsArePerTypeSums(stats: StatsGen, getField: Activity -> Decimal, row: Row)
    ensures Cells(stats, getField, row, TypeColumns) == SumsByKey(RowActivities(stats, row), getField, TypeOf, AllTypes)
  {
    TypeColumnsListEachType();
    var cells, parts := Cells(stats, getField, row, TypeColumns), SumsByKey(RowActivities(stats, row), getField, TypeOf, AllTypes);
    forall i | 0 <= i < |AllTypes| ensures cells[i] == parts[i] {
      TypeCellMeaning(stats, getField, row, AllTypes[i]);
    }
  }

  /** The All cell of a row is that row's seven type cells added up. */
  lemma AllCellIsTotalOfTypeCells(stats: StatsGen, getField: Activity -> Decimal, row: Row)
    ensures Cell(stats, getField, row, AllColumn) == Total(Cells(stats, getField, row, TypeColumns))
  {
    AllTypesListsEachTypeOnce();
    SumPartition(RowActivities(stats, row), getField, TypeOf, AllTypes);
    TypeCellsArePerTypeSums(stats, getField, row);
    AllCellMeaning(stats, getField, row);
  }

  /** Every activity a column covers is one of the loaded activities. */
  lemma ColumnActivitiesAreActivities(stats: StatsGen, col: Column)
    ensures forall a :: a in ColumnActivities(stats, col) ==> a in stats.activities
  {
  }

  /** A column's cells in the given years are its activities' per-year sums. */
  lemma {:induction false} ColumnCellsArePerYearSums(stats: StatsGen, getField: Activity -> Decimal, col: Column, ys: seq<int>)
    ensures ColumnCells(stats, getField, col, ys) == SumsByKey(ColumnActivities(stats, col), getField, YearOf, ys)
  {
    if ys != [] {
      ColumnCellsArePerYearSums(stats, getField, col, ys[1..]);
    }
  }

  /** The Total cell of a column is that column's year cells added up. */
  lemma TotalCellIsTotalOfYearCells(stats: StatsGen, getField: Activity -> Decimal, col: Column)
    ensures Cell(stats, getField, TotalRow, col) == Total(ColumnCells(stats, getField, col, stats.Years()))
  {
    var xs, ys := ColumnActivities(stats, col), stats.Years();
    StrictlyAscendingIsDistinct(ys);
    ColumnActivitiesAreActivities(stats, col);
    SumPartition(xs, getField, YearOf, ys);
    ColumnCellsArePerYearSums(stats, getField, col, ys);
  }

  /** With no activities the table is the Total row alone, every cell ZERO. */
  lemma EmptyTable(getField: Activity -> Decimal)
    ensures Table(StatsGen([]), getField) == [seq(|Columns|, _ => Zero)]
  {
    var stats := StatsGen([]);
    assert stats.Years() == [];
    assert Rows(stats) == [TotalRow];
    var cells := Cells(stats, getField, TotalRow, Columns);
    forall i | 0 <= i < |Columns| ensures cells[i] == Zero {
      assert ColumnActivities(stats, Columns[i]) == [];
    }
    assert cells == seq(|Columns|, _ => Zero);
  }
}
