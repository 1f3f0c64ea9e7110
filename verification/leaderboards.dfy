/**
 * The top-10 tables and the page that holds every table: writeStatsPage
 * without its HTML. A leaderboard ranks a list of activities by one
 * measure, all time and then per year; the page holds the three aggregate
 * tables and a leaderboard per measure for each type group and each type.
 */
module Leaderboards {
  import opened Results
  import opened Decimals
  import opened Sequences
  import opened Activities
  import opened Groupings
  import opened Ranking
  import opened AggregateTables

  /** What a leaderboard ranks by: the getField lambdas of the top-10 tables. */
  datatype Measure = DistanceMeasure | ElevationGainMeasure | ClimbMeasure

  /** The measures in the order the page lists their leaderboards. */
  const Measures: seq<Measure> := [DistanceMeasure, ElevationGainMeasure, ClimbMeasure]

  /** A distance that is zero, but not at scale 0 (such as 0.0): the climb divides by it. */
  predicate ClimbFails(a: Activity) {
    a.distance != Zero && a.distance.unscaled == 0
  }

  /** Reading a measure off an activity; only the climb can fail. */
  function Measured(m: Measure, a: Activity): (r: Result<Decimal>)
    ensures r.Err? <==> m == ClimbMeasure && ClimbFails(a)
    ensures r.Err? ==> r.error == Arithmetic
  {
    match m
    case DistanceMeasure => Ok(a.distance)
    case ElevationGainMeasure => Ok(a.elevationGain)
    case ClimbMeasure => a.AvgClimb()
  }

  /**
   * The number sortedByDescending orders by (BigDecimal.compareTo compares
   * the numbers); it is consulted only once every measure has been read.
   */
  function SortKey(m: Measure): Activity -> real {
    (a: Activity) => if Measured(m, a).Ok? then Value(Measured(m, a).value) else 0.0
  }

  /**
   * Reading the measure of every activity of a list, as sorting and
   * rendering the list do; the first failure aborts.
   */
  function MeasureAll(act: seq<Activity>, m: Measure): (r: Result<seq<Decimal>>)
    ensures r.Err? <==> exists a :: a in act && Measured(m, a).Err?
    ensures r.Err? ==> r.error == Arithmetic
    ensures r.Ok? ==> |r.value| == |act| && forall i :: 0 <= i < |act| ==> Measured(m, act[i]) == Ok(r.value[i])
  {
    if act == [] then Ok([])
    else
      assert forall a :: a in act <==> a == act[0] || a in act[1..];
      match Measured(m, act[0])
      case Err(e) => Err(e)
      case Ok(d) =>
        match MeasureAll(act[1..], m)
        case Err(e) => Err(e)
        case Ok(ds) => Ok([d] + ds)
  }

  /** One year's top-10 table under the all-time one. */
  datatype YearBoard = YearBoard(year: int, top: seq<Activity>)

  /** The all-time top 10 of a list, then the top 10 of each of its years. */
  datatype Leaderboard = Leaderboard(allTime: seq<Activity>, byYear: seq<YearBoard>)

  const TopCount: nat := 10

  /**
   * `act.groupBy { it.year }.toSortedMap().filter { (_, a) -> a.isNotEmpty() }`,
   * each year's list ranked: ascending years, empty buckets skipped.
   */
  function YearBoards(byYear: map<int, seq<Activity>>, ys: seq<int>, key: Activity -> real): (r: seq<YearBoard>)
    ensures |r| <= |ys|
    ensures forall i :: 0 <= i < |r| ==> Lookup(byYear, r[i].year) != []
    ensures forall i :: 0 <= i < |r| ==> r[i].top == Top(Lookup(byYear, r[i].year), key, TopCount)
  {
    if ys == [] then []
    else
      var a := Lookup(byYear, ys[0]);
      var rest := YearBoards(byYear, ys[1..], key);
      if a != [] then
        var r := [YearBoard(ys[0], Top(a, key, TopCount))] + rest;
        assert forall i :: 0 < i < |r| ==> r[i] == rest[i - 1];
        r
      else rest
  }

  /**
   * top10Table(title, act, getField): ArithmeticException when reading the
   * measure of any listed activity fails (sorting reads every key of a
   * list of two or more; a single activity's measure is read when its row
   * is rendered); otherwise the ranked lists.
   */
  function Rank(act: seq<Activity>, m: Measure): (r: Result<Leaderboard>)
    ensures r.Err? <==> exists a :: a in act && Measured(m, a).Err?
    ensures r.Err? ==> r.error == Arithmetic
  {
    match MeasureAll(act, m)
    case Err(e) => Err(e)
    case Ok(_) =>
      Ok(Leaderboard(Top(act, SortKey(m), TopCount), YearBoards(GroupBy(act, YearOf), SortedKeys(act, YearOf), SortKey(m))))
  }

  /** Who a leaderboard is about: a type group or a single type. */
  datatype Subject = GroupSubject(group: ActivityTypeGroup) | TypeSubject(activityType: ActivityType)

  /** The subjects in page order: the groups, then the types. */
  const Subjects: seq<Subject> :=
    [GroupSubject(Cycling), GroupSubject(Walking),
     TypeSubject(Run), TypeSubject(Ride), TypeSubject(VirtualRide), TypeSubject(Hike),
     TypeSubject(Walk), TypeSubject(Kayaking), TypeSubject(Rowing)]

  /**
   * The list the top10Table overloads rank: a type's bucket (all activities
   * of that type), or a group's member types' buckets one after another.
   */
  function SubjectActivities(stats: StatsGen, s: Subject): (r: seq<Activity>)
    ensures s.GroupSubject? ==> r == Filter(stats.activities, TypeOf, Members(s.group)[0]) + Filter(stats.activities, TypeOf, Members(s.group)[1])
    ensures s.TypeSubject? ==> r == Filter(stats.activities, TypeOf, s.activityType)
  {
    match s
    case GroupSubject(g) => stats.GroupActivities(g)
    case TypeSubject(t) =>
      stats.TypeBucketIsFilter(t);
      stats.TypeBucket(t)
  }

  /** The lists ranked on the page for each measure, one per subject in page order. */
  function SubjectLists(stats: StatsGen): (ls: seq<seq<Activity>>)
    ensures |ls| == |Subjects|
    ensures forall i :: 0 <= i < |Subjects| ==> ls[i] == SubjectActivities(stats, Subjects[i])
  {
    seq(|Subjects|, i requires 0 <= i < |Subjects| => SubjectActivities(stats, Subjects[i]))
  }

  /**
   * The leaderboards of one measure for the given lists, in order: each
   * list's own leaderboard; the first failure aborts.
   */
  function RankAll(lists: seq<seq<Activity>>, m: Measure): (r: Result<seq<Leaderboard>>)
    ensures r.Ok? ==> |r.value| == |lists|
    ensures r.Ok? ==> forall i :: 0 <= i < |lists| ==> Rank(lists[i], m) == Ok(r.value[i])
    ensures r.Err? ==> r.error == Arithmetic
  {
    if lists == [] then Ok([])
    else
      var head, tail := Rank(lists[0], m), RankAll(lists[1..], m);
      if head.Err? then Err(head.error)
      else if tail.Err? then Err(tail.error)
      else
        ConsRelated(lists, head.value, tail.value, (l, b) => Rank(l, m) == Ok(b));
        Ok([head.value] + tail.value)
  }

  /**
   * Every leaderboard of the page, measure by measure: for each measure
   * in turn, the leaderboards of all the lists under that measure.
   */
  function AllBoards(lists: seq<seq<Activity>>, ms: seq<Measure>): (r: Result<seq<seq<Leaderboard>>>)
    ensures r.Ok? ==> |r.value| == |ms|
    ensures r.Ok? ==> forall j :: 0 <= j < |ms| ==> RankAll(lists, ms[j]) == Ok(r.value[j])
    ensures r.Err? ==> r.error == Arithmetic
  {
    if ms == [] then Ok([])
    else
      var head, tail := RankAll(lists, ms[0]), AllBoards(lists, ms[1..]);
      if head.Err? then Err(head.error)
      else if tail.Err? then Err(tail.error)
      else
        ConsRelated(ms, head.value, tail.value, (m, bs) => RankAll(lists, m) == Ok(bs));
        Ok([head.value] + tail.value)
  }

  /** Each board of a successful AllBoards is the leaderboard of its list under its measure. */
  lemma AllBoardsRank(lists: seq<seq<Activity>>, ms: seq<Measure>)
    requires AllBoards(lists, ms).Ok?
    ensures var boards := AllBoards(lists, ms).value;
      forall j, i :: 0 <= j < |ms| && 0 <= i < |lists| ==> |boards[j]| == |lists| && Rank(lists[i], ms[j]) == Ok(boards[j][i])
  {
    var boards := AllBoards(lists, ms).value;
    forall j, i | 0 <= j < |ms| && 0 <= i < |lists|
      ensures |boards[j]| == |lists| && Rank(lists[i], ms[j]) == Ok(boards[j][i])
    {
      assert RankAll(lists, ms[j]) == Ok(boards[j]);
    }
  }

  /** The getField lambdas of the three aggregate tables. */
  function DistanceOf(a: Activity): Decimal { a.distance }
  function ElevationGainOf(a: Activity): Decimal { a.elevationGain }
  function DurationMinOf(a: Activity): Decimal { a.DurationMin() }

  /**
   * The figures of the page, in page order: the three tables, then the
   * leaderboards, grouped by measure (distance, elevation gain, climb) and
   * within a measure by subject (the groups, then the types).
   */
  datatype Page = Page(
    distance: seq<seq<Decimal>>,
    elevationGain: seq<seq<Decimal>>,
    duration: seq<seq<Decimal>>,
    leaderboards: seq<seq<Leaderboard>>)

  /**
   * writeStatsPage without the HTML: the distance, elevation gain and
   * duration tables, then the leaderboards. The tables cannot fail; the
   * climb leaderboards can.
   */
  function StatsPage(stats: StatsGen): (r: Result<Page>)
    ensures r.Ok? ==> r.value.distance == Table(stats, DistanceOf)
    ensures r.Ok? ==> r.value.elevationGain == Table(stats, ElevationGainOf)
    ensures r.Ok? ==> r.value.duration == Table(stats, DurationMinOf)
    ensures r.Ok? ==> |r.value.leaderboards| == |Measures|
    ensures r.Ok? ==> forall j :: 0 <= j < |Measures| ==> |r.value.leaderboards[j]| == |Subjects|
    ensures r.Ok? ==> forall j, i :: 0 <= j < |Measures| && 0 <= i < |Subjects| ==>
      Rank(SubjectActivities(stats, Subjects[i]), Measures[j]) == Ok(r.value.leaderboards[j][i])
    ensures r.Err? ==> r.error == Arithmetic
  {
    var distance := Table(stats, DistanceOf);
    var elevationGain := Table(stats, ElevationGainOf);
    var duration := Table(stats, DurationMinOf);
    var lists := SubjectLists(stats);
    match AllBoards(lists, Measures)
    case Err(e) => Err(e)
    case Ok(boards) =>
      AllBoardsRank(lists, Measures);
      Ok(Page(distance, elevationGain, duration, boards))
  }

  // ---------------------------------------------------------------------
  // Properties

  /** A leaderboard of a list fails exactly when the list holds an activity whose measure fails. */
  lemma RankFails(act: seq<Activity>, m: Measure)
    ensures Rank(act, m).Err? <==> m == ClimbMeasure && exists a :: a in act && ClimbFails(a)
  {
  }

  /** A subject's list holds only loaded activities. */
  lemma SubjectActivitiesAreActivities(stats: StatsGen, s: Subject)
    ensures forall a :: a in SubjectActivities(stats, s) ==> a in stats.activities
  {
    match s
    case GroupSubject(g) =>
    case TypeSubject(t) => stats.TypeBucketIsFilter(t);
  }

  /** Some activity of the list has a measure that cannot be read. */
  ghost predicate SomeFails(act: seq<Activity>, m: Measure) {
    exists a :: a in act && Measured(m, a).Err?
  }

  /** Some list holds an activity whose measure cannot be read. */
  ghost predicate SomeListFails(lists: seq<seq<Activity>>, m: Measure) {
    exists i :: 0 <= i < |lists| && SomeFails(lists[i], m)
  }

  lemma {:induction false} RankAllFails(lists: seq<seq<Activity>>, m: Measure)
    ensures RankAll(lists, m).Err? <==> SomeListFails(lists, m)
  {
    if lists != [] {
      RankAllFails(lists[1..], m);
      if RankAll(lists, m).Err? && Rank(lists[0], m).Ok? {
        var i :| 0 <= i < |lists[1..]| && SomeFails(lists[1..][i], m);
        assert lists[1..][i] == lists[i + 1];
      }
      if SomeListFails(lists, m) && Rank(lists[0], m).Ok? {
        var i :| 0 <= i < |lists| && SomeFails(lists[i], m);
        assert lists[1..][i - 1] == lists[i];
      }
    }
  }

  lemma {:induction false} AllBoardsFail(lists: seq<seq<Activity>>, ms: seq<Measure>)
    ensures AllBoards(lists, ms).Err? <==> exists j :: 0 <= j < |ms| && SomeListFails(lists, ms[j])
  {
    if ms != [] {
      AllBoardsFail(lists, ms[1..]);
      RankAllFails(lists, ms[0]);
      if AllBoards(lists, ms).Err? && RankAll(lists, ms[0]).Ok? {
        var j :| 0 <= j < |ms[1..]| && SomeListFails(lists, ms[1..][j]);
        assert ms[1..][j] == ms[j + 1];
      }
      if (exists j :: 0 <= j < |ms| && SomeListFails(lists, ms[j])) && RankAll(lists, ms[0]).Ok? {
        var j :| 0 <= j < |ms| && SomeListFails(lists, ms[j]);
        assert ms[1..][j - 1] == ms[j];
      }
    }
  }

  /** Every activity is in the list of its own type. */
  lemma InOwnTypeSubject(stats: StatsGen, a: Activity)
    requires a in stats.activities
    ensures a in SubjectActivities(stats, TypeSubject(a.activityType))
  {
    stats.TypeBucketIsFilter(a.activityType);
  }

  /** The position of a type among the type subjects. */
  function ActivityTypeIndex(t: ActivityType): (i: nat)
    ensures i < 7 && Subjects[2 + i] == TypeSubject(t)
  {
    match t
    case Run => 0
    case Ride => 1
    case VirtualRide => 2
    case Hike => 3
    case Walk => 4
    case Kayaking => 5
    case Rowing => 6
  }

  /** Some activity fails exactly when some subject's list holds a failing activity. */
  lemma SomeSubjectFails(stats: StatsGen, m: Measure)
    ensures SomeFails(stats.activities, m) <==> SomeListFails(SubjectLists(stats), m)
  {
    var lists := SubjectLists(stats);
    if SomeListFails(lists, m) {
      var i :| 0 <= i < |lists| && SomeFails(lists[i], m);
      var a :| a in lists[i] && Measured(m, a).Err?;
      SubjectActivitiesAreActivities(stats, Subjects[i]);
    }
    if SomeFails(stats.activities, m) {
      var a :| a in stats.activities && Measured(m, a).Err?;
      var i := 2 + ActivityTypeIndex(a.activityType);
      InOwnTypeSubject(stats, a);
      assert SomeFails(lists[i], m);
    }
  }

  /** Some measure has a list holding an activity whose measure fails. */
  ghost predicate SomeBoardFails(lists: seq<seq<Activity>>) {
    exists j :: 0 <= j < |Measures| && SomeListFails(lists, Measures[j])
  }

  /** Only the climb can fail, so some leaderboard fails exactly when some activity's climb does. */
  lemma SomeBoardFailsIffClimbFails(stats: StatsGen)
    ensures SomeBoardFails(SubjectLists(stats)) <==> exists a :: a in stats.activities && ClimbFails(a)
  {
    var lists := SubjectLists(stats);
    SomeSubjectFails(stats, ClimbMeasure);
    if exists a :: a in stats.activities && ClimbFails(a) {
      var a :| a in stats.activities && ClimbFails(a);
      assert SomeFails(stats.activities, ClimbMeasure);
      assert Measures[2] == ClimbMeasure;
    }
    if SomeBoardFails(lists) {
      var j :| 0 <= j < |Measures| && SomeListFails(lists, Measures[j]);
      var i :| 0 <= i < |lists| && SomeFails(lists[i], Measures[j]);
      var a :| a in lists[i] && Measured(Measures[j], a).Err?;
      SubjectActivitiesAreActivities(stats, Subjects[i]);
      assert a in stats.activities && ClimbFails(a);
    }
  }

  /**
   * The page fails, with an ArithmeticException, exactly when some activity
   * has a distance that is zero at a nonzero scale.
   */
  lemma StatsPageFails(stats: StatsGen)
    ensures StatsPage(stats).Err? <==> exists a :: a in stats.activities && ClimbFails(a)
    ensures StatsPage(stats).Err? ==> StatsPage(stats).error == Arithmetic
  {
    var lists := SubjectLists(stats);
    AllBoardsFail(lists, Measures);
    assert AllBoards(lists, Measures).Err? <==> SomeBoardFails(lists);
    SomeBoardFailsIffClimbFails(stats);
  }

  /** When every listed year has a non-empty bucket, there is one board per listed year, in the order given. */
  lemma {:induction false} YearBoardsKeepYears(byYear: map<int, seq<Activity>>, ys: seq<int>, key: Activity -> real)
    requires forall i :: 0 <= i < |ys| ==> Lookup(byYear, ys[i]) != []
    ensures BoardYears(YearBoards(byYear, ys, key)) == ys
  {
    if ys != [] {
      var tail := ys[1..];
      assert forall i :: 0 <= i < |tail| ==> tail[i] == ys[i + 1];
      YearBoardsKeepYears(byYear, tail, key);
      var rest, r := YearBoards(byYear, tail, key), YearBoards(byYear, ys, key);
      assert |r| == |ys| && r[0].year == ys[0];
      assert forall i :: 0 < i < |r| ==> r[i].year == rest[i - 1].year;
    }
  }

  /**
   * When every listed year has a non-empty bucket, the i-th board ranks the
   * bucket of the i-th listed year.
   */
  lemma YearBoardsPerYear(byYear: map<int, seq<Activity>>, ys: seq<int>, key: Activity -> real)
    requires forall i :: 0 <= i < |ys| ==> ys[i] in byYear && byYear[ys[i]] != []
    ensures |YearBoards(byYear, ys, key)| == |ys|
    ensures forall i :: 0 <= i < |ys| ==> YearBoards(byYear, ys, key)[i].year == ys[i]
    ensures forall i :: 0 <= i < |ys| ==> YearBoards(byYear, ys, key)[i].top == Top(byYear[ys[i]], key, TopCount)
  {
    YearBoardsKeepYears(byYear, ys, key);
  }

  /** The years of a sequence of per-year boards, in order. */
  function BoardYears(boards: seq<YearBoard>): (ys: seq<int>)
    ensures |ys| == |boards|
    ensures forall i :: 0 <= i < |boards| ==> ys[i] == boards[i].year
  {
    seq(|boards|, i requires 0 <= i < |boards| => boards[i].year)
  }

  /**
   * The per-year boards of a list: one for each year its activities fall
   * in, years ascending (the sorted years of the list), each the top 10 of
   * that year's activities.
   */
  lemma ListYearBoards(act: seq<Activity>, m: Measure)
    ensures var boards := YearBoards(GroupBy(act, YearOf), SortedKeys(act, YearOf), SortKey(m));
      && BoardYears(boards) == SortedKeys(act, YearOf)
      && (forall i :: 0 <= i < |boards| ==> boards[i].top == Top(Filter(act, YearOf, boards[i].year), SortKey(m), TopCount))
  {
    var ys, byYear, key := SortedKeys(act, YearOf), GroupBy(act, YearOf), SortKey(m);
    assert forall i :: 0 <= i < |ys| ==> ys[i] in ys;
    YearBoardsPerYear(byYear, ys, key);
    var boards := YearBoards(byYear, ys, key);
    assert BoardYears(boards) == ys;
    assert forall i :: 0 <= i < |boards| ==> boards[i].top == Top(Filter(act, YearOf, boards[i].year), key, TopCount);
  }

  /**
   * A leaderboard that succeeds holds the top 10 of the whole list, then
   * one board per year its activities fall in, years strictly ascending,
   * each the top 10 of that year's activities.
   */
  lemma RankContents(act: seq<Activity>, m: Measure)
    requires Rank(act, m).Ok?
    ensures Rank(act, m).value.allTime == Top(act, SortKey(m), TopCount)
    ensures var boards := Rank(act, m).value.byYear;
      && StrictlyAscending(BoardYears(boards))
      && (forall y :: y in BoardYears(boards) <==> exists a :: a in act && YearOf(a) == y)
      && (forall i :: 0 <= i < |boards| ==> boards[i].top == Top(Filter(act, YearOf, boards[i].year), SortKey(m), TopCount))
  {
    ListYearBoards(act, m);
  }

  /**
   * In a type group's leaderboard, activities of equal measure appear with
   * all those of the first member type (Ride, Hike) before those of the
   * second (VirtualRide, Walk), each in input order.
   */
  lemma GroupTiesKeepMemberOrder(stats: StatsGen, g: ActivityTypeGroup, m: Measure, v: real)
    ensures var act, key := stats.activities, SortKey(m);
      Filter(Top(stats.GroupActivities(g), key, TopCount), key, v)
        <= Filter(Filter(act, TypeOf, Members(g)[0]), key, v) + Filter(Filter(act, TypeOf, Members(g)[1]), key, v)
  {
    var act, key := stats.activities, SortKey(m);
    TopPrefersEarlierTies(stats.GroupActivities(g), key, TopCount, v);
    FilterAppend(Filter(act, TypeOf, Members(g)[0]), Filter(act, TypeOf, Members(g)[1]), key, v);
  }
}
