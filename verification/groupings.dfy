/**
 * The lazily computed groupings of ElevateStatsGen: the activities by year,
 * by type, and by type then year, and the sorted list of years. None of them
 * changes once computed, so each is a function of the loaded activities.
 */
module Groupings {
  import opened Sequences
  import opened Activities

  datatype StatsGen = StatsGen(activities: seq<Activity>)
  {
    /**
     * activitiesByYear: `activities.groupBy { it.year }`. A key for each
     * year that occurs, holding that year's activities in input order.
     */
    function ByYear(): (m: map<int, seq<Activity>>)
      ensures forall y :: y in m <==> exists a :: a in activities && a.Year() == y
      ensures forall y :: y in m ==> m[y] == Filter(activities, YearOf, y) && m[y] != []
    {
      GroupBy(activities, YearOf)
    }

    /**
     * activitiesByType: `activities.groupBy { it.type }`. A key for each
     * type that occurs, holding that type's activities in input order.
     */
    function ByType(): (m: map<ActivityType, seq<Activity>>)
      ensures forall t :: t in m <==> exists a :: a in activities && a.activityType == t
      ensures forall t :: t in m ==> m[t] == Filter(activities, TypeOf, t) && m[t] != []
    {
      GroupBy(activities, TypeOf)
    }

    /**
     * activitiesByTypeAndYear: each type's bucket grouped again by year. A
     * key for each type that occurs; under it, a key for each year that
     * type occurs in, holding those activities in input order.
     */
    function ByTypeAndYear(): (m: map<ActivityType, map<int, seq<Activity>>>)
      ensures forall t :: t in m <==> t in ByType()
      ensures forall t, y :: t in m && y in m[t] ==>
        m[t][y] == Filter(Filter(activities, TypeOf, t), YearOf, y) && m[t][y] != []
    {
      var byType := ByType();
      map t | t in byType :: GroupBy(byType[t], YearOf)
    }

    /**
     * years: the keys of activitiesByYear as a sorted set, read smallest
     * first; built from the activities' years, which are exactly those keys.
     */
    function Years(): (ys: seq<int>)
      ensures StrictlyAscending(ys)
      ensures forall y :: y in ys <==> y in ByYear()
      ensures forall y :: y in ys <==> exists a :: a in activities && a.Year() == y
    {
      SortedKeys(activities, YearOf)
    }

    /** `activitiesByYear[year] ?: emptyList()`. */
    function YearBucket(y: int): seq<Activity> {
      Lookup(ByYear(), y)
    }

    /** `activitiesByType[type] ?: emptyList()`. */
    function TypeBucket(t: ActivityType): seq<Activity> {
      Lookup(ByType(), t)
    }

    /** `activitiesByTypeAndYear[type]?.get(year) ?: emptyList()`. */
    function TypeYearBucket(t: ActivityType, y: int): seq<Activity> {
      var m := ByTypeAndYear();
      if t in m then Lookup(m[t], y) else []
    }

    /** `types.map { activitiesByType[it] ?: emptyList() }`. */
    function TypeBuckets(ts: seq<ActivityType>): (r: seq<seq<Activity>>)
      ensures |r| == |ts|
    {
      if ts == [] then [] else [TypeBucket(ts[0])] + TypeBuckets(ts[1..])
    }

    /** `types.map { activitiesByTypeAndYear[it]?.get(year) ?: emptyList() }`. */
    function TypeYearBuckets(ts: seq<ActivityType>, y: int): (r: seq<seq<Activity>>)
      ensures |r| == |ts|
    {
      if ts == [] then [] else [TypeYearBucket(ts[0], y)] + TypeYearBuckets(ts[1..], y)
    }

    /**
     * The activities of a type group, `typeGroup.types.map { activitiesByType[it]
     * ?: emptyList() }.flatten()`: all activities of its first member type,
     * then all of its second, each in input order.
     */
    function GroupActivities(g: ActivityTypeGroup): (r: seq<Activity>)
      ensures r == Filter(activities, TypeOf, Members(g)[0]) + Filter(activities, TypeOf, Members(g)[1])
    {
      var ts := Members(g);
      TypeBucketIsFilter(ts[0]);
      TypeBucketIsFilter(ts[1]);
      FlattenPair(TypeBucket(ts[0]), TypeBucket(ts[1]));
      assert TypeBuckets(ts) == [TypeBucket(ts[0]), TypeBucket(ts[1])];
      Flatten(TypeBuckets(ts))
    }

    /** A year's bucket holds exactly that year's activities, in their order. */
    lemma YearBucketIsFilter(y: int)
      ensures YearBucket(y) == Filter(activities, YearOf, y)
    {
      GroupByPartitions(activities, YearOf, y);
    }

    /** A type's bucket holds exactly that type's activities, in their order. */
    lemma TypeBucketIsFilter(t: ActivityType)
      ensures TypeBucket(t) == Filter(activities, TypeOf, t)
    {
      GroupByPartitions(activities, TypeOf, t);
    }

    /**
     * A (type, year) bucket holds exactly the activities of that type in
     * that year, in their order; a type that never occurs has none.
     */
    lemma TypeYearBucketIsFilter(t: ActivityType, y: int)
      ensures TypeYearBucket(t, y) == Filter(Filter(activities, TypeOf, t), YearOf, y)
    {
      TypeBucketIsFilter(t);
      if t in ByType() {
        GroupByPartitions(ByType()[t], YearOf, y);
      }
    }

    /**
     * Every bucket of the three groupings is non-empty, and every activity
     * is in exactly one bucket of each.
     */
    lemma BucketsPartition(a: Activity)
      ensures forall y :: y in ByYear() ==> ByYear()[y] != []
      ensures forall t :: t in ByType() ==> ByType()[t] != []
      ensures forall t, y :: t in ByTypeAndYear() && y in ByTypeAndYear()[t] ==> ByTypeAndYear()[t][y] != []
      ensures forall y :: a in YearBucket(y) <==> a in activities && a.Year() == y
      ensures forall t :: a in TypeBucket(t) <==> a in activities && a.activityType == t
      ensures forall t, y :: a in TypeYearBucket(t, y) <==> a in activities && a.activityType == t && a.Year() == y
    {
      forall y ensures a in YearBucket(y) <==> a in activities && a.Year() == y {
        YearBucketIsFilter(y);
      }
      forall t ensures a in TypeBucket(t) <==> a in activities && a.activityType == t {
        TypeBucketIsFilter(t);
      }
      forall t, y ensures a in TypeYearBucket(t, y) <==> a in activities && a.activityType == t && a.Year() == y {
        TypeYearBucketIsFilter(t, y);
      }
    }
  }

  lemma FlattenPair<T>(a: seq<T>, b: seq<T>)
    ensures Flatten([a, b]) == a + b
  {
    assert [a, b][1..] == [b];
    assert Flatten([b]) == b;
  }
}
