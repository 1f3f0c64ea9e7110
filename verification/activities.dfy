/**
 * The activity record, its derived fields, the activity types and type
 * groups, and the parsing of the duration column.
 */
module Activities {
  import opened Results
  import opened Decimals
  import opened Text
  import opened Sequences

  /** The closed set of activity types, in declaration order. */
  datatype ActivityType = Run | Ride | VirtualRide | Hike | Walk | Kayaking | Rowing

  /** ActivityType.values(): every constant once, in declaration order. */
  const AllTypes: seq<ActivityType> := [Run, Ride, VirtualRide, Hike, Walk, Kayaking, Rowing]

  lemma AllTypesListsEachTypeOnce()
    ensures Distinct(AllTypes)
    ensures forall t: ActivityType :: t in AllTypes
  {
    forall t: ActivityType ensures t in AllTypes {
      match t
      case Run => assert AllTypes[0] == t;
      case Ride => assert AllTypes[1] == t;
      case VirtualRide => assert AllTypes[2] == t;
      case Hike => assert AllTypes[3] == t;
      case Walk => assert AllTypes[4] == t;
      case Kayaking => assert AllTypes[5] == t;
      case Rowing => assert AllTypes[6] == t;
    }
  }

  /** The `name` of an enum constant. */
  function TypeName(t: ActivityType): string {
    match t
    case Run => "Run"
    case Ride => "Ride"
    case VirtualRide => "VirtualRide"
    case Hike => "Hike"
    case Walk => "Walk"
    case Kayaking => "Kayaking"
    case Rowing => "Rowing"
  }

  /**
   * ActivityType.valueOf: the constant whose name is exactly `s` (case
   * sensitive); IllegalArgumentException when there is none.
   */
  function ParseType(s: string): (r: Result<ActivityType>)
    ensures r.Ok? ==> TypeName(r.value) == s
    ensures r.Err? ==> r.error == IllegalArgument && forall t :: TypeName(t) != s
  {
    if s == "Run" then Ok(Run)
    else if s == "Ride" then Ok(Ride)
    else if s == "VirtualRide" then Ok(VirtualRide)
    else if s == "Hike" then Ok(Hike)
    else if s == "Walk" then Ok(Walk)
    else if s == "Kayaking" then Ok(Kayaking)
    else if s == "Rowing" then Ok(Rowing)
    else Err(IllegalArgument)
  }

  /** Named unions of activity types, in declaration order. */
  datatype ActivityTypeGroup = Cycling | Walking

  /** ActivityTypeGroup.values(). */
  const AllGroups: seq<ActivityTypeGroup> := [Cycling, Walking]

  /** ActivityTypeGroup.types: two distinct member types, in the order listed. */
  function Members(g: ActivityTypeGroup): (ts: seq<ActivityType>)
    ensures |ts| == 2 && ts[0] != ts[1]
  {
    match g
    case Cycling => [Ride, VirtualRide]
    case Walking => [Hike, Walk]
  }

  /** No type belongs to two groups, and Run, Kayaking and Rowing belong to none. */
  lemma GroupsAreDisjoint(g1: ActivityTypeGroup, g2: ActivityTypeGroup, t: ActivityType)
    requires t in Members(g1) && t in Members(g2)
    ensures g1 == g2
    ensures t != Run && t != Kayaking && t != Rowing
  {
  }

  /**
   * The local date and time an activity started, as written in the export
   * (the offset is dropped). Only the year takes part in the figures; the
   * rest is kept because a leaderboard row shows the start date, and two
   * activities are the same record only when their whole start agrees.
   */
  datatype LocalDateTime = LocalDateTime(year: int, month: int, day: int, secondOfDay: int)

  /** One exported activity. */
  datatype Activity = Activity(
    started: LocalDateTime,
    activityType: ActivityType,
    name: string,
    durationSec: Decimal,
    distance: Decimal,
    elevationGain: Decimal)
  {
    function Year(): int {
      started.year
    }

    /** The duration in minutes, divided by 60 at scale 0 and rounded away from zero. */
    function DurationMin(): (m: Decimal)
      ensures IsQuotientRoundedUp(m, durationSec, FromInt(60), 0)
    {
      Divide(durationSec, FromInt(60), 0).value
    }

    /**
     * Metres climbed per kilometre, at scale 2 rounded away from zero. The
     * guard compares the distance with BigDecimal.ZERO using `equals`, so
     * only a distance of exactly 0 at scale 0 yields ZERO; a distance that
     * is zero at another scale (0.0) reaches the division and fails.
     */
    function AvgClimb(): (r: Result<Decimal>)
      ensures distance == Zero ==> r == Ok(Zero)
      ensures r.Err? <==> distance != Zero && distance.unscaled == 0
      ensures r.Err? ==> r.error == Arithmetic
      ensures r.Ok? && distance != Zero ==> IsQuotientRoundedUp(r.value, elevationGain, distance, 2)
    {
      if distance == Zero then Ok(Zero) else Divide(elevationGain, distance, 2)
    }
  }

  /** The year and the type of an activity, as key functions for groupBy. */
  function YearOf(a: Activity): int { a.Year() }
  function TypeOf(a: Activity): ActivityType { a.activityType }

  /**
   * For a whole, non-negative number of seconds, durationMin is the ceiling
   * of seconds / 60: the fewest whole minutes that cover the duration.
   */
  lemma DurationMinIsCeiling(a: Activity)
    requires a.durationSec.scale == 0 && a.durationSec.unscaled >= 0
    ensures a.DurationMin().scale == 0
    ensures 60 * (a.DurationMin().unscaled - 1) < a.durationSec.unscaled <= 60 * a.DurationMin().unscaled
  {
    var m, n := a.DurationMin().unscaled, a.durationSec.unscaled;
    assert ScaledQuotient(a.durationSec, FromInt(60), 0) == (n, 60);
    assert m >= 0;
  }

  // ---------------------------------------------------------------------
  // parseDuration

  /** `.map { it.toInt() }`: every piece is parsed, and the first failure aborts. */
  function ParseInts(pieces: seq<string>): (r: Result<seq<int>>)
    ensures r.Ok? <==> forall i :: 0 <= i < |pieces| ==> ParseInt(pieces[i]).Ok?
    ensures r.Ok? ==> |r.value| == |pieces|
    ensures r.Ok? ==> forall i :: 0 <= i < |pieces| ==> r.value[i] == ParseInt(pieces[i]).value
    ensures r.Err? ==> r.error == NumberFormat
  {
    if pieces == [] then Ok([])
    else
      match ParseInt(pieces[0])
      case Err(e) => Err(e)
      case Ok(v) =>
        match ParseInts(pieces[1..])
        case Err(e) => Err(e)
        case Ok(vs) => Ok([v] + vs)
  }

  /** The whole piece list of a duration text parses as Ints. */
  ghost predicate AllPiecesParse(text: string) {
    var pieces := Split(text, ':');
    forall i :: 0 <= i < |pieces| ==> ParseInt(pieces[i]).Ok?
  }

  /**
   * parseDuration: "H:M:S" to whole seconds. The text is split at every
   * ':', every piece is parsed as an Int (a piece that is not one is a
   * NumberFormatException, even after the third), the first three are
   * destructured as (h, m, s) (fewer than three is an
   * IndexOutOfBoundsException, more are ignored), and the total
   * s + m*60 + h*60*60 is computed in 32-bit Int arithmetic.
   */
  function ParseDuration(text: string): (r: Result<Decimal>)
    ensures r.Ok? <==> AllPiecesParse(text) && |Split(text, ':')| >= 3
    ensures r.Err? ==> r.error == if AllPiecesParse(text) then IndexOutOfBounds else NumberFormat
    ensures r.Ok? ==> r.value.scale == 0 && IsInt32(r.value.unscaled)
  {
    match ParseInts(Split(text, ':'))
    case Err(e) => Err(e)
    case Ok(fields) =>
      if |fields| < 3 then Err(IndexOutOfBounds)
      else
        var h, m, s := fields[0], fields[1], fields[2];
        Ok(FromInt(AddInt32(AddInt32(s, MulInt32(m, 60)), MulInt32(MulInt32(h, 60), 60))))
  }

  /**
   * The seconds parseDuration yields are s + 60m + 3600h of the first three
   * pieces, wrapped to a 32-bit Int (the step-by-step wrapping of the Int
   * operations is the same as wrapping the exact total once).
   */
  lemma ParseDurationTotal(text: string)
    requires ParseDuration(text).Ok?
    ensures var pieces := Split(text, ':');
      var h, m, s := ParseInt(pieces[0]).value, ParseInt(pieces[1]).value, ParseInt(pieces[2]).value;
      ParseDuration(text).value == FromInt(ToInt32(Seconds(h, m, s)))
  {
    var pieces := Split(text, ':');
    var h, m, s := ParseInt(pieces[0]).value, ParseInt(pieces[1]).value, ParseInt(pieces[2]).value;
    WrappedTotal(h, m, s);
  }

  /** The exact number of seconds in h hours, m minutes and s seconds. */
  function Seconds(h: int, m: int, s: int): int { s + 60 * m + 3600 * h }

  /** Wrapping after every Int operation is wrapping the exact total once. */
  lemma WrappedTotal(h: int, m: int, s: int)
    ensures AddInt32(AddInt32(s, MulInt32(m, 60)), MulInt32(MulInt32(h, 60), 60))
         == ToInt32(Seconds(h, m, s))
  {
    var m60, h60 := MulInt32(m, 60), MulInt32(h, 60);
    var h3600 := MulInt32(h60, 60);
    var sm := AddInt32(s, m60);
    // each wrapped intermediate agrees with its exact value modulo 2^32
    assert Congruent(m60, m * 60) && Congruent(h60, h * 60);
    CongruentScale(h60, h * 60, 60);
    assert Congruent(h3600, h60 * 60);
    CongruentTransitive(h3600, h60 * 60, h * 60 * 60);
    CongruentAdd(s, s, m60, m * 60);
    assert Congruent(sm, s + m60);
    CongruentTransitive(sm, s + m60, s + m * 60);
    CongruentAdd(sm, s + m * 60, h3600, h * 60 * 60);
    assert s + m * 60 + h * 60 * 60 == s + 60 * m + 3600 * h;
    ToInt32Congruent(sm + h3600, s + 60 * m + 3600 * h);
  }

  /** With every piece an Int but fewer than three of them, parsing fails. */
  lemma ParseDurationNeedsThreeFields(pieces: seq<string>)
    requires 1 <= |pieces| < 3
    requires forall i :: 0 <= i < |pieces| ==> ':' !in pieces[i] && ParseInt(pieces[i]).Ok?
    ensures ParseDuration(Join(pieces, ':')) == Err(IndexOutOfBounds)
  {
    SplitJoin(pieces, ':');
  }

  /**
   * Joining Int pieces with ':' and parsing the result gives the wrapped
   * total of the first three pieces.
   */
  lemma ParseDurationOfPieces(pieces: seq<string>)
    requires |pieces| >= 3
    requires forall i :: 0 <= i < |pieces| ==> ':' !in pieces[i] && ParseInt(pieces[i]).Ok?
    ensures var h, m, s := ParseInt(pieces[0]).value, ParseInt(pieces[1]).value, ParseInt(pieces[2]).value;
      ParseDuration(Join(pieces, ':')) == Ok(FromInt(ToInt32(Seconds(h, m, s))))
  {
    var text := Join(pieces, ':');
    SplitJoin(pieces, ':');
    assert Split(text, ':') == pieces;
    assert AllPiecesParse(text);
    ParseDurationTotal(text);
    var h, m, s := ParseInt(pieces[0]).value, ParseInt(pieces[1]).value, ParseInt(pieces[2]).value;
  }

  /** Integer pieces after the third change nothing. */
  lemma ParseDurationIgnoresExtraFields(hms: seq<string>, extra: seq<string>)
    requires |hms| == 3
    requires forall i :: 0 <= i < |hms| ==> ':' !in hms[i] && ParseInt(hms[i]).Ok?
    requires forall i :: 0 <= i < |extra| ==> ':' !in extra[i] && ParseInt(extra[i]).Ok?
    ensures ParseDuration(Join(hms + extra, ':')) == ParseDuration(Join(hms, ':'))
  {
    var all := hms + extra;
    assert forall i :: 0 <= i < |all| ==> ':' !in all[i] && ParseInt(all[i]).Ok?;
    ParseDurationOfPieces(all);
    ParseDurationOfPieces(hms);
  }

  /** Two-digit rendering of 0..59, as in the minutes and seconds of "1:02:03". */
  function TwoDigits(n: nat): (s: string)
    requires n < 60
  {
    if n < 10 then "0" + NatToString(n) else NatToString(n)
  }

  lemma TwoDigitsParses(n: nat)
    requires n < 60
    ensures ParseInt(TwoDigits(n)) == Ok(n)
    ensures ':' !in TwoDigits(n)
  {
    var s := TwoDigits(n);
    DigitsOfNatToString(n);
    if n < 10 {
      assert s[..1] == "0";
      assert DigitsValue(s) == 10 * DigitsValue("0") + n;
    }
  }

  /** Whole seconds written as "H:MM:SS", the form the export uses. */
  function FormatDuration(total: nat): string {
    Join([NatToString(total / 3600), TwoDigits(total / 60 % 60), TwoDigits(total % 60)], ':')
  }

  lemma HoursMinutesSeconds(total: nat)
    ensures Seconds(total / 3600, total / 60 % 60, total % 60) == total
  {
    var q := total / 60;
    assert total == 60 * q + total % 60;
    assert q == 60 * (q / 60) + q % 60;
    assert q / 60 == total / 3600;
  }

  /** parseDuration reads back any duration written as "H:MM:SS" that fits in an Int. */
  lemma ParseDurationOfFormatDuration(total: nat)
    requires total <= MaxInt
    ensures ParseDuration(FormatDuration(total)) == Ok(FromInt(total))
  {
    var h, m, s := total / 3600, total / 60 % 60, total % 60;
    var pieces := [NatToString(h), TwoDigits(m), TwoDigits(s)];
    IntToStringParses(h);
    NatToStringHasNoColon(h);
    TwoDigitsParses(m);
    TwoDigitsParses(s);
    ParseDurationOfPieces(pieces);
    HoursMinutesSeconds(total);
  }
}
