/**
 * The decision rules of the location-based attendance system: whether a
 * check-in lies inside the office geofence, how a distance is displayed, how
 * many hours lie between check-in and check-out, and whether an employee is
 * present, late or absent.
 *
 * Coordinates and distances are reals; timestamps are whole seconds. The
 * floating-point bodies (the haversine formula, rounding, number formatting)
 * are passed in as functions: what is modelled is the branch structure in
 * front of them. Python truthiness is written out: a float is false when it
 * is None or 0.0, a timestamp only when it is None.
 */
module AttendanceUtils {
  import opened Wrappers

  /** The default geofence radius, in metres. */
  const DefaultAllowedMeters: real := 500.0

  /** The default number of minutes after the expected time that still counts as present. */
  const DefaultLateThresholdMinutes: real := 15.0

  /** Python's truthiness test on an optional float. */
  predicate Falsy(x: Option<real>) {
    x.None? || x.value == 0.0
  }

  /**
   * The great-circle distance in metres between (lat1, lon1) and (lat2, lon2),
   * given in degrees, rounded to centimetres.
   */
  type Haversine = (real, real, real, real) -> real

  /**
   * No distance unless all four coordinates are truthy; otherwise the
   * great-circle formula on the four coordinates in order.
   */
  function CalculateDistance(lat1: Option<real>, lon1: Option<real>, lat2: Option<real>, lon2: Option<real>,
                             haversine: Haversine): (d: Option<real>)
    ensures d.None? <==> Falsy(lat1) || Falsy(lon1) || Falsy(lat2) || Falsy(lon2)
    ensures d.Some? ==> lat1.Some? && lon1.Some? && lat2.Some? && lon2.Some?
    ensures d.Some? ==> d.value == haversine(lat1.value, lon1.value, lat2.value, lon2.value)
  {
    if Falsy(lat1) || Falsy(lon1) || Falsy(lat2) || Falsy(lon2) then None
    else Some(haversine(lat1.value, lon1.value, lat2.value, lon2.value))
  }

  /** Inside the geofence: a known distance no greater than the allowance. */
  function IsWithinDistance(distance: Option<real>, allowed: real := DefaultAllowedMeters): (within: bool)
    ensures within ==> distance.Some?
  {
    if distance.None? then false else distance.value <= allowed
  }

  /** Which branch of the display format a distance takes, with the number it shows. */
  datatype DistanceText = NotAvailable | Meters(meters: real) | Kilometers(km: real)

  function FormatDistance(distance: Option<real>): (t: DistanceText)
    ensures t.NotAvailable? <==> distance.None?
    ensures t.Meters? <==> distance.Some? && distance.value < 1000.0
    ensures t.Meters? ==> t.meters == distance.value
    ensures t.Kilometers? ==> distance.Some? && t.km * 1000.0 == distance.value && t.km >= 1.0
  {
    if distance.None? then NotAvailable
    else if distance.value < 1000.0 then Meters(distance.value)
    else Kilometers(distance.value / 1000.0)
  }

  /** A formatted number: digits, a decimal point and a minus sign only, never a unit letter. */
  predicate Numeric(text: string) {
    forall i :: 0 <= i < |text| ==> text[i] in "0123456789.-"
  }

  /**
   * The displayed text, given how a number is printed with no decimals
   * (`fixed0`) and with two (`fixed2`).
   */
  function Render(t: DistanceText, fixed0: real -> string, fixed2: real -> string): (text: string)
    ensures t.NotAvailable? ==> text == "N/A"
    ensures t.Meters? ==> |text| >= 1 && text[|text| - 1] == 'm' && text[..|text| - 1] == fixed0(t.meters)
    ensures t.Kilometers? ==> |text| >= 2 && text[|text| - 2..] == "km" && text[..|text| - 2] == fixed2(t.km)
  {
    match t
    case NotAvailable => "N/A"
    case Meters(m) => fixed0(m) + "m"
    case Kilometers(k) => fixed2(k) + "km"
  }

  /**
   * With formatters that print only numbers, a known distance is shown in
   * kilometres exactly when it is at least 1000 m, and "N/A" only when unknown.
   */
  lemma RenderUnit(d: Option<real>, fixed0: real -> string, fixed2: real -> string)
    requires forall x :: Numeric(fixed0(x))
    requires forall x :: Numeric(fixed2(x))
    ensures var text := Render(FormatDistance(d), fixed0, fixed2);
            (d.None? <==> text == "N/A") &&
            (d.Some? ==> (|text| >= 2 && text[|text| - 2..] == "km" <==> d.value >= 1000.0))
  {
    var text := Render(FormatDistance(d), fixed0, fixed2);
    if d.Some? {
      if d.value < 1000.0 {
        var digits := fixed0(d.value);
        assert Numeric(digits);
        assert text == digits + "m";
        if |digits| >= 1 {
          assert text[|text| - 2] == digits[|digits| - 1];
        }
        assert !(|text| >= 2 && text[|text| - 2..] == "km");
        assert text[|text| - 1] == 'm';
      } else {
        var digits := fixed2(d.value / 1000.0);
        assert Numeric(digits);
        assert text == digits + "km";
        assert text[|text| - 1] == 'm';
      }
    }
  }

  /** Hours between check-in and check-out, or None when either is missing. */
  function CalculateWorkingHours(checkIn: Option<int>, checkOut: Option<int>): (hours: Option<real>)
    ensures hours.None? <==> checkIn.None? || checkOut.None?
    ensures hours.Some? ==> hours.value * 3600.0 == (checkOut.value - checkIn.value) as real
  {
    if checkIn.None? || checkOut.None? then None
    else Some((checkOut.value - checkIn.value) as real / 3600.0)
  }

  datatype Status = Present | Late | Absent {
    /** The value stored in the status column. */
    function Label(): (name: string)
      ensures name == "present" || name == "late" || name == "absent"
      ensures name == "absent" <==> this == Absent
    {
      match this
      case Present => "present"
      case Late => "late"
      case Absent => "absent"
    }
  }

  /**
   * Absent without a check-in; late when an expected time is set and the
   * delay in minutes exceeds the threshold; present otherwise.
   */
  function DetermineAttendanceStatus(checkIn: Option<int>, expected: Option<int>,
                                     lateThresholdMinutes: real := DefaultLateThresholdMinutes): (s: Status)
    ensures s == Absent <==> checkIn.None?
    ensures s == Late <==> checkIn.Some? && expected.Some? &&
                           (checkIn.value - expected.value) as real > 60.0 * lateThresholdMinutes
    ensures s == Present <==> checkIn.Some? &&
                              (expected.None? || (checkIn.value - expected.value) as real <= 60.0 * lateThresholdMinutes)
  {
    if checkIn.None? then Absent
    else if expected.Some? && (checkIn.value - expected.value) as real / 60.0 > lateThresholdMinutes then Late
    else Present
  }

  /**
   * A latitude or longitude of exactly zero (the equator or the prime
   * meridian), whether the office's or the check-in's, yields no distance, so
   * the check-in is never inside the geofence.
   */
  lemma ZeroCoordinateNeverWithin(lat1: Option<real>, lon1: Option<real>, lat2: Option<real>, lon2: Option<real>,
                                  haversine: Haversine, allowed: real)
    requires lat1 == Some(0.0) || lon1 == Some(0.0) || lat2 == Some(0.0) || lon2 == Some(0.0)
    ensures CalculateDistance(lat1, lon1, lat2, lon2, haversine).None?
    ensures !IsWithinDistance(CalculateDistance(lat1, lon1, lat2, lon2, haversine), allowed)
  {
  }

  /** Labels name statuses one to one. */
  lemma LabelInjective(s: Status, t: Status)
    ensures s.Label() == t.Label() <==> s == t
  {
  }

  /** The geofence is inclusive, and widening it never excludes a check-in it admitted. */
  lemma WithinDistanceBoundary(d: real, allowed: real, wider: real)
    requires allowed <= wider
    ensures IsWithinDistance(Some(allowed), allowed)
    ensures d > allowed ==> !IsWithinDistance(Some(d), allowed)
    ensures IsWithinDistance(Some(d), allowed) ==> IsWithinDistance(Some(d), wider)
    ensures IsWithinDistance(Some(DefaultAllowedMeters)) && !IsWithinDistance(Some(500.01))
  {
  }

  /** 999.99 m is shown in metres and exactly 1000 m as 1 km. */
  lemma FormatDistanceBoundary(fixed0: real -> string, fixed2: real -> string)
    ensures FormatDistance(Some(999.99)) == Meters(999.99)
    ensures FormatDistance(Some(1000.0)) == Kilometers(1.0)
    ensures Render(FormatDistance(None), fixed0, fixed2) == "N/A"
  {
  }

  /** Working hours add up across an intermediate time, and are negative exactly when check-out precedes check-in. */
  lemma WorkingHoursAdd(a: int, b: int, c: int)
    ensures CalculateWorkingHours(Some(a), Some(c)).value
         == CalculateWorkingHours(Some(a), Some(b)).value + CalculateWorkingHours(Some(b), Some(c)).value
    ensures CalculateWorkingHours(Some(a), Some(b)).value < 0.0 <==> b < a
  {
  }

  /**
   * Exactly fifteen minutes after the expected time is still present, one
   * second more is late, and without an expected time nobody is late.
   */
  lemma LateBoundary(expected: int, checkIn: int)
    ensures DetermineAttendanceStatus(Some(expected + 900), Some(expected)) == Present
    ensures DetermineAttendanceStatus(Some(expected + 901), Some(expected)) == Late
    ensures DetermineAttendanceStatus(Some(checkIn), None) == Present
    ensures DetermineAttendanceStatus(None, Some(expected)) == Absent
  {
  }

  /** Checking in later never improves the status. */
  lemma LateIsMonotone(checkIn: int, later: int, expected: Option<int>, threshold: real)
    requires checkIn <= later
    ensures DetermineAttendanceStatus(Some(checkIn), expected, threshold) == Late
        ==> DetermineAttendanceStatus(Some(later), expected, threshold) == Late
  {
  }
}
