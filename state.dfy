/**
 * The value types shared by the detector (python-container/src/speed_detector/shared/state.py):
 * the detection status, daily time windows with their parser and printer,
 * one frame's detection, the confirmed speed limit and the current state
 * with its API dictionary.
 *
 * Clocks are injected: a `Timestamp` is an instant, counted in seconds from
 * a local midnight, so that its time of day is `ClockOf(now)`.
 */
module State {
  import opened Wrappers
  import opened Text

  /** An instant of the injected wall clock, in seconds from a local midnight. */
  type Timestamp = nat

  const SecondsPerDay: int := 86400

  type Hour = h: int | 0 <= h < 24
  type Minute = m: int | 0 <= m < 60
  type Second = s: int | 0 <= s < 60

  /** A `datetime.time`, to the second. */
  datatype ClockTime = ClockTime(hour: Hour, minute: Minute, second: Second)

  /** `a <= b` on `datetime.time`: lexicographic on hour, minute and second. */
  predicate NotAfter(a: ClockTime, b: ClockTime) {
    a.hour < b.hour
    || (a.hour == b.hour && (a.minute < b.minute || (a.minute == b.minute && a.second <= b.second)))
  }

  /** Seconds since midnight. */
  function SecondOfDay(t: ClockTime): (r: int)
    ensures 0 <= r < SecondsPerDay
  {
    t.hour * 3600 + t.minute * 60 + t.second
  }

  /** Comparing clock times is comparing their seconds since midnight. */
  lemma NotAfterBySeconds(a: ClockTime, b: ClockTime)
    ensures NotAfter(a, b) <==> SecondOfDay(a) <= SecondOfDay(b)
  {
  }

  /** `datetime.now().time()` at the instant `now`. */
  function ClockOf(now: Timestamp): (t: ClockTime)
    ensures SecondOfDay(t) == now % SecondsPerDay
  {
    var s := now % SecondsPerDay;
    assert s == s / 3600 * 3600 + s % 3600;
    assert s % 3600 == s % 3600 / 60 * 60 + s % 3600 % 60;
    assert s % 3600 % 60 == s % 60;
    ClockTime(s / 3600, s % 3600 / 60, s % 60)
  }

  datatype DetectionStatus = NoDetection | Detecting | Confirmed {

    /** The enum member's `.value`, as the API reports it. */
    function Value(): (r: string)
      ensures StatusOfValue(r) == Some(this)
    {
      match this
      case NoDetection => "no_detection"
      case Detecting => "detecting"
      case Confirmed => "confirmed"
    }
  }

  /** `DetectionStatus(v)`: the member whose value is `v`, if any. */
  function StatusOfValue(v: string): Option<DetectionStatus> {
    if v == "no_detection" then Some(NoDetection)
    else if v == "detecting" then Some(Detecting)
    else if v == "confirmed" then Some(Confirmed)
    else None
  }

  /**
   * A speed limit that applies only between two clock times each day, both
   * ends included (the "7-19" plates). The dataclass accepts any integers, but
   * `is_active` builds `datetime.time` values from them, which rejects hours
   * outside 0..23 and minutes outside 0..59; the field types say so here.
   */
  datatype TimeCondition = TimeCondition(startHour: Hour, endHour: Hour, startMinute: Minute, endMinute: Minute) {

    function Start(): ClockTime {
      ClockTime(startHour, startMinute, 0)
    }

    function End(): ClockTime {
      ClockTime(endHour, endMinute, 0)
    }

    /** `is_active(t)`: inside the window, which wraps past midnight when it starts after it ends. */
    function IsActive(t: ClockTime): bool {
      if NotAfter(Start(), End()) then NotAfter(Start(), t) && NotAfter(t, End())
      else NotAfter(t, End()) || NotAfter(Start(), t)
    }

    /** `str(tc)`: `"H-H"` on the hour, otherwise `"HH:MM-HH:MM"`. */
    function ToString(): string {
      if startMinute == 0 && endMinute == 0 then
        NatToString(startHour) + "-" + NatToString(endHour)
      else
        Pad2(startHour) + ":" + Pad2(startMinute) + "-" + Pad2(endHour) + ":" + Pad2(endMinute)
    }
  }

  /**
   * Both window shapes, in seconds since midnight: a window that does not wrap
   * holds exactly on [start, end]; one that wraps holds from its start to
   * midnight and from midnight to its end.
   */
  lemma IsActiveInSeconds(tc: TimeCondition, t: ClockTime)
    ensures var s, e, x := SecondOfDay(tc.Start()), SecondOfDay(tc.End()), SecondOfDay(t);
      && (s <= e ==> (tc.IsActive(t) <==> s <= x <= e))
      && (s > e ==> (tc.IsActive(t) <==> x >= s || x <= e))
  {
    NotAfterBySeconds(tc.Start(), tc.End());
    NotAfterBySeconds(tc.Start(), t);
    NotAfterBySeconds(t, tc.End());
  }

  /**
   * One rule for both shapes: the window holds when the time elapsed since it
   * opened, counted round the clock, is at most the window's own length.
   */
  lemma IsActiveByElapsed(tc: TimeCondition, t: ClockTime)
    ensures var s, e, x := SecondOfDay(tc.Start()), SecondOfDay(tc.End()), SecondOfDay(t);
      tc.IsActive(t) <==> (x - s) % SecondsPerDay <= (e - s) % SecondsPerDay
  {
    var s, e, x := SecondOfDay(tc.Start()), SecondOfDay(tc.End()), SecondOfDay(t);
    IsActiveInSeconds(tc, t);
    var d := SecondsPerDay;
    assert (x - s) % d == if x >= s then x - s else x - s + d;
    assert (e - s) % d == if e >= s then e - s else e - s + d;
  }

  /** A window holds at both of its ends. */
  lemma ActiveAtBothEnds(tc: TimeCondition)
    ensures tc.IsActive(tc.Start()) && tc.IsActive(tc.End())
  {
    NotAfterBySeconds(tc.Start(), tc.End());
  }

  /** The regex groups of `H(:MM)?-H(:MM)?` at the position where it matched. */
  datatype RangeMatch = RangeMatch(
    length: nat,
    startHour: nat, startMinute: Option<nat>,
    endHour: nat, endMinute: Option<nat>)

  /** How many digits `\d{1,2}` takes at `i`, greedily; 0 when there is none. */
  function HourDigitsAt(s: string, i: nat): (n: nat)
    ensures n <= 2 && (n > 0 ==> i + n <= |s|)
    ensures n == 0 <==> !(i < |s| && IsDigit(s[i]))
    ensures n == 2 ==> IsDigit(s[i + 1])
  {
    if i < |s| && IsDigit(s[i]) then
      (if i + 1 < |s| && IsDigit(s[i + 1]) then 2 else 1)
    else 0
  }

  /** `:\d{2}` at `i`. */
  predicate MinutesAt(s: string, i: nat) {
    i + 3 <= |s| && s[i] == ':' && IsDigit(s[i + 1]) && IsDigit(s[i + 2])
  }

  /**
   * `int(s[i:j])` for a run of digits. It is only applied to runs of
   * digits; any other character would count as 0, which keeps the function
   * free of a precondition.
   */
  function SliceValue(s: string, i: nat, j: nat): nat
    requires i <= j <= |s|
    decreases j - i
  {
    if j == i then 0
    else SliceValue(s, i, j - 1) * 10 + (if IsDigit(s[j - 1]) then DigitValue(s[j - 1]) else 0)
  }

  /** `SliceValue` reads the digits between `i` and `j` as one decimal numeral. */
  lemma {:induction false} SliceValueIsDecimal(s: string, i: nat, j: nat)
    requires i <= j <= |s|
    requires forall k :: i <= k < j ==> IsDigit(s[k])
    ensures AllDigits(s[i..j]) && SliceValue(s, i, j) == DecimalValue(s[i..j])
    decreases j - i
  {
    assert forall k :: 0 <= k < j - i ==> s[i..j][k] == s[i + k];
    if j > i {
      SliceValueIsDecimal(s, i, j - 1);
      assert s[i..j][..j - i - 1] == s[i..j - 1];
    }
  }

  /**
   * The match of `(\d{1,2})(?::(\d{2}))?-(\d{1,2})(?::(\d{2}))?` starting at
   * `p`, as Python's backtracking engine finds it. The start hour is the
   * longest run of at most two digits: when two digits are there, retrying
   * with one leaves a digit where `:` or `-` must come, so that retry always
   * fails. `:MM` is taken exactly when present, and `-` must follow. The end
   * hour is again the longest run of at most two digits, with `:MM` when
   * present; nothing after it is looked at.
   */
  function MatchRangeAt(s: string, p: nat): (r: Option<RangeMatch>)
    ensures r.Some? ==> 3 <= r.value.length && p + r.value.length <= |s|
  {
    var a := HourDigitsAt(s, p);
    if a == 0 then None
    else
      var i := p + a;
      var j := if MinutesAt(s, i) then i + 3 else i;
      if !(j < |s| && s[j] == '-') then None
      else
        var b := HourDigitsAt(s, j + 1);
        if b == 0 then None
        else
          var k := j + 1 + b;
          var l := if MinutesAt(s, k) then k + 3 else k;
          Some(RangeMatch(
            l - p,
            SliceValue(s, p, i),
            if MinutesAt(s, i) then Some(SliceValue(s, i + 1, i + 3)) else None,
            SliceValue(s, j + 1, k),
            if MinutesAt(s, k) then Some(SliceValue(s, k + 1, k + 3)) else None))
  }

  /** The shape `MatchOfShape` reads a match off. */
  predicate RangeShape(u: string, q: nat, a: nat, m1: bool, b: nat, m2: bool) {
    var j := q + a + (if m1 then 3 else 0);
    && 0 < a && HourDigitsAt(u, q) == a && MinutesAt(u, q + a) == m1
    && j < |u| && u[j] == '-'
    && 0 < b && HourDigitsAt(u, j + 1) == b && MinutesAt(u, j + 1 + b) == m2
  }

  /**
   * The match at `q` read off its shape: hour digits up to `i`, optional
   * minutes up to `j`, the dash, hour digits up to `k`, optional minutes up
   * to `l`.
   */
  lemma MatchOfShape(u: string, q: nat, a: nat, m1: bool, b: nat, m2: bool, i: nat, j: nat, k: nat, l: nat)
    requires RangeShape(u, q, a, m1, b, m2)
    requires i == q + a && j == i + (if m1 then 3 else 0) && k == j + 1 + b && l == k + (if m2 then 3 else 0)
    ensures l <= |u|
    ensures MatchRangeAt(u, q) == Some(RangeMatch(
      l - q,
      SliceValue(u, q, i),
      if m1 then Some(SliceValue(u, i + 1, i + 3)) else None,
      SliceValue(u, j + 1, k),
      if m2 then Some(SliceValue(u, k + 1, k + 3)) else None))
  {
  }

  /**
   * Any text the pattern matches at `q` has the shape `MatchOfShape` reads:
   * the pattern matches exactly when hour digits, optional `:MM`, a dash and
   * hour digits come in that order at `q`.
   */
  lemma MatchIffShape(u: string, q: nat)
    ensures MatchRangeAt(u, q).Some? <==> exists a: nat, m1: bool, b: nat, m2: bool :: RangeShape(u, q, a, m1, b, m2)
  {
    if MatchRangeAt(u, q).Some? {
      var a := HourDigitsAt(u, q);
      var m1 := MinutesAt(u, q + a);
      var b := HourDigitsAt(u, q + a + (if m1 then 3 else 0) + 1);
      var m2 := MinutesAt(u, q + a + (if m1 then 3 else 0) + 1 + b);
      assert RangeShape(u, q, a, m1, b, m2);
    } else {
      forall a: nat, m1: bool, b: nat, m2: bool | RangeShape(u, q, a, m1, b, m2)
        ensures false
      {
        var i := q + a;
        var j := i + (if m1 then 3 else 0);
        var k := j + 1 + b;
        MatchOfShape(u, q, a, m1, b, m2, i, j, k, k + (if m2 then 3 else 0));
      }
    }
  }

  /**
   * The range checks of `from_string` on the matched groups: a condition
   * exactly when both hours are at most 23 and both minutes at most 59, an
   * absent minute counting as 0; the condition holds the groups' numbers.
   */
  function ConditionOf(m: RangeMatch): (r: Option<TimeCondition>)
    ensures r.Some? <==> m.startHour <= 23 && m.endHour <= 23
                         && m.startMinute.GetOr(0) <= 59 && m.endMinute.GetOr(0) <= 59
    ensures r.Some? ==> r.value.startHour == m.startHour && r.value.endHour == m.endHour
    ensures r.Some? ==> r.value.startMinute == (if m.startMinute.Some? then m.startMinute.value else 0)
    ensures r.Some? ==> r.value.endMinute == (if m.endMinute.Some? then m.endMinute.value else 0)
  {
    var sm, em := m.startMinute.GetOr(0), m.endMinute.GetOr(0);
    if !(m.startHour <= 23 && m.endHour <= 23) then None
    else if !(sm <= 59 && em <= 59) then None
    else Some(TimeCondition(m.startHour, m.endHour, sm, em))
  }

  /**
   * `TimeCondition.from_string(s)`: the pattern must match at the start of the
   * stripped string (trailing text is ignored), and every hour and minute must
   * be in range; otherwise there is no condition.
   */
  function FromString(s: string): (r: Option<TimeCondition>)
    ensures MatchRangeAt(Strip(s), 0).None? ==> r.None?
    ensures MatchRangeAt(Strip(s), 0).Some? ==>
      var m := MatchRangeAt(Strip(s), 0).value;
      && (r.Some? <==> m.startHour <= 23 && m.endHour <= 23
                       && m.startMinute.GetOr(0) <= 59 && m.endMinute.GetOr(0) <= 59)
      && (r.Some? ==> r.value.startHour == m.startHour && r.value.endHour == m.endHour
                      && r.value.startMinute == m.startMinute.GetOr(0)
                      && r.value.endMinute == m.endMinute.GetOr(0))
  {
    match MatchRangeAt(Strip(s), 0)
    case None => None
    case Some(m) => ConditionOf(m)
  }

  /** `from_string(" 7-19 ")`: surrounding whitespace is stripped and absent minutes are 0. */
  lemma FromStringStripsAndDefaults()
    ensures FromString(" 7-19 ") == Some(TimeCondition(7, 19, 0, 0))
  {
    var s := " 7-19 ";
    assert SkipSpace(s, 0) == 1 && SkipSpaceBack(s, 1, 6) == 5;
    var t := Strip(s);
    assert t == "7-19";
    assert HourDigitsAt(t, 0) == 1 && !MinutesAt(t, 1) && HourDigitsAt(t, 2) == 2 && !MinutesAt(t, 4);
    MatchOfShape(t, 0, 1, false, 2, false, 1, 1, 4, 4);
    assert SliceValue(t, 0, 1) == 7 && SliceValue(t, 2, 4) == 19;
  }

  /** `from_string("07:30-19:00 x")`: minutes are read, and text after the range is ignored. */
  lemma FromStringIgnoresTrailingText()
    ensures FromString("07:30-19:00 x") == Some(TimeCondition(7, 19, 30, 0))
  {
    var t := "07:30-19:00 x";
    StripNoop(t);
    assert HourDigitsAt(t, 0) == 2 && MinutesAt(t, 2) && HourDigitsAt(t, 6) == 2 && MinutesAt(t, 8);
    MatchOfShape(t, 0, 2, true, 2, true, 2, 5, 8, 11);
    assert SliceValue(t, 0, 2) == 7 && SliceValue(t, 3, 5) == 30;
    assert SliceValue(t, 6, 8) == 19 && SliceValue(t, 9, 11) == 0;
  }

  /** `from_string("x7-19")`: the range must start the stripped text. */
  lemma FromStringNeedsRangeAtStart()
    ensures FromString("x7-19") == None
  {
    StripNoop("x7-19");
    assert HourDigitsAt("x7-19", 0) == 0;
  }

  /** `from_string("25-30")`: an hour above 23 gives no condition. */
  lemma FromStringRejectsHour()
    ensures FromString("25-30") == None
  {
    var t := "25-30";
    StripNoop(t);
    assert HourDigitsAt(t, 0) == 2 && !MinutesAt(t, 2) && HourDigitsAt(t, 3) == 2 && !MinutesAt(t, 5);
    MatchOfShape(t, 0, 2, false, 2, false, 2, 2, 5, 5);
    assert SliceValue(t, 0, 2) == 25;
  }

  /** `from_string("7:60-19")`: a minute above 59 gives no condition. */
  lemma FromStringRejectsMinute()
    ensures FromString("7:60-19") == None
  {
    var t := "7:60-19";
    StripNoop(t);
    assert HourDigitsAt(t, 0) == 1 && MinutesAt(t, 1) && HourDigitsAt(t, 5) == 2 && !MinutesAt(t, 7);
    MatchOfShape(t, 0, 1, true, 2, false, 1, 4, 7, 7);
    assert SliceValue(t, 2, 4) == 60;
  }

  /** Printing a condition and parsing it back gives the same condition. */
  lemma FromStringOfToString(tc: TimeCondition)
    ensures FromString(tc.ToString()) == Some(tc)
  {
    if tc.startMinute == 0 && tc.endMinute == 0 {
      RoundTripOnTheHour(tc);
    } else {
      RoundTripWithMinutes(tc);
    }
  }

  /** The `"H-H"` form parses back. */
  lemma RoundTripOnTheHour(tc: TimeCondition)
    requires tc.startMinute == 0 && tc.endMinute == 0
    ensures FromString(tc.ToString()) == Some(tc)
  {
    var a, b := NatToString(tc.startHour), NatToString(tc.endHour);
    NatToStringLength(tc.startHour);
    NatToStringLength(tc.endHour);
    DecimalOfNatToString(tc.startHour);
    DecimalOfNatToString(tc.endHour);
    MatchOfHoursOnly(a, b);
    var s := a + "-" + b;
    DigitIsNotSpace(s[0]);
    DigitIsNotSpace(s[|s| - 1]);
    StripNoop(s);
  }

  /** What the pattern finds in `H-H`, with one or two digits on each side. */
  lemma MatchOfHoursOnly(a: string, b: string)
    requires 1 <= |a| <= 2 && 1 <= |b| <= 2 && AllDigits(a) && AllDigits(b)
    ensures var s := a + "-" + b;
      && MatchRangeAt(s, 0) == Some(RangeMatch(|s|, DecimalValue(a), None, DecimalValue(b), None))
      && IsDigit(s[0]) && IsDigit(s[|s| - 1])
  {
    var s := a + "-" + b;
    var i := |a|;
    assert s[0..i] == a && s[i] == '-' && s[i + 1..|s|] == b;
    assert forall k :: 0 <= k < i ==> s[k] == a[k];
    assert forall k :: i < k < |s| ==> s[k] == b[k - i - 1];
    assert HourDigitsAt(s, 0) == i;
    assert !MinutesAt(s, i);
    assert HourDigitsAt(s, i + 1) == |b|;
    assert !MinutesAt(s, |s|);
    MatchOfShape(s, 0, i, false, |b|, false, i, i, |s|, |s|);
    SliceValueIsDecimal(s, 0, i);
    SliceValueIsDecimal(s, i + 1, |s|);
  }

  /** What the pattern finds in `HH:MM-HH:MM`. */
  lemma MatchOfFullForm(s: string)
    requires |s| == 11 && s[2] == ':' && s[5] == '-' && s[8] == ':'
    requires forall k :: 0 <= k < 11 && k != 2 && k != 5 && k != 8 ==> IsDigit(s[k])
    ensures MatchRangeAt(s, 0) == Some(RangeMatch(11, SliceValue(s, 0, 2), Some(SliceValue(s, 3, 5)),
                                                  SliceValue(s, 6, 8), Some(SliceValue(s, 9, 11))))
  {
    assert HourDigitsAt(s, 0) == 2 && MinutesAt(s, 2);
    assert HourDigitsAt(s, 6) == 2 && MinutesAt(s, 8);
    MatchOfShape(s, 0, 2, true, 2, true, 2, 5, 8, 11);
  }

  /** Where the four two-digit fields and the separators sit in `HH:MM-HH:MM`. */
  lemma FullFormLayout(a: string, b: string, c: string, d: string)
    requires |a| == 2 && |b| == 2 && |c| == 2 && |d| == 2
    requires AllDigits(a) && AllDigits(b) && AllDigits(c) && AllDigits(d)
    ensures var s := a + ":" + b + "-" + c + ":" + d;
      && |s| == 11 && s[2] == ':' && s[5] == '-' && s[8] == ':'
      && s[0..2] == a && s[3..5] == b && s[6..8] == c && s[9..11] == d
      && (forall k :: 0 <= k < 11 && k != 2 && k != 5 && k != 8 ==> IsDigit(s[k]))
  {
    var s := a + ":" + b + "-" + c + ":" + d;
    assert s[0..2] == a && s[3..5] == b && s[6..8] == c && s[9..11] == d;
    assert forall k :: 0 <= k < 2 ==> s[k] == a[k] && s[k + 3] == b[k] && s[k + 6] == c[k] && s[k + 9] == d[k];
  }

  /** An `HH:MM-HH:MM` text whose four fields read as the condition's numbers parses to that condition. */
  lemma FullFormParses(s: string, tc: TimeCondition)
    requires |s| == 11 && s[2] == ':' && s[5] == '-' && s[8] == ':'
    requires forall k :: 0 <= k < 11 && k != 2 && k != 5 && k != 8 ==> IsDigit(s[k])
    requires SliceValue(s, 0, 2) == tc.startHour && SliceValue(s, 3, 5) == tc.startMinute
    requires SliceValue(s, 6, 8) == tc.endHour && SliceValue(s, 9, 11) == tc.endMinute
    ensures FromString(s) == Some(tc)
  {
    DigitIsNotSpace(s[0]);
    DigitIsNotSpace(s[10]);
    StripNoop(s);
    MatchOfFullForm(s);
  }

  /** The `"HH:MM-HH:MM"` form parses back. */
  lemma RoundTripWithMinutes(tc: TimeCondition)
    ensures FromString(Pad2(tc.startHour) + ":" + Pad2(tc.startMinute) + "-"
                       + Pad2(tc.endHour) + ":" + Pad2(tc.endMinute)) == Some(tc)
  {
    var a, b, c, d := Pad2(tc.startHour), Pad2(tc.startMinute), Pad2(tc.endHour), Pad2(tc.endMinute);
    DecimalOfPad2(tc.startHour);
    DecimalOfPad2(tc.startMinute);
    DecimalOfPad2(tc.endHour);
    DecimalOfPad2(tc.endMinute);
    FullFormLayout(a, b, c, d);
    var s := a + ":" + b + "-" + c + ":" + d;
    SliceValueIsDecimal(s, 0, 2);
    SliceValueIsDecimal(s, 3, 5);
    SliceValueIsDecimal(s, 6, 8);
    SliceValueIsDecimal(s, 9, 11);
    FullFormParses(s, tc);
  }

  /** The corners of a detected sign; carried along, never computed with. */
  datatype BoundingBox = BoundingBox(x1: real, y1: real, x2: real, y2: real)

  /** No condition means the limit always applies. */
  function ConditionHolds(tc: Option<TimeCondition>, now: Timestamp): bool {
    tc.None? || tc.value.IsActive(ClockOf(now))
  }

  /** One frame's reading of a sign. */
  datatype SpeedLimitDetection = SpeedLimitDetection(
    speedLimit: int,
    confidence: real,
    bbox: BoundingBox,
    timeCondition: Option<TimeCondition>,
    timestamp: Timestamp)
  {
    function IsCurrentlyActive(now: Timestamp): bool {
      ConditionHolds(timeCondition, now)
    }
  }

  /** A speed limit seen on enough consecutive frames to be believed. */
  datatype ConfirmedSpeedLimit = ConfirmedSpeedLimit(
    speedLimit: int,
    timeCondition: Option<TimeCondition>,
    confirmedAt: Timestamp,
    lastSeenAt: Timestamp,
    detectionCount: int)
  {
    function IsCurrentlyActive(now: Timestamp): bool {
      ConditionHolds(timeCondition, now)
    }

    /** `update_last_seen()`: seen again at `now`, one more sighting, nothing else changes. */
    function UpdateLastSeen(now: Timestamp): (r: ConfirmedSpeedLimit)
      ensures r.detectionCount == detectionCount + 1 && r.lastSeenAt == now
      ensures r.speedLimit == speedLimit && r.timeCondition == timeCondition
      ensures r.confirmedAt == confirmedAt
    {
      this.(lastSeenAt := now, detectionCount := detectionCount + 1)
    }
  }

  /** A JSON-like value in the dictionaries the API serves; `JTime` is an ISO timestamp. */
  datatype Json =
    | JNull
    | JInt(i: int)
    | JBool(b: bool)
    | JStr(s: string)
    | JTime(t: Timestamp)
    | JObject(fields: map<string, Json>)

  type Dict = map<string, Json>

  function IntOrNull(o: Option<int>): Json {
    match o
    case Some(v) => JInt(v)
    case None => JNull
  }

  /** The `time_condition` entry of the API dictionary. */
  function ConditionJson(tc: TimeCondition, now: Timestamp): Json {
    JObject(map["range" := JStr(tc.ToString()), "is_active" := JBool(tc.IsActive(ClockOf(now)))])
  }

  /** The detector's state as the API sees it. */
  datatype CurrentState = CurrentState(
    status: DetectionStatus,
    confirmed: Option<ConfirmedSpeedLimit>,
    pending: Option<SpeedLimitDetection>,
    pendingCount: int,
    lastUpdated: Timestamp)
  {
    /**
     * `get_effective_speed_limit()`: the confirmed limit while its time window
     * holds (or when it has none); nothing otherwise.
     */
    function GetEffectiveSpeedLimit(now: Timestamp): (r: Option<int>)
      ensures r.Some? <==> confirmed.Some? && ConditionHolds(confirmed.value.timeCondition, now)
      ensures r.Some? ==> r.value == confirmed.value.speedLimit
    {
      if confirmed.None? then None
      else if !confirmed.value.IsCurrentlyActive(now) then None
      else Some(confirmed.value.speedLimit)
    }

    /**
     * `to_dict()`: always the status and the update time; the limit, the
     * effective limit and both timestamps exactly when a limit is confirmed;
     * its time window only when it has one.
     */
    function ToDict(now: Timestamp): (d: Dict)
      ensures "status" in d && d["status"] == JStr(status.Value())
      ensures "last_updated" in d && d["last_updated"] == JTime(lastUpdated)
      ensures ("speed_limit" in d) == ("effective_speed_limit" in d) == ("confirmed_at" in d)
              == ("last_seen_at" in d) == confirmed.Some?
      ensures confirmed.Some? ==>
        && d["speed_limit"] == JInt(confirmed.value.speedLimit)
        && d["effective_speed_limit"] == IntOrNull(GetEffectiveSpeedLimit(now))
        && d["confirmed_at"] == JTime(confirmed.value.confirmedAt)
        && d["last_seen_at"] == JTime(confirmed.value.lastSeenAt)
      ensures ("time_condition" in d) <==> confirmed.Some? && confirmed.value.timeCondition.Some?
      ensures "time_condition" in d ==>
        d["time_condition"] == ConditionJson(confirmed.value.timeCondition.value, now)
      ensures d.Keys <= {"status", "last_updated", "speed_limit", "effective_speed_limit",
                         "confirmed_at", "last_seen_at", "time_condition"}
    {
      var base := map["status" := JStr(status.Value()), "last_updated" := JTime(lastUpdated)];
      match confirmed
      case None => base
      case Some(c) =>
        var seen := base["speed_limit" := JInt(c.speedLimit)]
                        ["effective_speed_limit" := IntOrNull(GetEffectiveSpeedLimit(now))]
                        ["confirmed_at" := JTime(c.confirmedAt)]
                        ["last_seen_at" := JTime(c.lastSeenAt)];
        match c.timeCondition
        case None => seen
        case Some(tc) => seen["time_condition" := ConditionJson(tc, now)]
    }
  }

  /** `CurrentState()`: nothing detected, nothing pending, stamped `now`. */
  function DefaultState(now: Timestamp): (s: CurrentState)
    ensures s.status == NoDetection && s.confirmed.None? && s.pending.None? && s.pendingCount == 0
    ensures s.lastUpdated == now
  {
    CurrentState(NoDetection, None, None, 0, now)
  }

  /** With nothing confirmed there is no effective limit, and the dictionary has only two keys. */
  lemma DefaultStateReportsNothing(now: Timestamp, clock: Timestamp)
    ensures DefaultState(now).GetEffectiveSpeedLimit(clock).None?
    ensures DefaultState(now).ToDict(clock).Keys == {"status", "last_updated"}
    ensures DefaultState(now).ToDict(clock)["status"] == JStr("no_detection")
  {
  }

  /**
   * A confirmed limit with a window reports no effective limit outside the
   * window, and itself inside it.
   */
  lemma EffectiveFollowsWindow(s: CurrentState, now: Timestamp)
    requires s.confirmed.Some? && s.confirmed.value.timeCondition.Some?
    ensures var tc := s.confirmed.value.timeCondition.value;
      s.GetEffectiveSpeedLimit(now)
        == if tc.IsActive(ClockOf(now)) then Some(s.confirmed.value.speedLimit) else None
  {
  }
}
