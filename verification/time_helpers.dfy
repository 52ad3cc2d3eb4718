/**
  The time helpers of the route search: reading "HH:MM[:SS]" stop times,
  day-aware journey durations, the layover rule, anchoring a stop time to
  the requested date and minute addition on timestamp texts.
 */
module TimeHelpers {
  import opened Wrappers
  import opened Digits
  import opened Calendar
  import opened Timestamps

  /** A stop time as the timetable stores it: "HH:MM" or "HH:MM:SS". */
  predicate ClockText(t: string) {
    && (|t| == 5 || |t| == 8)
    && t[2] == ':' && DigitField(t, 0, 2) && DigitField(t, 3, 2)
    && (|t| == 8 ==> t[5] == ':' && DigitField(t, 6, 2))
  }

  function ClockHour(t: string): nat
    requires ClockText(t)
  {
    FieldValue(t, 0, 2)
  }

  function ClockMinute(t: string): nat
    requires ClockText(t)
  {
    FieldValue(t, 3, 2)
  }

  /** The seconds part, "00" when the text has none. */
  function ClockSecond(t: string): nat
    requires ClockText(t)
  {
    if |t| == 8 then FieldValue(t, 6, 2) else 0
  }

  /** A stop time that names a real time of day. */
  predicate ValidClock(t: string) {
    ClockText(t) && ClockHour(t) < 24 && ClockMinute(t) < 60 && ClockSecond(t) < 60
  }

  /** What `time_to_mins` accepts without raising: the absent markers or a clock text. */
  predicate TimeInput(t: string) {
    t == "None" || t == "" || ClockText(t)
  }

  /** `time_to_mins`: minutes since midnight; the absent markers read as 0. */
  function TimeToMins(t: string): (r: nat)
    requires TimeInput(t)
    ensures t == "None" || t == "" ==> r == 0
    ensures ValidClock(t) ==> r < MinutesPerDay
  {
    if t == "None" || t == "" then 0 else ClockHour(t) * 60 + ClockMinute(t)
  }

  /** The text of a time of day, as the timetable writes it. */
  function ClockOf(h: nat, m: nat, s: Option<nat>): string
    requires h < 100 && m < 100 && (s.Some? ==> s.value < 100)
  {
    Pad(h, 2) + ":" + Pad(m, 2) + (if s.Some? then ":" + Pad(s.value, 2) else "")
  }

  /** `time_to_mins` reads back the hours and minutes of a clock text and ignores its seconds. */
  lemma TimeToMinsOfClock(h: nat, m: nat, s: Option<nat>)
    requires h < 100 && m < 100 && (s.Some? ==> s.value < 100)
    ensures ClockText(ClockOf(h, m, s))
    ensures TimeToMins(ClockOf(h, m, s)) == h * 60 + m
  {
    var hm := Pad(h, 2) + ":" + Pad(m, 2);
    assert hm[0..2] == Pad(h, 2);
    assert hm[3..5] == Pad(m, 2);
    var t := ClockOf(h, m, s);
    if s.Some? {
      var tail := ":" + Pad(s.value, 2);
      assert t == hm + tail;
      assert t[0..2] == hm[0..2];
      assert t[3..5] == hm[3..5];
      assert t[6..8] == Pad(s.value, 2);
    } else {
      assert t == hm;
    }
  }

  /** `get_journey_time`: minutes from a departure on day `depDay` to an arrival on day `arrDay`. */
  function JourneyTime(depTime: string, depDay: int, arrTime: string, arrDay: int): int
    requires TimeInput(depTime) && TimeInput(arrTime)
  {
    (arrDay - depDay) * 24 * 60 + (TimeToMins(arrTime) - TimeToMins(depTime))
  }

  /** The timestamp of a stop time on a given calendar day: the parsed form of
      `make_datetime_str`, whose seconds default to zero. */
  function Anchor(d: Date, t: string): (r: DateTime)
    requires ValidDate(d) && ValidClock(t)
    ensures ValidDateTime(r) && r.date == d
    ensures MinuteStamp(r) == DayNumber(d) * MinutesPerDay + TimeToMins(t)
  {
    DateTime(d, ClockHour(t), ClockMinute(t), ClockSecond(t))
  }

  /** When day counts number calendar days from a common first day, the journey
      time is exactly the minutes elapsed between the two stop instants. */
  lemma JourneyTimeIsElapsed(first: Date, depTime: string, depDay: int, arrTime: string, arrDay: int)
    requires ValidDate(first) && ValidClock(depTime) && ValidClock(arrTime)
    ensures JourneyTime(depTime, depDay, arrTime, arrDay)
         == MinuteStamp(Anchor(AddDays(first, arrDay - 1), arrTime))
          - MinuteStamp(Anchor(AddDays(first, depDay - 1), depTime))
  {
  }

  /** The rollover example: 23:50 on day 1 to 00:10 on day 2 takes 20 minutes. */
  lemma JourneyTimeMidnight()
    ensures JourneyTime(ClockOf(23, 50, None), 1, ClockOf(0, 10, None), 2) == 20
  {
    TimeToMinsOfClock(23, 50, None);
    TimeToMinsOfClock(0, 10, None);
  }

  /** The layover rule: the departure time-of-day minus the arrival time-of-day,
      corrected once by a day when negative. */
  function Layover(arrTime: string, depTime: string): (r: int)
    requires ValidClock(arrTime) && ValidClock(depTime)
    ensures 0 <= r < MinutesPerDay
    ensures (r - (TimeToMins(depTime) - TimeToMins(arrTime))) % MinutesPerDay == 0
  {
    var wait := TimeToMins(depTime) - TimeToMins(arrTime);
    if wait < 0 then wait + 24 * 60 else wait
  }

  /** The layover is the wait from the arrival instant to the first departure
      instant at or after it that shows the departure's time of day. */
  lemma LayoverReachesDeparture(d: Date, arrTime: string, depTime: string)
    requires ValidDate(d) && ValidClock(arrTime) && ValidClock(depTime)
    ensures var a := AddMinutes(Anchor(d, arrTime), Layover(arrTime, depTime));
            a.hour == ClockHour(depTime) && a.minute == ClockMinute(depTime)
  {
    var h, m := ClockHour(depTime), ClockMinute(depTime);
    AddMinutesClock(Anchor(d, arrTime), Layover(arrTime, depTime), h * 60 + m);
    HourMinute(h, m);
  }

  lemma HourMinute(h: int, m: int)
    requires 0 <= m < 60
    ensures (h * 60 + m) / 60 == h && (h * 60 + m) % 60 == m
  {
  }

  /** `make_datetime_str`: the date text, a space and the stop time with
      seconds defaulting to "00". */
  function AnchorText(dateText: string, t: string): string
    requires ClockText(t)
  {
    dateText + " " + t[0..2] + ":" + t[3..5] + ":" + (if |t| == 8 then t[6..8] else "00")
  }

  /** The text `make_datetime_str` builds parses to the anchored timestamp. */
  lemma AnchorTextParses(d: Date, t: string)
    requires Representable(d) && ValidClock(t)
    ensures ParseTimestamp(AnchorText(FormatDate(d), t)) == Some(Anchor(d, t))
  {
    var a := Anchor(d, t);
    PadDigitsValue(t[0..2]);
    PadDigitsValue(t[3..5]);
    assert t[0..2] == Pad(a.hour, 2);
    assert t[3..5] == Pad(a.minute, 2);
    var secText := if |t| == 8 then t[6..8] else "00";
    assert secText == Pad(a.second, 2) by {
      if |t| == 8 {
        PadDigitsValue(t[6..8]);
      } else {
        assert Pad(0, 2) == Pad(0, 1) + [DigitChar(0)];
        assert Pad(0, 1) == Pad(0, 0) + [DigitChar(0)];
      }
    }
    assert AnchorText(FormatDate(d), t) == FormatTimestamp(a);
    ParseFormatTimestamp(a);
  }

  /** Why `add_mins_to_datetime_str` can raise. */
  datatype TimeError = Unparseable | OutOfRange

  /** `add_mins_to_datetime_str`: parse, add `k` minutes, write back. */
  function AddMinsToText(s: string, k: int): (r: Result<string, TimeError>)
    ensures ParseTimestamp(s).None? <==> r == Failure(Unparseable)
    ensures ParseTimestamp(s).Some? ==>
              (r.Success? <==> InYearRange(AddMinutes(ParseTimestamp(s).value, k).date))
    ensures r.Success? ==> exists t :: ParseTimestamp(s) == Some(t)
                                       && ParseTimestamp(r.value) == Some(AddMinutes(t, k))
  {
    match ParseTimestamp(s)
    case None => Failure(Unparseable)
    case Some(t) =>
      var u := AddMinutes(t, k);
      if InYearRange(u.date) then ParseFormatTimestamp(u); Success(FormatTimestamp(u))
      else Failure(OutOfRange)
  }

  /** Adding `k` minutes to a timestamp text and then `-k` gives the text back. */
  lemma AddMinsToTextRoundTrip(s: string, k: int)
    requires ParseTimestamp(s).Some?
    requires AddMinsToText(s, k).Success?
    ensures AddMinsToText(AddMinsToText(s, k).value, -k) == Success(s)
  {
    var t := ParseTimestamp(s).value;
    var u := AddMinutes(t, k);
    ParseFormatTimestamp(u);
    AddMinutesRoundTrip(t, k);
  }
}
