/**
  The canonical text forms of dates and timestamps: "%Y-%m-%d" (10
  characters) and "%Y-%m-%d %H:%M:%S" (19 characters), read the way
  `datetime.strptime` reads zero-padded fields and written the way
  `strftime` writes them.
 */
module Timestamps {
  import opened Wrappers
  import opened Digits
  import opened Calendar

  /** Digits at `s[i..i+w]`. */
  predicate DigitField(s: string, i: nat, w: nat) {
    i + w <= |s| && AllDigits(s[i..i + w])
  }

  function FieldValue(s: string, i: nat, w: nat): nat
    requires DigitField(s, i, w)
  {
    DigitsValue(s[i..i + w])
  }

  /** A date as Python's `datetime` accepts it: a real calendar day in years 1..9999. */
  predicate Representable(d: Date) {
    ValidDate(d) && InYearRange(d)
  }

  predicate DateShape(s: string) {
    && |s| == 10
    && s[4] == '-' && s[7] == '-'
    && DigitField(s, 0, 4) && DigitField(s, 5, 2) && DigitField(s, 8, 2)
  }

  /** The text `YYYY-MM-DD` of a representable date. */
  function FormatDate(d: Date): (s: string)
    requires Representable(d)
    ensures |s| == 10
  {
    Pad(d.year, 4) + "-" + Pad(d.month, 2) + "-" + Pad(d.day, 2)
  }

  /** `datetime.strptime(s, "%Y-%m-%d")`: `None` where Python raises `ValueError`. */
  function ParseDate(s: string): (r: Option<Date>)
    ensures r.Some? ==> Representable(r.value) && FormatDate(r.value) == s
  {
    if !DateShape(s) then None
    else
      var d := Date(FieldValue(s, 0, 4), FieldValue(s, 5, 2), FieldValue(s, 8, 2));
      if !Representable(d) then None
      else
        PadDigitsValue(s[0..4]);
        PadDigitsValue(s[5..7]);
        PadDigitsValue(s[8..10]);
        assert s == s[0..4] + "-" + s[5..7] + "-" + s[8..10];
        Some(d)
  }

  lemma ParseFormatDate(d: Date)
    requires Representable(d)
    ensures ParseDate(FormatDate(d)) == Some(d)
  {
    var s := FormatDate(d);
    assert s[0..4] == Pad(d.year, 4);
    assert s[5..7] == Pad(d.month, 2);
    assert s[8..10] == Pad(d.day, 2);
  }

  /** A timestamp Python can represent. */
  predicate RepresentableTime(t: DateTime) {
    ValidDateTime(t) && InYearRange(t.date)
  }

  predicate TimestampShape(s: string) {
    && |s| == 19
    && s[4] == '-' && s[7] == '-' && s[10] == ' ' && s[13] == ':' && s[16] == ':'
    && DigitField(s, 0, 4) && DigitField(s, 5, 2) && DigitField(s, 8, 2)
    && DigitField(s, 11, 2) && DigitField(s, 14, 2) && DigitField(s, 17, 2)
  }

  /** `t.strftime("%Y-%m-%d %H:%M:%S")`. */
  function FormatTimestamp(t: DateTime): (s: string)
    requires RepresentableTime(t)
    ensures |s| == 19
  {
    FormatDate(t.date) + " " + Pad(t.hour, 2) + ":" + Pad(t.minute, 2) + ":" + Pad(t.second, 2)
  }

  /** `datetime.strptime(s, "%Y-%m-%d %H:%M:%S")`: `None` where Python raises `ValueError`. */
  function ParseTimestamp(s: string): (r: Option<DateTime>)
    ensures r.Some? ==> |s| == 19 && RepresentableTime(r.value) && FormatTimestamp(r.value) == s
  {
    if !TimestampShape(s) then None
    else
      var t := DateTime(Date(FieldValue(s, 0, 4), FieldValue(s, 5, 2), FieldValue(s, 8, 2)),
                        FieldValue(s, 11, 2), FieldValue(s, 14, 2), FieldValue(s, 17, 2));
      if !RepresentableTime(t) then None
      else
        PadDigitsValue(s[0..4]);
        PadDigitsValue(s[5..7]);
        PadDigitsValue(s[8..10]);
        PadDigitsValue(s[11..13]);
        PadDigitsValue(s[14..16]);
        PadDigitsValue(s[17..19]);
        assert s == s[0..4] + "-" + s[5..7] + "-" + s[8..10] + " "
                  + s[11..13] + ":" + s[14..16] + ":" + s[17..19];
        Some(t)
  }

  /** Every representable timestamp written out is read back unchanged. */
  lemma ParseFormatTimestamp(t: DateTime)
    requires RepresentableTime(t)
    ensures ParseTimestamp(FormatTimestamp(t)) == Some(t)
  {
    var s := FormatTimestamp(t);
    assert s[0..4] == Pad(t.date.year, 4);
    assert s[5..7] == Pad(t.date.month, 2);
    assert s[8..10] == Pad(t.date.day, 2);
    assert s[11..13] == Pad(t.hour, 2);
    assert s[14..16] == Pad(t.minute, 2);
    assert s[17..19] == Pad(t.second, 2);
  }
}
