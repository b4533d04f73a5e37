/** Calendar date-times at one-second precision, written and read with the
    fixed format `%Y-%m-%d %H:%M:%S` (`YYYY-MM-DD HH:MM:SS`). */
module DateTimes {
  import opened Wrappers
  import opened Text

  datatype DateTime = DateTime(year: int, month: int, day: int, hour: int, minute: int, second: int)
  {
    /** A value Python's `datetime` accepts, with the year kept to four
        digits so that `%Y` writes it the same way on every platform. */
    predicate Valid() {
      1000 <= year <= 9999 && 1 <= month <= 12 && 1 <= day <= DaysInMonth(year, month)
      && 0 <= hour < 24 && 0 <= minute < 60 && 0 <= second < 60
    }
  }

  type ValidDateTime = dt: DateTime | dt.Valid() witness DateTime(2000, 1, 1, 0, 0, 0)

  /** The Gregorian leap-year rule. */
  predicate IsLeapYear(y: int) {
    y % 4 == 0 && (y % 100 != 0 || y % 400 == 0)
  }

  function DaysInMonth(y: int, m: int): int
  {
    if m == 2 then (if IsLeapYear(y) then 29 else 28)
    else if m == 4 || m == 6 || m == 9 || m == 11 then 30
    else 31
  }

  /** Python's `<` on datetimes: field by field, most significant first. */
  predicate Before(a: DateTime, b: DateTime) {
    a.year < b.year || (a.year == b.year &&
    (a.month < b.month || (a.month == b.month &&
    (a.day < b.day || (a.day == b.day &&
    (a.hour < b.hour || (a.hour == b.hour &&
    (a.minute < b.minute || (a.minute == b.minute && a.second < b.second)))))))))
  }

  /** `strftime("%Y-%m-%d")`. */
  function FormatDate(dt: ValidDateTime): string
  {
    Pad4(dt.year) + "-" + Pad2(dt.month) + "-" + Pad2(dt.day)
  }

  /** `strftime(" %H:%M:%S")`, the time part of the full format. */
  function FormatTime(dt: ValidDateTime): string
  {
    " " + Pad2(dt.hour) + ":" + Pad2(dt.minute) + ":" + Pad2(dt.second)
  }

  /** `strftime("%Y-%m-%d %H:%M:%S")`. */
  function Format(dt: ValidDateTime): (s: string)
    ensures |s| == 19 && s[..10] == FormatDate(dt)
  {
    FormatDate(dt) + FormatTime(dt)
  }

  /** The digit positions of `YYYY-MM-DD HH:MM:SS`. */
  predicate DigitAt(i: int) {
    i != 4 && i != 7 && i != 10 && i != 13 && i != 16
  }

  predicate WellShaped(s: string) {
    |s| == 19 && s[4] == '-' && s[7] == '-' && s[10] == ' ' && s[13] == ':' && s[16] == ':'
    && forall i :: 0 <= i < 19 && DigitAt(i) ==> IsDigit(s[i])
  }

  /** `datetime.strptime(s, "%Y-%m-%d %H:%M:%S")` on the zero-padded form:
      `None` when the text does not have the shape or names no calendar
      date-time (a 30th of February, hour 24, second 60). */
  function Parse(s: string): (r: Option<ValidDateTime>)
    ensures r.Some? ==> |s| == 19
  {
    if !WellShaped(s) then None
    else
      var dt := DateTime(Field4(s[0..4]), Field2(s[5..7]), Field2(s[8..10]),
                         Field2(s[11..13]), Field2(s[14..16]), Field2(s[17..19]));
      if dt.Valid() then Some(dt) else None
  }

  lemma FormatPieces(dt: ValidDateTime)
    ensures var s := Format(dt);
      s[0..4] == Pad4(dt.year) && s[4] == '-' && s[5..7] == Pad2(dt.month) && s[7] == '-'
      && s[8..10] == Pad2(dt.day) && s[10] == ' ' && s[11..13] == Pad2(dt.hour) && s[13] == ':'
      && s[14..16] == Pad2(dt.minute) && s[16] == ':' && s[17..19] == Pad2(dt.second)
  {
  }

  /** Parsing what was formatted gives back the same date-time. */
  lemma ParseFormat(dt: ValidDateTime)
    ensures Parse(Format(dt)) == Some(dt)
  {
    var s := Format(dt);
    FormatPieces(dt);
    Pad4RoundTrip(dt.year);
    Pad2RoundTrip(dt.month);
    Pad2RoundTrip(dt.day);
    Pad2RoundTrip(dt.hour);
    Pad2RoundTrip(dt.minute);
    Pad2RoundTrip(dt.second);
    forall i | 0 <= i < 19 && DigitAt(i) ensures IsDigit(s[i]) {
      if i < 4 { assert s[i] == s[0..4][i]; }
      else if i < 7 { assert s[i] == s[5..7][i - 5]; }
      else if i < 10 { assert s[i] == s[8..10][i - 8]; }
      else if i < 13 { assert s[i] == s[11..13][i - 11]; }
      else if i < 16 { assert s[i] == s[14..16][i - 14]; }
      else { assert s[i] == s[17..19][i - 17]; }
    }
  }

  /** Whatever parses is the canonical formatting of what it parses to, so
      the fixed format reads each date-time from exactly one string. */
  lemma FormatParse(s: string)
    requires Parse(s).Some?
    ensures Format(Parse(s).value) == s
  {
    var dt := Parse(s).value;
    assert WellShaped(s);
    forall k | 0 <= k < 4 ensures IsDigit(s[0..4][k]) { assert DigitAt(k); }
    forall k | 0 <= k < 2 ensures IsDigit(s[5..7][k]) && IsDigit(s[8..10][k]) && IsDigit(s[11..13][k])
                                  && IsDigit(s[14..16][k]) && IsDigit(s[17..19][k]) {
      assert DigitAt(5 + k) && DigitAt(8 + k) && DigitAt(11 + k) && DigitAt(14 + k) && DigitAt(17 + k);
    }
    Field4RoundTrip(s[0..4]);
    Field2RoundTrip(s[5..7]);
    Field2RoundTrip(s[8..10]);
    Field2RoundTrip(s[11..13]);
    Field2RoundTrip(s[14..16]);
    Field2RoundTrip(s[17..19]);
    var f := Format(dt);
    FormatPieces(dt);
    forall i | 0 <= i < 19 ensures f[i] == s[i] {
      if i < 4 { assert f[i] == f[0..4][i] && s[i] == s[0..4][i]; }
      else if 4 < i < 7 { assert f[i] == f[5..7][i - 5] && s[i] == s[5..7][i - 5]; }
      else if 7 < i < 10 { assert f[i] == f[8..10][i - 8] && s[i] == s[8..10][i - 8]; }
      else if 10 < i < 13 { assert f[i] == f[11..13][i - 11] && s[i] == s[11..13][i - 11]; }
      else if 13 < i < 16 { assert f[i] == f[14..16][i - 14] && s[i] == s[14..16][i - 14]; }
      else if 16 < i { assert f[i] == f[17..19][i - 17] && s[i] == s[17..19][i - 17]; }
    }
  }

  /** Same calendar day. */
  predicate SameDate(a: DateTime, b: DateTime) {
    a.year == b.year && a.month == b.month && a.day == b.day
  }

  /** Earlier calendar day. */
  predicate DateBefore(a: DateTime, b: DateTime) {
    a.year < b.year || (a.year == b.year && (a.month < b.month || (a.month == b.month && a.day < b.day)))
  }

  /** `%Y-%m-%d` strings sort as their dates do. */
  lemma FormatDateOrder(a: ValidDateTime, b: ValidDateTime)
    ensures Less(FormatDate(a), FormatDate(b)) <==> DateBefore(a, b)
    ensures FormatDate(a) == FormatDate(b) <==> SameDate(a, b)
  {
    var a1, b1 := Pad4(a.year), Pad4(b.year);
    var a2, b2 := a1 + "-", b1 + "-";
    var a3, b3 := a2 + Pad2(a.month), b2 + Pad2(b.month);
    var a4, b4 := a3 + "-", b3 + "-";
    Pad4Order(a.year, b.year);
    Pad2Order(a.month, b.month);
    Pad2Order(a.day, b.day);
    LessIrreflexive("-");
    LessConcat(a1, b1, "-", "-");
    EqConcat(a1, b1, "-", "-");
    LessConcat(a2, b2, Pad2(a.month), Pad2(b.month));
    EqConcat(a2, b2, Pad2(a.month), Pad2(b.month));
    LessConcat(a3, b3, "-", "-");
    EqConcat(a3, b3, "-", "-");
    LessConcat(a4, b4, Pad2(a.day), Pad2(b.day));
    EqConcat(a4, b4, Pad2(a.day), Pad2(b.day));
  }

  /** Time of day. */
  predicate SameTime(a: DateTime, b: DateTime) {
    a.hour == b.hour && a.minute == b.minute && a.second == b.second
  }

  predicate TimeBefore(a: DateTime, b: DateTime) {
    a.hour < b.hour || (a.hour == b.hour && (a.minute < b.minute || (a.minute == b.minute && a.second < b.second)))
  }

  /** ` %H:%M:%S` strings sort as their times of day do. */
  lemma FormatTimeOrder(a: ValidDateTime, b: ValidDateTime)
    ensures Less(FormatTime(a), FormatTime(b)) <==> TimeBefore(a, b)
    ensures FormatTime(a) == FormatTime(b) <==> SameTime(a, b)
  {
    var a1, b1 := " " + Pad2(a.hour), " " + Pad2(b.hour);
    var a2, b2 := a1 + ":", b1 + ":";
    var a3, b3 := a2 + Pad2(a.minute), b2 + Pad2(b.minute);
    var a4, b4 := a3 + ":", b3 + ":";
    Pad2Order(a.hour, b.hour);
    Pad2Order(a.minute, b.minute);
    Pad2Order(a.second, b.second);
    LessIrreflexive(" ");
    LessIrreflexive(":");
    LessConcat(" ", " ", Pad2(a.hour), Pad2(b.hour));
    EqConcat(" ", " ", Pad2(a.hour), Pad2(b.hour));
    LessConcat(a1, b1, ":", ":");
    EqConcat(a1, b1, ":", ":");
    LessConcat(a2, b2, Pad2(a.minute), Pad2(b.minute));
    EqConcat(a2, b2, Pad2(a.minute), Pad2(b.minute));
    LessConcat(a3, b3, ":", ":");
    EqConcat(a3, b3, ":", ":");
    LessConcat(a4, b4, Pad2(a.second), Pad2(b.second));
    EqConcat(a4, b4, Pad2(a.second), Pad2(b.second));
  }

  /** Formatted timestamps sort as the date-times do, and two date-times
      share a formatted timestamp only when they are equal. */
  lemma FormatOrder(a: ValidDateTime, b: ValidDateTime)
    ensures Less(Format(a), Format(b)) <==> Before(a, b)
    ensures Format(a) == Format(b) <==> a == b
  {
    FormatDateOrder(a, b);
    FormatTimeOrder(a, b);
    LessConcat(FormatDate(a), FormatDate(b), FormatTime(a), FormatTime(b));
    EqConcat(FormatDate(a), FormatDate(b), FormatTime(a), FormatTime(b));
  }
}
