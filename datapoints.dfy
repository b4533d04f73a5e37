/** One input reading, built from a CSV row (`DataPoint.__init__`). */
module DataPoints {
  import opened Wrappers
  import opened Text
  import opened DateTimes

  /** A reading: its timestamp and its heart-rate value.

      In Python, `__init__` assigns `dt` only when the first field parses and
      `hr` only when the row has a second field. On a failed parse it prints
      a diagnostic and leaves `dt` unset: it never stores `None`. Here `None`
      stands for an attribute that was left unset. */
  datatype DataPoint = DataPoint(dt: Option<ValidDateTime>, hr: Option<real>)

  /** The Python exceptions the processing of readings can raise. */
  datatype Error = AttributeError(name: string) | ZeroDivisionError

  /** `DataPoint(row)`. The conversion `float(row[1])` is the caller-supplied
      `toFloat`; the diagnostic printed on a failed parse has no effect on
      the value. */
  function NewDataPoint(row: seq<string>, toFloat: string -> real): (p: DataPoint)
    ensures p.dt.Some? <==> |row| >= 1 && Parse(Strip(row[0])).Some?
    ensures p.dt.Some? ==> Format(p.dt.value) == Strip(row[0])
    ensures p.hr.Some? <==> |row| >= 2
    ensures |row| >= 2 ==> p.hr == Some(toFloat(row[1]))
  {
    var dt := if |row| >= 1 then Parse(Strip(row[0])) else None;
    assert dt.Some? ==> Format(dt.value) == Strip(row[0]) by {
      if dt.Some? {
        FormatParse(Strip(row[0]));
      }
    }
    DataPoint(dt, if |row| >= 2 then Some(toFloat(row[1])) else None)
  }

  /** A field that is not a timestamp leaves the reading without one. */
  lemma UnparsableTimestamp(toFloat: string -> real)
    ensures NewDataPoint(["not-a-date", "5"], toFloat).dt.None?
    ensures NewDataPoint(["not-a-date", "5"], toFloat).hr == Some(toFloat("5"))
  {
    var s := "not-a-date";
    assert !IsSpace(s[0]) && !IsSpace(s[|s| - 1]);
    assert Strip(s) == s;
  }
}
