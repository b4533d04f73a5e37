/** The two grouping keys of a reading: the partition key, which chooses the
    output file, and the breakdown key, which chooses the row within it
    (`get_partition_key`, `get_breakdown_key`). */
module Keys {
  import opened Wrappers
  import opened Text
  import opened DateTimes

  /** `get_partition_key`. The second test compares against "montly", as the
      program is written, so the mode "monthly" that the command line offers
      falls through to the fallback key. */
  function PartitionKey(dt: ValidDateTime, partition: string): string
  {
    if partition == "yearly" then DecimalString(dt.year)
    else if partition == "montly" then DecimalString(dt.year) + "_" + DecimalString(dt.month)
    else "default_key"
  }

  /** `get_breakdown_key`: `%Y-%m-%d` for "daily", `%Y-%m-%d %H:00:00` for
      "hourly", the full `%Y-%m-%d %H:%M:%S` for anything else. The first two
      are written as pieces of the full format: its first ten characters, and
      its first thirteen followed by zero minutes and seconds
      (`BreakdownKeyShape` spells them out field by field). */
  function BreakdownKey(dt: ValidDateTime, breakdown: string): string
  {
    var full := Format(dt);
    if breakdown == "daily" then full[..10]
    else if breakdown == "hourly" then full[..13] + ":00:00"
    else full
  }

  /** The instant a breakdown key stands for: the start of the reading's
      day, the start of its hour, or the reading's own second. */
  function Truncate(dt: ValidDateTime, breakdown: string): (r: ValidDateTime)
    ensures SameDate(r, dt) && !Before(dt, r)
    ensures breakdown != "daily" ==> r.hour == dt.hour
  {
    if breakdown == "daily" then DateTime(dt.year, dt.month, dt.day, 0, 0, 0)
    else if breakdown == "hourly" then DateTime(dt.year, dt.month, dt.day, dt.hour, 0, 0)
    else dt
  }

  /** "yearly" yields the four-digit year that opens the formatted
      timestamp; the literal "montly" yields that year, an underscore and the
      month without zero padding; every other mode, "monthly" included, gives
      "default_key". */
  lemma PartitionKeyCases(dt: ValidDateTime, partition: string)
    ensures partition == "yearly" ==>
      |PartitionKey(dt, partition)| == 4 && PartitionKey(dt, partition) == Format(dt)[..4]
    ensures PartitionKey(dt, "montly") ==
      Format(dt)[..4] + "_" + (if dt.month < 10 then Format(dt)[6..7] else Format(dt)[5..7])
    ensures partition != "yearly" && partition != "montly" ==> PartitionKey(dt, partition) == "default_key"
    ensures PartitionKey(dt, "monthly") == "default_key"
  {
    DecimalStringOfFourDigits(dt.year);
    FormatPieces(dt);
    assert Format(dt)[..4] == Format(dt)[0..4] == Pad4(dt.year);
    assert Format(dt)[5..7] == Pad2(dt.month);
    if dt.month < 10 {
      assert Format(dt)[6..7] == [Format(dt)[5..7][1]];
    }
  }

  /** Each kind of breakdown key is the `strftime` rendering of its own
      format string: `%Y-%m-%d`, `%Y-%m-%d %H:00:00` and `%Y-%m-%d %H:%M:%S`.
      An hourly key agrees with the exact key on the date and the hour. */
  lemma BreakdownKeyShape(dt: ValidDateTime, breakdown: string)
    ensures var k := BreakdownKey(dt, breakdown);
      && (breakdown == "daily" ==> |k| == 10 && k == FormatDate(dt))
      && (breakdown == "hourly" ==> |k| == 19 && k == FormatDate(dt) + " " + Pad2(dt.hour) + ":00:00")
      && (breakdown == "hourly" ==> k[..13] == Format(dt)[..13] && k[13..] == ":00:00")
      && (breakdown != "daily" && breakdown != "hourly" ==> k == FormatDate(dt) + FormatTime(dt))
  {
    if breakdown == "hourly" {
      var f := Format(dt);
      assert f[..13] == FormatDate(dt) + " " + Pad2(dt.hour);
    }
  }

  /** A breakdown key is the formatted truncated instant ("daily" keys leave
      off the midnight time), so the hourly and exact keys parse back to it. */
  lemma BreakdownKeyOfTruncation(dt: ValidDateTime, breakdown: string)
    ensures Format(Truncate(dt, breakdown)) ==
      if breakdown == "daily" then BreakdownKey(dt, breakdown) + " 00:00:00" else BreakdownKey(dt, breakdown)
    ensures breakdown != "daily" ==> Parse(BreakdownKey(dt, breakdown)) == Some(Truncate(dt, breakdown))
  {
    var t := Truncate(dt, breakdown);
    assert Pad2(0) == "00";
    assert FormatDate(t) == FormatDate(dt);
    ParseFormat(t);
  }

  /** For one breakdown mode, string order of the keys is chronological order
      of the instants they stand for, and two readings share a key exactly
      when they share that instant. Sorting rows by key relies on this. */
  lemma BreakdownKeyOrder(a: ValidDateTime, b: ValidDateTime, breakdown: string)
    ensures Less(BreakdownKey(a, breakdown), BreakdownKey(b, breakdown))
        <==> Before(Truncate(a, breakdown), Truncate(b, breakdown))
    ensures BreakdownKey(a, breakdown) == BreakdownKey(b, breakdown)
        <==> Truncate(a, breakdown) == Truncate(b, breakdown)
  {
    var ta, tb := Truncate(a, breakdown), Truncate(b, breakdown);
    var ka, kb := BreakdownKey(a, breakdown), BreakdownKey(b, breakdown);
    BreakdownKeyOfTruncation(a, breakdown);
    BreakdownKeyOfTruncation(b, breakdown);
    FormatOrder(ta, tb);
    if breakdown == "daily" {
      LessIrreflexive(" 00:00:00");
      LessConcat(ka, kb, " 00:00:00", " 00:00:00");
      EqConcat(ka, kb, " 00:00:00", " 00:00:00");
    }
  }
}
