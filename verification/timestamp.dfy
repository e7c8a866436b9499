/**
 The default report name Main builds from the current UTC time with the .NET custom format
 "yyyyMMdd_hhmmss". In that format `hh` is the hour on a 12-hour clock, so the name does not
 say whether a report was made before or after noon; `HH` is the 24-hour hour.
 */
module Timestamp {
  import opened Text

  /** A calendar time as DateTime.UtcNow supplies it (day validity per month is not needed). */
  datatype DateTime = DateTime(year: nat, month: nat, day: nat, hour: nat, minute: nat, second: nat)

  predicate Valid(t: DateTime) {
    1 <= t.year <= 9999 && 1 <= t.month <= 12 && 1 <= t.day <= 31
    && t.hour < 24 && t.minute < 60 && t.second < 60
  }

  /** The times DateTime can hold. */
  type ValidDateTime = t: DateTime | Valid(t) witness DateTime(1, 1, 1, 0, 0, 0)

  /** A number below 100 as exactly two digits ("MM", "dd", "HH", "hh", "mm", "ss"). */
  function Pad2(n: nat): (r: string)
    requires n < 100
    ensures |r| == 2 && IsDecimal(r) && DecimalValue(r) == n
  {
    var r := [DigitChar(n / 10), DigitChar(n % 10)];
    DecimalValueTwo(r);
    r
  }

  /** A year as exactly four digits ("yyyy"). */
  function Pad4(n: nat): (r: string)
    requires n < 10000
    ensures |r| == 4 && IsDecimal(r) && DecimalValue(r) == n
  {
    var r := Pad2(n / 100) + Pad2(n % 100);
    DecimalValueConcat(Pad2(n / 100), Pad2(n % 100));
    r
  }

  /** The value of two digits. */
  lemma DecimalValueTwo(b: string)
    requires IsDecimal(b) && |b| == 2
    ensures DecimalValue(b) == (b[0] as int - '0' as int) * 10 + (b[1] as int - '0' as int)
  {
    assert b[..1] == [b[0]] && [b[0]][..0] == [];
    assert DecimalValue([b[0]]) == DecimalValue([]) * 10 + (b[0] as int - '0' as int);
  }

  /** The digits of `a` followed by two more digits: the value shifts by two places. */
  lemma DecimalValueConcat(a: string, b: string)
    requires IsDecimal(a) && IsDecimal(b) && |b| == 2
    ensures DecimalValue(a + b) == DecimalValue(a) * 100 + DecimalValue(b)
  {
    var s := a + b;
    var d0, d1 := b[0] as int - '0' as int, b[1] as int - '0' as int;
    assert s[..|s| - 1][..|s| - 2] == a;
    assert s[..|s| - 1][|s| - 2] == b[0];
    assert DecimalValue(s) == DecimalValue(s[..|s| - 1]) * 10 + d1;
    assert DecimalValue(s[..|s| - 1]) == DecimalValue(a) * 10 + d0;
    DecimalValueTwo(b);
  }

  /** The 12-hour clock hour of `hh`: 12 for midnight and noon, 1 to 11 otherwise. */
  function Hour12(hour: nat): (h: nat)
    requires hour < 24
    ensures 1 <= h <= 12 && h % 12 == hour % 12
  {
    if hour % 12 == 0 then 12 else hour % 12
  }

  /** "FileLineCounter_" + UtcNow.ToString("yyyyMMdd_hhmmss") + ".csv", as written. */
  function DefaultOutputAsWritten(t: DateTime): string
    requires Valid(t)
  {
    "FileLineCounter_" + Pad4(t.year) + Pad2(t.month) + Pad2(t.day) + "_"
      + Pad2(Hour12(t.hour)) + Pad2(t.minute) + Pad2(t.second) + ".csv"
  }

  /** As written, a report made in the afternoon gets the same default name as one made
      twelve hours earlier, and the later run overwrites the earlier report. */
  lemma AsWrittenNamesCollide(t: DateTime)
    requires Valid(t) && t.hour < 12
    ensures Valid(t.(hour := t.hour + 12))
    ensures DefaultOutputAsWritten(t.(hour := t.hour + 12)) == DefaultOutputAsWritten(t)
  {
  }

  /** So the name as written does not determine the time: 01:00 and 13:00 on the same day
      share it. */
  lemma AsWrittenNotInjective()
    ensures exists t: DateTime, u: DateTime :: Valid(t) && Valid(u) && t != u
                                              && DefaultOutputAsWritten(t) == DefaultOutputAsWritten(u)
  {
    var t := DateTime(2024, 1, 1, 1, 0, 0);
    AsWrittenNamesCollide(t);
    assert t != t.(hour := 13);
  }

  /** The default name with the 24-hour `HH` format. */
  function DefaultOutput(t: DateTime): string
    requires Valid(t)
  {
    "FileLineCounter_" + Pad4(t.year) + Pad2(t.month) + Pad2(t.day) + "_"
      + Pad2(t.hour) + Pad2(t.minute) + Pad2(t.second) + ".csv"
  }

  /** With `HH` the default name determines the time to the second: two different times
      never share a report name. */
  lemma DefaultOutputInjective(t: DateTime, u: DateTime)
    requires Valid(t) && Valid(u)
    ensures DefaultOutput(t) == DefaultOutput(u) ==> t == u
  {
    if DefaultOutput(t) != DefaultOutput(u) {
      return;
    }
    var n := DefaultOutput(t);
    assert |n| == 35;
    assert n[16..20] == Pad4(t.year) && n[20..22] == Pad2(t.month) && n[22..24] == Pad2(t.day);
    assert n[25..27] == Pad2(t.hour) && n[27..29] == Pad2(t.minute) && n[29..31] == Pad2(t.second);
    var m := DefaultOutput(u);
    assert m[16..20] == Pad4(u.year) && m[20..22] == Pad2(u.month) && m[22..24] == Pad2(u.day);
    assert m[25..27] == Pad2(u.hour) && m[27..29] == Pad2(u.minute) && m[29..31] == Pad2(u.second);
  }
}
