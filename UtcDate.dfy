/**
  `formatUTCDate` (index.js:78-86): the join time stamped on every participant,
  written as `DD/MM/YYYY HH:MM UTC`. The clock is a parameter: a `UtcTime`
  holds what `getUTCDate`, `getUTCMonth`, `getUTCFullYear`, `getUTCHours` and
  `getUTCMinutes` return for the current instant.
 */
module UtcDate {
  import opened Wrappers
  import opened Text

  /** `month` counts from 0 for January, as `getUTCMonth` does. */
  datatype UtcTime = UtcTime(year: int, month: nat, day: nat, hours: nat, minutes: nat)

  /** The ranges a JavaScript `Date` guarantees for these fields. */
  predicate ValidTime(t: UtcTime) {
    t.month < 12 && 1 <= t.day <= 31 && t.hours < 24 && t.minutes < 60
  }

  /**
    For a valid time with a four-digit year the stamp is `DD/MM/YYYY HH:MM UTC`:
    20 characters, each field at a fixed position.
   */
  function FormatUtcDate(t: UtcTime): (r: string)
    ensures ValidTime(t) && 1000 <= t.year <= 9999 ==>
      && |r| == 20 && r[2] == '/' && r[5] == '/' && r[10] == ' ' && r[13] == ':' && r[16..] == " UTC"
      && r[0..2] == Pad2(t.day) && r[3..5] == Pad2(t.month + 1) && r[6..10] == IntToString(t.year)
      && r[11..13] == Pad2(t.hours) && r[14..16] == Pad2(t.minutes)
  {
    var d, mo, y, h, mi := Pad2(t.day), Pad2(t.month + 1), IntToString(t.year), Pad2(t.hours), Pad2(t.minutes);
    // Both branches build the same stamp; the first only adds the facts its layout proof needs.
    if ValidTime(t) && 1000 <= t.year <= 9999 then
      FieldWidths(t);
      Layout(d, mo, y, h, mi);
      d + "/" + mo + "/" + y + " " + h + ":" + mi + " UTC"
    else
      d + "/" + mo + "/" + y + " " + h + ":" + mi + " UTC"
  }

  /** Every field of a valid time prints as two digits, and a four-digit year as four. */
  lemma FieldWidths(t: UtcTime)
    requires ValidTime(t) && 1000 <= t.year <= 9999
    ensures |Pad2(t.day)| == |Pad2(t.month + 1)| == |Pad2(t.hours)| == |Pad2(t.minutes)| == 2
    ensures |IntToString(t.year)| == 4
  {
    Pad2RoundTrip(t.day);
    Pad2RoundTrip(t.month + 1);
    Pad2RoundTrip(t.hours);
    Pad2RoundTrip(t.minutes);
    assert Pow10(3) == 1000 && Pow10(4) == 10000;
    NatToStringLength(t.year, 3);
  }

  /** Reads a 20-character stamp back; the inverse of `FormatUtcDate` for four-digit years. */
  function ParseUtcDate(r: string): (t: Option<UtcTime>)
    ensures t.Some? ==> ValidTime(t.value) && 1000 <= t.value.year <= 9999
  {
    if |r| == 20 && r[2] == '/' && r[5] == '/' && r[10] == ' ' && r[13] == ':' && r[16..] == " UTC"
       && AllDigits(r[0..2]) && AllDigits(r[3..5]) && AllDigits(r[6..10])
       && AllDigits(r[11..13]) && AllDigits(r[14..16])
    then
      var day, month, year := DigitsValue(r[0..2]), DigitsValue(r[3..5]), DigitsValue(r[6..10]);
      var hours, minutes := DigitsValue(r[11..13]), DigitsValue(r[14..16]);
      if 1 <= day <= 31 && 1 <= month <= 12 && 1000 <= year && hours < 24 && minutes < 60
      then
        FourDigitsBound(r[6..10]);
        Some(UtcTime(year, month - 1, day, hours, minutes))
      else None
    else None
  }

  lemma {:induction false} FourDigitsBound(s: string)
    requires |s| == 4 && AllDigits(s)
    ensures DigitsValue(s) <= 9999
  {
    DigitsValueBound(s);
    assert Pow10(4) == 10000;
  }

  /**
    Every field is zero-padded to two digits, the month is shifted by one, and
    for a four-digit year the stamp has 20 characters and reads back to the
    same time.
   */
  lemma FormatParseRoundTrip(t: UtcTime)
    requires ValidTime(t) && 1000 <= t.year <= 9999
    ensures |FormatUtcDate(t)| == 20
    ensures ParseUtcDate(FormatUtcDate(t)) == Some(t)
  {
    StampFields(t);
    ParseFields(FormatUtcDate(t), t);
  }

  /** Each field of the stamp is a run of digits that reads back as the time's field. */
  lemma StampFields(t: UtcTime)
    requires ValidTime(t) && 1000 <= t.year <= 9999
    ensures var r := FormatUtcDate(t);
      && |r| == 20
      && FieldReads(r[0..2], t.day) && FieldReads(r[3..5], t.month + 1) && FieldReads(r[6..10], t.year)
      && FieldReads(r[11..13], t.hours) && FieldReads(r[14..16], t.minutes)
  {
    Pad2RoundTrip(t.day);
    Pad2RoundTrip(t.month + 1);
    Pad2RoundTrip(t.hours);
    Pad2RoundTrip(t.minutes);
  }

  predicate FieldReads(field: string, value: nat) {
    AllDigits(field) && DigitsValue(field) == value
  }

  /** A stamp whose fields hold the digits of a valid time reads back to that time. */
  lemma ParseFields(r: string, t: UtcTime)
    requires ValidTime(t) && 1000 <= t.year <= 9999
    requires |r| == 20 && r[2] == '/' && r[5] == '/' && r[10] == ' ' && r[13] == ':' && r[16..] == " UTC"
    requires FieldReads(r[0..2], t.day) && FieldReads(r[3..5], t.month + 1) && FieldReads(r[6..10], t.year)
    requires FieldReads(r[11..13], t.hours) && FieldReads(r[14..16], t.minutes)
    ensures ParseUtcDate(r) == Some(t)
  {
  }

  /** Where each field of the stamp sits, for two-character fields and a four-character year. */
  lemma Layout(day: string, month: string, year: string, hours: string, minutes: string)
    requires |day| == |month| == |hours| == |minutes| == 2 && |year| == 4
    ensures var r := day + "/" + month + "/" + year + " " + hours + ":" + minutes + " UTC";
      && |r| == 20 && r[2] == '/' && r[5] == '/' && r[10] == ' ' && r[13] == ':' && r[16..] == " UTC"
      && r[0..2] == day && r[3..5] == month && r[6..10] == year
      && r[11..13] == hours && r[14..16] == minutes
  {
  }
}
