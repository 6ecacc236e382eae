/** The 12-hour schedule picker of the job and convert-to-job dialogs:
    `parseScheduleTo12H` turns a stored timestamp into the picker's fields
    (date `YYYY-MM-DD`, hour "01".."12", minute, AM/PM) and
    `buildScheduleIso` turns the fields back into a timestamp. */
module ScheduleCodec {
  import opened Values
  import opened Calendar

  datatype Period = AM | PM

  /** The picker's fields. */
  datatype Schedule12 = Schedule12(date: string, hour: string, minute: string, period: Period)

  /** The fields of a picker with nothing chosen. */
  const Blank12: Schedule12 := Schedule12("", "", "", AM)

  /** `new Date(text)`: the moment a timestamp string denotes, or `None` for
      an Invalid Date. The Date constructor's string grammar lies outside this
      model, so the parser is a parameter; it yields only real dates and times. */
  type DateParser = f: string -> Option<DateTime> | forall s :: f(s).None? || ValidDateTime(f(s).value)
    witness (s: string) => None

  // ---------------------------------------------------------------- hours

  /** `hour24 >= 12 ? "PM" : "AM"` */
  function PeriodOf(hour24: int): Period {
    if hour24 >= 12 then PM else AM
  }

  /** `hour24 % 12 === 0 ? 12 : hour24 % 12` */
  function To12(hour24: int): (r: int)
    requires 0 <= hour24 < 24
    ensures 1 <= r <= 12
  {
    if hour24 % 12 == 0 then 12 else hour24 % 12
  }

  /** `hour12 % 12`, plus 12 for PM: 12 AM is 0 and 12 PM is 12. */
  function To24(hour12: int, period: Period): (r: int)
    requires 1 <= hour12 <= 12
    ensures 0 <= r < 24
  {
    hour12 % 12 + (if period == PM then 12 else 0)
  }

  /** 24 -> (12, period) -> 24 is the identity on 0..23. */
  lemma HourRoundTrip24(hour24: int)
    requires 0 <= hour24 < 24
    ensures To24(To12(hour24), PeriodOf(hour24)) == hour24
  {
  }

  /** (12, period) -> 24 -> (12, period) is the identity on 1..12 x {AM, PM}. */
  lemma HourRoundTrip12(hour12: int, period: Period)
    requires 1 <= hour12 <= 12
    ensures To12(To24(hour12, period)) == hour12 && PeriodOf(To24(hour12, period)) == period
  {
  }

  // ---------------------------------------------------------------- decoding

  /** The picker fields of a valid local date and time. */
  function FieldsOf(dt: DateTime): Schedule12
    requires ValidDateTime(dt)
  {
    Schedule12(FormatDate(dt.date), Pad2(Digits(To12(dt.hour))), Pad2(Digits(dt.minute)), PeriodOf(dt.hour))
  }

  /** The picker fields of a moment: a two-digit hour 01..12 that, with the
      period, gives back the 24-hour value, and a two-digit minute. */
  lemma FieldsOfShape(dt: DateTime)
    requires ValidDateTime(dt)
    ensures var f := FieldsOf(dt);
              && f.date == FormatDate(dt.date)
              && f.period == (if dt.hour >= 12 then PM else AM)
              && |f.hour| == 2 && AllDigits(f.hour) && 1 <= DigitsValue(f.hour) <= 12
              && To24(DigitsValue(f.hour), f.period) == dt.hour
              && |f.minute| == 2 && AllDigits(f.minute) && DigitsValue(f.minute) == dt.minute
  {
    Pad2Digits(To12(dt.hour));
    Pad2Digits(dt.minute);
    HourRoundTrip24(dt.hour);
  }

  /** `parseScheduleTo12H(value)`: blank fields for anything but a non-empty
      string naming a valid moment; otherwise a two-digit hour 01..12, the
      period of the 24-hour value and a two-digit minute. */
  function ParseScheduleTo12H(value: Value, parse: DateParser): (r: Schedule12)
    ensures !value.Str? || value.s == "" || parse(value.s).None? ==> r == Blank12
    ensures value.Str? && value.s != "" && parse(value.s).Some? ==>
              var dt := parse(value.s).value;
              && r.date == FormatDate(dt.date)
              && r.period == (if dt.hour >= 12 then PM else AM)
              && |r.hour| == 2 && AllDigits(r.hour) && 1 <= DigitsValue(r.hour) <= 12
              && To24(DigitsValue(r.hour), r.period) == dt.hour
              && |r.minute| == 2 && AllDigits(r.minute) && DigitsValue(r.minute) == dt.minute
  {
    if Falsy(value) || !value.Str? then Blank12
    else
      match parse(value.s)
      case None => Blank12
      case Some(dt) =>
        FieldsOfShape(dt);
        FieldsOf(dt)
  }

  // ---------------------------------------------------------------- encoding

  /** What `buildScheduleIso` produces: `null`, a moment (whose ISO text it
      returns), or a RangeError thrown by `toISOString` on an Invalid Date. */
  datatype Built = NoSchedule | Scheduled(at: DateTime) | Throws

  /** `Number(hour)` is a finite number in 1..12. */
  predicate HourAccepted(hour: string) {
    var n := StringToNumber(hour);
    n.Some? && 1 <= n.value <= 12
  }

  /** The moment the picker fields denote: nothing when a field is empty or
      the hour is not in 1..12; an error when the date is not a calendar date
      or the minute is not a number; otherwise the date at the 24-hour value
      of the hour and the minute. */
  function ScheduleFor(s: Schedule12): (r: Built)
    ensures r.Scheduled? ==> ValidDateTime(r.at)
  {
    if s.date == "" || s.hour == "" || s.minute == "" || !HourAccepted(s.hour) then NoSchedule
    else if ParseDate(s.date).None? || StringToNumber(s.minute).None? then Throws
    else Scheduled(SetTime(ParseDate(s.date).value, To24(StringToNumber(s.hour).value, s.period),
                           StringToNumber(s.minute).value))
  }

  /** `buildScheduleIso(date, hour, minute, period)` */
  method BuildScheduleIso(date: string, hour: string, minute: string, period: Period) returns (r: Built)
    ensures r == ScheduleFor(Schedule12(date, hour, minute, period))
  {
    if date == "" || hour == "" || minute == "" {
      return NoSchedule;
    }
    var hour12 := StringToNumber(hour);
    if hour12.None? || hour12.value < 1 || hour12.value > 12 {
      return NoSchedule;
    }
    var hour24 := hour12.value % 12;
    if period == PM {
      hour24 := hour24 + 12;
    }
    assert HourAccepted(hour) && hour24 == To24(hour12.value, period);
    var day := ParseDate(date);
    var minutes := StringToNumber(minute);
    if day.None? || minutes.None? {
      return Throws;
    }
    r := Scheduled(SetTime(day.value, hour24, minutes.value));
  }

  // ---------------------------------------------------------------- properties

  /** `null` exactly when a field is empty or the hour is out of 1..12. */
  lemma NoScheduleIff(s: Schedule12)
    ensures ScheduleFor(s) == NoSchedule <==>
              s.date == "" || s.hour == "" || s.minute == ""
              || StringToNumber(s.hour).None? || StringToNumber(s.hour).value < 1 || StringToNumber(s.hour).value > 12
  {
  }

  /** With a minute in 0..59, the moment lies on the chosen date and its hour
      is the 24-hour value of the chosen hour and period. */
  lemma ScheduledOnChosenDay(s: Schedule12)
    requires ScheduleFor(s).Scheduled?
    requires 0 <= StringToNumber(s.minute).value < 60
    ensures ScheduleFor(s).at.date == ParseDate(s.date).value
    ensures ScheduleFor(s).at.hour == To24(StringToNumber(s.hour).value, s.period)
    ensures ScheduleFor(s).at.minute == StringToNumber(s.minute).value
  {
  }

  /** Fields whose date parses, whose hour reads as 1..12 and whose minute
      reads as 0..59 denote that date at that time. */
  lemma ScheduleForWellFormed(s: Schedule12, hour12: int, minute: int)
    requires ParseDate(s.date).Some?
    requires StringToNumber(s.hour) == Some(hour12) && 1 <= hour12 <= 12
    requires s.minute != "" && StringToNumber(s.minute) == Some(minute) && 0 <= minute < 60
    ensures ScheduleFor(s) == Scheduled(DateTime(ParseDate(s.date).value, To24(hour12, s.period), minute))
  {
    assert s.date != "" && s.hour != "";
  }

  /** Filled fields with an accepted hour and a date that does not parse make
      `toISOString` throw. */
  lemma ScheduleForBadDate(s: Schedule12)
    requires s.date != "" && s.hour != "" && s.minute != "" && HourAccepted(s.hour)
    requires ParseDate(s.date).None?
    ensures ScheduleFor(s) == Throws
  {
  }

  /** Decoding a moment and encoding the fields gives the moment back, for
      years written with four digits. */
  lemma {:induction false} EncodeDecode(dt: DateTime)
    requires ValidDateTime(dt) && 1000 <= dt.date.year <= 9999
    ensures ScheduleFor(FieldsOf(dt)) == Scheduled(dt)
  {
    var f := FieldsOf(dt);
    FieldsOfShape(dt);
    ParseFormatDate(dt.date);
    StringToNumberOfDigits(f.hour);
    StringToNumberOfDigits(f.minute);
    ScheduleForWellFormed(f, DigitsValue(f.hour), dt.minute);
  }

  /** Encoding well-formed picker fields and decoding the moment gives the
      fields back: a `YYYY-MM-DD` date with a four-digit year, an hour
      "01".."12" and a minute "00".."59". */
  lemma {:induction false} DecodeEncode(s: Schedule12)
    requires ParseDate(s.date).Some? && ParseDate(s.date).value.year >= 1000
    requires |s.hour| == 2 && AllDigits(s.hour) && 1 <= DigitsValue(s.hour) <= 12
    requires |s.minute| == 2 && AllDigits(s.minute) && DigitsValue(s.minute) < 60
    ensures ScheduleFor(s).Scheduled?
    ensures ScheduleFor(s).at.date == ParseDate(s.date).value
    ensures FieldsOf(ScheduleFor(s).at) == s
  {
    var h, m := DigitsValue(s.hour), DigitsValue(s.minute);
    StringToNumberOfDigits(s.hour);
    StringToNumberOfDigits(s.minute);
    ScheduleForWellFormed(s, h, m);
    FormatParsedDate(s.date);
    TwoDigitsRoundTrip(s.hour);
    TwoDigitsRoundTrip(s.minute);
    HourRoundTrip12(h, s.period);
  }

  /** The decoder writes the year without padding, so a moment in a year
      below 1000 decodes to a date the encoder cannot read, and saving the
      unchanged fields throws. */
  lemma ShortYearDoesNotRoundTrip(dt: DateTime)
    requires ValidDateTime(dt) && 0 <= dt.date.year < 1000
    ensures ScheduleFor(FieldsOf(dt)) == Throws
  {
    var f := FieldsOf(dt);
    FieldsOfShape(dt);
    StringToNumberOfDigits(f.hour);
    ShortYearUnparsable(dt.date);
    ScheduleForBadDate(f);
  }

  // ---------------------------------------------------------------- ISO text

  /** `s.padStart(width, "0")` */
  function PadStart(s: string, width: nat): (r: string)
    ensures |r| == if |s| >= width then |s| else width
    decreases width - |s|
  {
    if |s| >= width then s else PadStart("0" + s, width)
  }

  /** The year as `toISOString` writes it: four digits, or a sign and six digits. */
  function IsoYear(y: int): string {
    if 0 <= y <= 9999 then PadStart(Digits(y), 4)
    else (if y < 0 then "-" else "+") + PadStart(Digits(if y < 0 then -y else y), 6)
  }

  /** `toISOString()` of a moment, with local time taken as UTC. */
  function IsoString(dt: DateTime): (r: string)
    requires ValidDateTime(dt)
    ensures |r| >= 24 && r[|r| - 8..] == ":00.000Z"
  {
    var head := IsoYear(dt.date.year) + "-" + Pad2(Digits(dt.date.month)) + "-" + Pad2(Digits(dt.date.day))
                + "T" + Pad2(Digits(dt.hour)) + ":" + Pad2(Digits(dt.minute));
    var tail := ":00.000Z";
    assert |head| >= 16;
    assert (head + tail)[|head + tail| - 8..] == tail;
    head + tail
  }

  /** A parser that reads every ISO text back as the moment it was written
      from, as `new Date(iso)` does when local time is UTC. */
  ghost predicate ReadsIso(parse: DateParser) {
    forall dt :: ValidDateTime(dt) ==> parse(IsoString(dt)) == Some(dt)
  }

  /** For a four-digit year the ISO text starts with the picker's date text,
      so a saved schedule shows the same day when the dialog is reopened. */
  lemma IsoStartsWithDate(dt: DateTime)
    requires ValidDateTime(dt) && 1000 <= dt.date.year <= 9999
    ensures IsoString(dt)[..10] == FormatDate(dt.date)
  {
    FourDigits(dt.date.year);
    Pad2Digits(dt.date.month);
    Pad2Digits(dt.date.day);
    var f := FormatDate(dt.date);
    assert |f| == 10;
    assert IsoString(dt) == f + ("T" + Pad2(Digits(dt.hour)) + ":" + Pad2(Digits(dt.minute)) + ":00.000Z");
  }

  /** The ISO text is never blank: it ends with the `Z` of UTC. */
  lemma IsoNotBlank(dt: DateTime)
    requires ValidDateTime(dt)
    ensures !Blank(IsoString(dt)) && Trim(IsoString(dt)) != ""
  {
    var iso := IsoString(dt);
    var head := IsoYear(dt.date.year) + "-" + Pad2(Digits(dt.date.month)) + "-" + Pad2(Digits(dt.date.day))
                + "T" + Pad2(Digits(dt.hour)) + ":" + Pad2(Digits(dt.minute));
    var tail := ":00.000Z";
    assert iso == head + tail;
    assert iso[|iso| - 1] == tail[7] == 'Z';
    TrimEmptyIffBlank(iso);
  }

  /** The ISO text of a moment with a four-digit year decodes to the picker
      fields of that moment, provided the date parser reads ISO text back. */
  lemma DecodeIso(dt: DateTime, parse: DateParser)
    requires ReadsIso(parse) && ValidDateTime(dt) && 1000 <= dt.date.year <= 9999
    ensures ParseScheduleTo12H(Str(IsoString(dt)), parse) == FieldsOf(dt)
  {
    var iso := IsoString(dt);
    IsoNotBlank(dt);
    assert iso != "";
    ParsedSchedule(iso, dt, parse);
  }

  /** Text that parses to a moment decodes to that moment's picker fields. */
  lemma ParsedSchedule(text: string, dt: DateTime, parse: DateParser)
    requires text != "" && parse(text) == Some(dt)
    ensures ParseScheduleTo12H(Str(text), parse) == FieldsOf(dt)
  {
  }
}
