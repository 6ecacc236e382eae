/** The schedule bucketer of the lead and job lists (`groupLeadsBySchedule`
    and `groupBySchedule`, written alike): every record goes into exactly one
    of eight groups by an ordered list of date rules relative to today. */
module Buckets {
  import opened Values
  import opened Fields
  import opened Calendar
  import opened ScheduleCodec

  datatype Bucket = Today | Tomorrow | ThisWeek | ThisMonth | NextMonth | Later | Earlier | Unscheduled

  /** The order in which the groups are shown. */
  const DisplayOrder: seq<Bucket> := [Today, Tomorrow, ThisWeek, ThisMonth, NextMonth, Later, Earlier, Unscheduled]

  /** The keys the schedule is read from. */
  const ScheduleKeys: seq<string> := ["ScheduledOn", "scheduledOn"]

  /** `getScheduleDate(rec)`: the local day of the record's schedule, or none
      when the field is missing, blank, not a string or not a valid moment. */
  function ScheduleDate(rec: Record, parse: DateParser): (r: Option<Date>)
    ensures r.Some? ==> ValidDate(r.value)
    ensures var raw := GetField(rec, ScheduleKeys, Str(""));
            r.None? <==> Falsy(raw) || !raw.Str? || parse(raw.s).None?
    ensures var raw := GetField(rec, ScheduleKeys, Str(""));
            r.Some? ==> raw.Str? && parse(raw.s).Some? && r.value == parse(raw.s).value.date
  {
    var raw := GetField(rec, ScheduleKeys, Str(""));
    if Falsy(raw) || !raw.Str? then None
    else
      match parse(raw.s)
      case None => None
      case Some(dt) => Some(dt.date)
  }

  /** The dates the rules compare with, all at local midnight. */
  datatype Bounds = Bounds(today: Date, tomorrow: Date, endOfWeek: Date, nextMonthStart: Date, monthAfterNextStart: Date)

  /** Tomorrow, the coming Saturday, and the first days of the next two months. */
  function BoundsOf(today: Date): (r: Bounds)
    requires ValidDate(today)
    ensures r.today == today && Before(r.today, r.tomorrow) && !Before(r.endOfWeek, r.today)
    ensures Before(r.today, r.nextMonthStart) && Before(r.nextMonthStart, r.monthAfterNextStart)
  {
    MonthStartNext(today);
    MonthStartAfterNext(today);
    Bounds(today, AddDays(today, 1), AddDays(today, 6 - Weekday(today)),
           MonthStart(today.year, today.month), MonthStart(today.year, today.month + 1))
  }

  /** The first rule that applies to a schedule day, tried in the source's order. */
  function BucketOf(day: Option<Date>, bounds: Bounds): (r: Bucket)
    ensures r == Unscheduled <==> day.None?
    ensures r == Today <==> day == Some(bounds.today)
    ensures bounds.today != bounds.tomorrow ==> (r == Tomorrow <==> day == Some(bounds.tomorrow))
  {
    if day.None? then Unscheduled
    else
      var d, today := day.value, bounds.today;
      if d == today then Today
      else if d == bounds.tomorrow then Tomorrow
      else if Before(bounds.tomorrow, d) && !Before(bounds.endOfWeek, d) then ThisWeek
      else if d.month == today.month && d.year == today.year then ThisMonth
      else if !Before(d, bounds.nextMonthStart) && Before(d, bounds.monthAfterNextStart) then NextMonth
      else if Before(d, today) then Earlier
      else Later
  }

  /** The group a record is pushed into. */
  function Place(rec: Record, bounds: Bounds, parse: DateParser): (r: Bucket)
    ensures var raw := GetField(rec, ScheduleKeys, Str(""));
            r == Unscheduled <==> Falsy(raw) || !raw.Str? || parse(raw.s).None?
  {
    BucketOf(ScheduleDate(rec, parse), bounds)
  }

  /** A record with no schedule field, or only blank ones, is unscheduled. */
  lemma MissingScheduleIsUnscheduled(rec: Record, bounds: Bounds, parse: DateParser)
    requires forall i :: 0 <= i < |ScheduleKeys| ==> !Present(rec, ScheduleKeys[i])
    ensures Place(rec, bounds, parse) == Unscheduled
  {
    assert GetField(rec, ScheduleKeys, Str("")) == Str("");
  }

  /** A schedule text that is not blank is the day of the moment it parses
      to, and a record whose schedule text does not parse is unscheduled. */
  lemma StoredScheduleDay(rec: Record, text: string, bounds: Bounds, parse: DateParser)
    requires "ScheduledOn" in rec && rec["ScheduledOn"] == Str(text) && Trim(text) != ""
    ensures parse(text).Some? ==> ScheduleDate(rec, parse) == Some(parse(text).value.date)
    ensures parse(text).None? ==> Place(rec, bounds, parse) == Unscheduled
  {
    StoredTextReadsBack(rec, text);
    assert text != "";
  }

  /** Text that is not blank, stored under `ScheduledOn`, is what `getField` reads. */
  lemma StoredTextReadsBack(rec: Record, text: string)
    requires "ScheduledOn" in rec && rec["ScheduledOn"] == Str(text) && Trim(text) != ""
    ensures GetField(rec, ScheduleKeys, Str("")) == Str(text)
  {
    assert Present(rec, ScheduleKeys[0]);
    GetFieldFirst(rec, ScheduleKeys, Str(""));
  }


  /** The placement of records used by one grouping: `Place` for a fixed
      today and parser. */
  function Placer(today: Date, parse: DateParser): Record -> Bucket
    requires ValidDate(today)
  {
    var bounds := BoundsOf(today);
    rec => Place(rec, bounds, parse)
  }

  /** The records of `items` that `place` puts in `b`, in input order. */
  function Members(items: seq<Record>, b: Bucket, place: Record -> Bucket): (r: seq<Record>)
    ensures |r| <= |items|
  {
    if items == [] then []
    else
      var last := items[|items| - 1];
      Members(items[..|items| - 1], b, place) + (if place(last) == b then [last] else [])
  }

  /** `groupBySchedule(items)`: one list per group, each filled by pushing the
      records in input order. */
  method GroupBySchedule(items: seq<Record>, today: Date, parse: DateParser) returns (groups: map<Bucket, seq<Record>>)
    requires ValidDate(today)
    ensures forall b :: b in groups && groups[b] == Members(items, b, Placer(today, parse))
  {
    var place := Placer(today, parse);
    groups := map[Today := [], Tomorrow := [], ThisWeek := [], ThisMonth := [], NextMonth := [],
                  Later := [], Earlier := [], Unscheduled := []];
    assert items[..0] == [];
    forall b: Bucket ensures b in groups && groups[b] == Members(items[..0], b, place) {
      match b
      case Today => case Tomorrow => case ThisWeek => case ThisMonth =>
      case NextMonth => case Later => case Earlier => case Unscheduled =>
    }
    for i := 0 to |items|
      invariant forall b :: b in groups && groups[b] == Members(items[..i], b, place)
    {
      assert items[..i + 1][..i] == items[..i];
      var b := place(items[i]);
      groups := groups[b := groups[b] + [items[i]]];
    }
    assert items[..|items|] == items;
  }

  // ---------------------------------------------------------------- exactly one group

  /** No group is listed twice. */
  predicate Distinct(bs: seq<Bucket>) {
    forall i, j :: 0 <= i < j < |bs| ==> bs[i] != bs[j]
  }

  /** The groups `bs` one after the other. */
  function Concat(items: seq<Record>, bs: seq<Bucket>, place: Record -> Bucket): seq<Record> {
    if bs == [] then [] else Members(items, bs[0], place) + Concat(items, bs[1..], place)
  }

  /** Pushing a record onto the input appends it to the group it is placed in. */
  lemma MembersStep(items: seq<Record>, x: Record, b: Bucket, place: Record -> Bucket)
    ensures Members(items + [x], b, place) == Members(items, b, place) + (if place(x) == b then [x] else [])
  {
    assert (items + [x])[..|items + [x]| - 1] == items;
  }

  lemma {:induction false} ConcatOfNone(bs: seq<Bucket>, place: Record -> Bucket)
    ensures Concat([], bs, place) == []
    decreases |bs|
  {
    if bs != [] {
      ConcatOfNone(bs[1..], place);
    }
  }

  /** The listed groups hold the first group's records and the rest's. */
  lemma ConcatUnfold(items: seq<Record>, bs: seq<Bucket>, place: Record -> Bucket)
    requires bs != []
    ensures multiset(Concat(items, bs, place))
            == multiset(Members(items, bs[0], place)) + multiset(Concat(items, bs[1..], place))
  {
  }

  /** Appending a record to the input adds it once to the listed groups when
      its group is among them, and not at all otherwise. */
  lemma {:induction false} ConcatStep(items: seq<Record>, x: Record, bs: seq<Bucket>, place: Record -> Bucket)
    requires Distinct(bs)
    ensures multiset(Concat(items + [x], bs, place))
            == multiset(Concat(items, bs, place)) + (if place(x) in bs then multiset{x} else multiset{})
    decreases |bs|
  {
    if bs != [] {
      var rest := bs[1..];
      assert Distinct(rest);
      ConcatStep(items, x, rest, place);
      MembersStep(items, x, bs[0], place);
      ConcatUnfold(items + [x], bs, place);
      ConcatUnfold(items, bs, place);
      assert place(x) in bs <==> place(x) == bs[0] || place(x) in rest;
      if bs[0] == place(x) {
        assert place(x) !in rest;
      }
    }
  }

  /** Listed groups that between them take every record hold exactly the
      input records, each once. */
  lemma {:induction false} ConcatPartition(items: seq<Record>, bs: seq<Bucket>, place: Record -> Bucket)
    requires Distinct(bs)
    requires forall x :: x in items ==> place(x) in bs
    ensures multiset(Concat(items, bs, place)) == multiset(items)
    decreases |items|
  {
    if items != [] {
      var x := items[|items| - 1];
      var init := items[..|items| - 1];
      assert items == init + [x];
      assert forall y :: y in init ==> y in items;
      ConcatPartition(init, bs, place);
      ConcatStep(init, x, bs, place);
    } else {
      ConcatOfNone(bs, place);
    }
  }

  /** The groups together hold exactly the input records, each once: the
      group sizes add up to the input length. */
  lemma GroupsPartitionItems(items: seq<Record>, place: Record -> Bucket)
    ensures multiset(Concat(items, DisplayOrder, place)) == multiset(items)
    ensures |Concat(items, DisplayOrder, place)| == |items|
  {
    forall x | x in items ensures place(x) in DisplayOrder {
      match place(x)
      case Today => case Tomorrow => case ThisWeek => case ThisMonth =>
      case NextMonth => case Later => case Earlier => case Unscheduled =>
    }
    ConcatPartition(items, DisplayOrder, place);
    assert |multiset(Concat(items, DisplayOrder, place))| == |Concat(items, DisplayOrder, place)|;
  }

  /** A record is in group `b` exactly when it is an input record that is
      placed in `b`. */
  lemma {:induction false} MembersExactly(items: seq<Record>, b: Bucket, place: Record -> Bucket, x: Record)
    ensures x in Members(items, b, place) <==> x in items && place(x) == b
    decreases |items|
  {
    if items != [] {
      var init := items[..|items| - 1];
      MembersExactly(init, b, place, x);
      assert items == init + [items[|items| - 1]];
    }
  }

  // ---------------------------------------------------------------- input order

  /** The input positions of the records placed in `b`, increasing. */
  function Positions(items: seq<Record>, b: Bucket, place: Record -> Bucket): (r: seq<int>)
    ensures forall k :: 0 <= k < |r| ==> 0 <= r[k] < |items| && place(items[r[k]]) == b
    ensures forall k, l :: 0 <= k < l < |r| ==> r[k] < r[l]
  {
    if items == [] then []
    else
      var n := |items| - 1;
      var p := Positions(items[..n], b, place);
      assert forall k :: 0 <= k < |p| ==> items[..n][p[k]] == items[p[k]];
      p + (if place(items[n]) == b then [n] else [])
  }

  /** Every input position placed in `b` is listed. */
  lemma {:induction false} PositionsComplete(items: seq<Record>, b: Bucket, place: Record -> Bucket, i: int)
    requires 0 <= i < |items| && place(items[i]) == b
    ensures i in Positions(items, b, place)
    decreases |items|
  {
    var n := |items| - 1;
    if i < n {
      assert items[..n][i] == items[i];
      PositionsComplete(items[..n], b, place, i);
    }
  }

  /** Each group lists its records in input order: its k-th record is the
      input record at the k-th increasing position placed in that group. */
  lemma {:induction false} MembersInInputOrder(items: seq<Record>, b: Bucket, place: Record -> Bucket)
    ensures |Members(items, b, place)| == |Positions(items, b, place)|
    ensures forall k :: 0 <= k < |Members(items, b, place)| ==>
              Members(items, b, place)[k] == items[Positions(items, b, place)[k]]
    decreases |items|
  {
    if items != [] {
      var n := |items| - 1;
      MembersInInputOrder(items[..n], b, place);
      var p := Positions(items[..n], b, place);
      assert forall k :: 0 <= k < |p| ==> items[..n][p[k]] == items[p[k]];
    }
  }

  // ---------------------------------------------------------------- rule precedence

  lemma AddOneDay(d: Date)
    requires ValidDate(d)
    ensures AddDays(d, 1) == NextDay(d)
  {
    assert AddDays(NextDay(d), 0) == NextDay(d);
  }

  /** `addDays(today, 6 - today.getDay())` is the coming Saturday: a
      Saturday no earlier than today with no Saturday from today up to it;
      tomorrow on a Friday, today itself on a Saturday. */
  lemma ComingSaturday(today: Date)
    requires ValidDate(today)
    ensures var e := AddDays(today, 6 - Weekday(today));
            && Weekday(e) == 6 && !Before(e, today)
            && (forall x :: ValidDate(x) && !Before(x, today) && Before(x, e) ==> Weekday(x) != 6)
            && (Weekday(today) == 5 ==> e == NextDay(today))
            && (Weekday(today) == 6 ==> e == today)
  {
    var w := Weekday(today);
    var e := AddDays(today, 6 - w);
    WeekdayAddDays(today, 6 - w);
    assert Weekday(e) == 6;
    forall x | ValidDate(x) && !Before(x, today) && Before(x, e)
      ensures Weekday(x) != 6
    {
      WeekdayWithinWeek(today, 6 - w, x);
    }
    if w == 5 {
      AddOneDay(today);
    } else if w == 6 {
      assert e == today;
    }
  }

  /** The week bounds of a day: tomorrow is the next day, and the end of the
      week is the coming Saturday (tomorrow on a Friday, today on a
      Saturday). */
  lemma WeekBounds(today: Date)
    requires ValidDate(today)
    ensures var b := BoundsOf(today);
            && b.today == today && b.tomorrow == NextDay(today)
            && Weekday(b.endOfWeek) == 6 && !Before(b.endOfWeek, today)
            && (forall x :: ValidDate(x) && !Before(x, today) && Before(x, b.endOfWeek) ==> Weekday(x) != 6)
            && (Weekday(today) == 5 ==> b.endOfWeek == NextDay(today))
            && (Weekday(today) == 6 ==> b.endOfWeek == today)
  {
    AddOneDay(today);
    ComingSaturday(today);
  }

  /** The month bounds of a day: the first days of the next month and of the
      month after. */
  lemma MonthBounds(today: Date)
    requires ValidDate(today)
    ensures var b := BoundsOf(today);
            && b.today == today && b.tomorrow == NextDay(today)
            && b.nextMonthStart == (if today.month < 12 then Date(today.year, today.month + 1, 1) else Date(today.year + 1, 1, 1))
            && b.monthAfterNextStart == (if today.month < 11 then Date(today.year, today.month + 2, 1)
                                         else if today.month == 11 then Date(today.year + 1, 1, 1)
                                         else Date(today.year + 1, 2, 1))
  {
    AddOneDay(today);
    MonthStartNext(today);
    MonthStartAfterNext(today);
  }

  /** On a Friday or a Saturday the coming Saturday is no later than
      tomorrow, so nothing is placed in "This Week". */
  lemma NoThisWeekOnFridayOrSaturday(d: Date, today: Date)
    requires ValidDate(today) && Weekday(today) >= 5
    ensures BucketOf(Some(d), BoundsOf(today)) != ThisWeek
  {
    WeekBounds(today);
  }

  /** "This Week" is the days after tomorrow up to the coming Saturday. */
  lemma ThisWeekBeforeSaturday(d: Date, today: Date)
    requires ValidDate(today)
    requires BucketOf(Some(d), BoundsOf(today)) == ThisWeek
    ensures Before(NextDay(today), d)
    ensures !Before(BoundsOf(today).endOfWeek, d) && Weekday(BoundsOf(today).endOfWeek) == 6
    ensures forall x :: ValidDate(x) && !Before(x, today) && Before(x, BoundsOf(today).endOfWeek) ==> Weekday(x) != 6
  {
    WeekBounds(today);
  }

  /** A day is placed in "This Week" exactly when it is two to
      `6 - today.getDay()` days after today: the rest of the week after
      tomorrow, up to Saturday. */
  lemma ThisWeekIsRestOfWeek(d: Date, today: Date)
    requires ValidDate(today) && ValidDate(d)
    ensures BucketOf(Some(d), BoundsOf(today)) == ThisWeek <==>
              exists j :: 2 <= j <= 6 - Weekday(today) && d == AddDays(today, j)
  {
    if BucketOf(Some(d), BoundsOf(today)) == ThisWeek {
      var j := ThisWeekOffset(d, today);
    }
    if exists j :: 2 <= j <= 6 - Weekday(today) && d == AddDays(today, j) {
      var j :| 2 <= j <= 6 - Weekday(today) && d == AddDays(today, j);
      OffsetInThisWeek(today, j);
    }
  }

  /** A day in "This Week" is two to `6 - today.getDay()` days after today. */
  lemma ThisWeekOffset(d: Date, today: Date) returns (j: nat)
    requires ValidDate(today) && ValidDate(d)
    requires BucketOf(Some(d), BoundsOf(today)) == ThisWeek
    ensures 2 <= j <= 6 - Weekday(today) && d == AddDays(today, j)
  {
    var w := Weekday(today);
    var tomorrow, e := AddDays(today, 1), AddDays(today, 6 - w);
    assert Before(tomorrow, d) && !Before(e, d);
    AddOneDay(today);
    BeforeTrans(today, tomorrow, d);
    if d == e {
      j := 6 - w;
    } else {
      j := BetweenIsOffset(today, 6 - w, d);
      assert AddDays(today, 0) == today;
    }
  }

  /** Two to `6 - today.getDay()` days after today is "This Week". */
  lemma OffsetInThisWeek(today: Date, j: int)
    requires ValidDate(today) && 2 <= j <= 6 - Weekday(today)
    ensures BucketOf(Some(AddDays(today, j)), BoundsOf(today)) == ThisWeek
  {
    var w := Weekday(today);
    var d, tomorrow, e := AddDays(today, j), AddDays(today, 1), AddDays(today, 6 - w);
    AddDaysAdd(today, 1, j - 1);
    AddDaysAdd(today, j, 6 - w - j);
    assert Before(tomorrow, d) && !Before(e, d);
    assert Before(today, tomorrow);
    BeforeTrans(today, tomorrow, d);
  }

  /** A day already past in the current month is shown under "This Month":
      that rule is tried before "Earlier". */
  lemma PastDayOfThisMonth(d: Date, today: Date)
    requires ValidDate(today) && ValidDate(d)
    requires d.year == today.year && d.month == today.month && d.day < today.day
    ensures BucketOf(Some(d), BoundsOf(today)) == ThisMonth
  {
    MonthBounds(today);
  }

  /** "Earlier" holds only days before the first of the current month. */
  lemma EarlierBeforeThisMonth(d: Date, today: Date)
    requires ValidDate(today)
    requires BucketOf(Some(d), BoundsOf(today)) == Earlier
    ensures Before(d, Date(today.year, today.month, 1))
  {
    MonthBounds(today);
  }

  /** "Next Month" holds exactly the days of the next calendar month that
      are not tomorrow or this week. */
  lemma NextMonthIsNextCalendarMonth(d: Date, today: Date)
    requires ValidDate(today) && ValidDate(d)
    ensures BucketOf(Some(d), BoundsOf(today)) == NextMonth <==>
              var next := BoundsOf(today).nextMonthStart;
              d.year == next.year && d.month == next.month
              && BucketOf(Some(d), BoundsOf(today)) != ThisWeek && d != NextDay(today)
  {
    MonthBounds(today);
  }

  /** "Later" holds only days from the first of the month after next on. */
  lemma LaterFromMonthAfterNext(d: Date, today: Date)
    requires ValidDate(today) && ValidDate(d)
    requires BucketOf(Some(d), BoundsOf(today)) == Later
    ensures !Before(d, BoundsOf(today).monthAfterNextStart)
  {
    MonthBounds(today);
    var b := BoundsOf(today);
    assert d != today && !Before(d, today) && !(d.month == today.month && d.year == today.year);
    assert !Before(d, b.nextMonthStart);
  }
}
