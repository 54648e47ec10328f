/** Cron days here and in the crontab utility of IEEE Std 1003.1, INPUT FILES section (apps/cli/src/schedule.ts). */
module CrontabStandard {
  import opened Options
  import opened Splitting
  import opened Text
  import opened Decimals
  import opened CronField
  import opened Schedule

  // ---- the calendar ---------------------------------------------------------------------------------------

  predicate IsLeap(year: int) { year % 4 == 0 && (year % 100 != 0 || year % 400 == 0) }

  /** How many days a month has; months are counted from 0. */
  function DaysIn(year: int, month: nat): nat {
    if month == 1 then (if IsLeap(year) then 29 else 28)
    else if month == 3 || month == 5 || month == 8 || month == 10 then 30
    else 31
  }

  /** The days of a year that begins in March, before the given month and date. */
  function DayOfYear(month: nat, date: nat): int {
    (153 * ((month + 10) % 12) + 2) / 5 + date - 1
  }

  /** The year that contains the preceding 1 March. */
  function MarchYear(year: int, month: nat): int { if month < 2 then year - 1 else year }

  /** The days from 1 March of the year 0 to 1 March of the year `y`. */
  function DaysBefore(y: int): int { 365 * y + y / 4 - y / 100 + y / 400 }

  /** The day of the week, from Sunday: the days since 1 March of the year 0, which was a Wednesday. */
  function Weekday(year: int, month: nat, date: nat): nat {
    var y := MarchYear(year, month);
    (DaysBefore(y) + DayOfYear(month, date) + 3) % 7
  }

  /** The day after: of the same month, of the next one, or of the next year. */
  function Tomorrow(year: int, month: nat, date: nat): (int, nat, nat) {
    if date < DaysIn(year, month) then (year, month, date + 1)
    else if month < 11 then (year, month + 1, 1)
    else (year + 1, 0, 1)
  }

  /** Days of the week follow each other through every month and every year, leap years too. */
  lemma WeekdaysFollow(year: int, month: nat, date: nat)
    requires month <= 11 && 1 <= date <= DaysIn(year, month)
    ensures
      var (y, m, d) := Tomorrow(year, month, date);
      Weekday(y, m, d) == (Weekday(year, month, date) + 1) % 7
  {
    hide DaysBefore, DayOfYear, DaysIn, IsLeap;
    var (y, m, d) := Tomorrow(year, month, date);
    DayAfter(year, month, date);
    OneLater(DaysBefore(MarchYear(year, month)) + DayOfYear(month, date) + 3);
  }

  lemma OneLater(n: int)
    ensures (n + 1) % 7 == (n % 7 + 1) % 7
  {
  }

  lemma DayAfter(year: int, month: nat, date: nat)
    requires month <= 11 && 1 <= date <= DaysIn(year, month)
    ensures
      var (y, m, d) := Tomorrow(year, month, date);
      DaysBefore(MarchYear(y, m)) + DayOfYear(m, d) == DaysBefore(MarchYear(year, month)) + DayOfYear(month, date) + 1
  {
    hide DaysBefore, DayOfYear;
    if date < DaysIn(year, month) {
      NextDate(month, date);
    } else if month == 1 {
      YearLength(year - 1);
      MonthEnds(month, date);
    } else {
      MonthEnds(month, date);
    }
  }

  lemma NextDate(month: nat, date: nat)
    ensures DayOfYear(month, date + 1) == DayOfYear(month, date) + 1
  {
  }

  /** The months of a year that begins in March, but for the last one, in days. */
  lemma MonthEnds(month: nat, date: nat)
    requires month <= 11
    requires month != 1 ==> date == if month == 3 || month == 5 || month == 8 || month == 10 then 30 else 31
    ensures month != 1 ==> DayOfYear((month + 1) % 12, 1) == DayOfYear(month, date) + 1
    ensures DayOfYear(2, 1) == 0 && DayOfYear(1, 28) == 364 && DayOfYear(1, 29) == 365
  {
  }

  /** A March year has 365 days, or 366 when it ends with a leap day. */
  lemma YearLength(y: int)
    ensures DaysBefore(y + 1) - DaysBefore(y) == if IsLeap(y + 1) then 366 else 365
  {
    EveryFourth(y);
    EveryHundredth(y);
    EveryFourHundredth(y);
    Multiples(y + 1);
  }

  lemma EveryFourth(y: int)
    ensures (y + 1) / 4 - y / 4 == if (y + 1) % 4 == 0 then 1 else 0
  {
  }

  lemma EveryHundredth(y: int)
    ensures (y + 1) / 100 - y / 100 == if (y + 1) % 100 == 0 then 1 else 0
  {
  }

  lemma EveryFourHundredth(y: int)
    ensures (y + 1) / 400 - y / 400 == if (y + 1) % 400 == 0 then 1 else 0
  {
  }

  lemma Multiples(y: int)
    ensures y % 400 == 0 ==> y % 100 == 0
    ensures y % 100 == 0 ==> y % 4 == 0
  {
  }

  /** What a clock can show. */
  predicate RealTime(w: Wall) {
    && w.month <= 11 && 1 <= w.date <= DaysIn(w.year, w.month) && w.day == Weekday(w.year, w.month, w.date)
    && w.hours <= 23 && w.minutes <= 59
  }

  /** A March year whose length so far leaves remainder `r`. */
  function YearWith(r: nat): (y: int)
    requires r < 7
    ensures DaysBefore(y) % 7 == r
  {
    if r == 0 then 2006 else if r == 1 then 2001 else if r == 2 then 2002 else if r == 3 then 2003
    else if r == 4 then 2009 else if r == 5 then 2004 else 2005
  }

  /** Every first of a month, and every date in January, falls on every day of the week. */
  lemma SomeYear(month: nat, date: nat, day: nat) returns (year: int)
    requires month <= 11 && (date == 1 || (month == 0 && 1 <= date <= 31)) && day <= 6
    ensures Weekday(year, month, date) == day && date <= DaysIn(year, month)
  {
    hide YearWith, DayOfYear, IsLeap;
    var k := DayOfYear(month, date) + 3;
    var y := YearWith((day - k) % 7);
    year := if month < 2 then y + 1 else y;
    Shift(DaysBefore(y), k, day);
  }

  lemma Shift(s: int, k: int, day: nat)
    requires day < 7 && s % 7 == (day - k) % 7
    ensures (s + k) % 7 == day
  {
  }

  // ---- the two rules --------------------------------------------------------------------------------------

  function FieldsOf(spec: string): seq<string> { SplitSpace(Trim(spec)) }

  /** A field is an asterisk, or else an element or a list. */
  predicate IsAsterisk(field: string) { field == "*" }

  /** The days the standard matches: four cases, in its own order. */
  predicate StandardDay(fields: seq<string>, c: Cron, w: Wall)
    requires |fields| == 5
  {
    var monthAndDate := w.month + 1 in c.month && w.date in c.dom;
    if IsAsterisk(fields[3]) && IsAsterisk(fields[2]) && IsAsterisk(fields[4]) then true
    else if IsAsterisk(fields[4]) then monthAndDate
    else if IsAsterisk(fields[3]) && IsAsterisk(fields[2]) then w.day in c.dow
    else monthAndDate || w.day in c.dow
  }

  predicate StandardFires(spec: string, w: Wall)
    requires ParseCron(spec).Some?
  {
    var c := ParseCron(spec).value;
    w.minutes in c.minute && w.hours in c.hour && StandardDay(FieldsOf(spec), c, w)
  }

  predicate AllMonths(c: Cron) { CoversRange(c.month, 1, 12) }

  /**
   * The fields the code reads as the standard does: no days of the week are given; or neither months nor days of
   * the month are; or every month is allowed, and days of the month are limited exactly if days of the week are.
   */
  predicate ReadAsStandard(fields: seq<string>, c: Cron)
    requires |fields| == 5
  {
    || IsAsterisk(fields[4])
    || (IsAsterisk(fields[2]) && IsAsterisk(fields[3]))
    || (AllMonths(c) && (c.domRestricted <==> c.dowRestricted))
  }

  // ---- what the fields of an accepted expression allow ----------------------------------------------------

  /** The values of a field, all in range; an asterisk allows them all, and no field allows none. */
  ghost predicate Allows(field: string, lo: nat, hi: nat, values: seq<nat>) {
    && Ascending(values) && values != [] && (forall v <- values :: lo <= v <= hi)
    && (IsAsterisk(field) ==> forall v :: lo <= v <= hi ==> v in values)
  }

  lemma FieldAllows(raw: string, lo: nat, hi: nat)
    requires lo <= hi
    ensures Field(raw, lo, hi).Some? ==> Allows(raw, lo, hi, Field(raw, lo, hi).value)
  {
    hide Field, PrintField, ReadItems;
    FieldShape(raw, lo, hi);
    var read := ReadItems(SplitOn(raw, ','));
    if read.None? {
      FieldNone(raw, lo, hi);
    } else {
      FieldTextIffPrinted(raw, read.value);
      FieldMeaning(read.value, lo, hi);
      if Field(raw, lo, hi).Some? {
        var values := Field(raw, lo, hi).value;
        var i := read.value[0];
        assert i in read.value && InField(StrideOf(i, lo, hi), lo, hi);
        assert Denotes(StrideOf(i, lo, hi), StrideOf(i, lo, hi).start);
        assert StrideOf(i, lo, hi).start in values;
        if IsAsterisk(raw) {
          StarIsOneItem(read.value);
          forall v | lo <= v <= hi ensures v in values { assert Denotes(StrideOf(i, lo, hi), v); }
        }
      }
    }
  }

  lemma StarIsOneItem(items: seq<Item>)
    requires ReadItems(SplitOn("*", ',')) == Some(items)
    ensures items == [Item(Star, None)]
  {
    hide ReadItems;
    var star := [Item(Star, None)];
    assert PrintItem(star[0]) == "*" && PrintField(star) == "*";
    FieldTextIffPrinted("*", star);
  }

  /** The values of the fields of an accepted expression; `dow` allows 0 to 6. */
  lemma CronAllows(spec: string)
    requires ParseCron(spec).Some?
    ensures
      var fields, c := FieldsOf(spec), ParseCron(spec).value;
      && |fields| == 5
      && Allows(fields[0], 0, 59, c.minute) && Allows(fields[1], 0, 23, c.hour)
      && Allows(fields[2], 1, 31, c.dom) && Allows(fields[3], 1, 12, c.month) && Allows(fields[4], 0, 6, c.dow)
      && (AllMonths(c) <==> forall v :: 1 <= v <= 12 ==> v in c.month)
      && (!c.domRestricted <==> forall v :: 1 <= v <= 31 ==> v in c.dom)
      && (!c.dowRestricted <==> forall v :: 0 <= v <= 6 ==> v in c.dow)
  {
    hide Field, Week, SplitSpace, Trim, CoversRange;
    var fields, c := FieldsOf(spec), ParseCron(spec).value;
    FieldAllows(fields[0], 0, 59);
    FieldAllows(fields[1], 0, 23);
    FieldAllows(fields[2], 1, 31);
    FieldAllows(fields[3], 1, 12);
    FieldAllows(fields[4], 0, 7);
    WeekAllows(fields[4], Field(fields[4], 0, 7).value);
    CoversIffAll(c.month, 1, 12);
    CoversIffAll(c.dom, 1, 31);
    CoversIffAll(c.dow, 0, 6);
  }

  lemma WeekAllows(field: string, raw: seq<nat>)
    requires Allows(field, 0, 7, raw)
    ensures Allows(field, 0, 6, Week(raw))
  {
    hide Week;
    WeekMeaning(raw);
    var first := raw[0];
    assert first in raw;
    assert (if first == 7 then 0 else first) in Week(raw);
    if IsAsterisk(field) {
      forall v | 0 <= v <= 6 ensures v in Week(raw) { assert v in raw; }
    }
  }

  // ---- where they agree -----------------------------------------------------------------------------------

  lemma AgreeAt(spec: string, w: Wall)
    requires ParseCron(spec).Some? && RealTime(w)
    requires |FieldsOf(spec)| == 5 && ReadAsStandard(FieldsOf(spec), ParseCron(spec).value)
    ensures Fires(spec, w) <==> StandardFires(spec, w)
  {
    hide ParseCron, SplitSpace, Trim, CoversRange, AllMonths, Weekday;
    CronAllows(spec);
    RealDate(w);
  }

  lemma RealDate(w: Wall)
    requires RealTime(w)
    ensures w.month <= 11 && 1 <= w.date <= 31 && w.day <= 6
  {
  }

  /** When the fields are not read as the standard reads them, some minute tells. */
  lemma SomeTimeDiffers(spec: string) returns (w: Wall)
    requires ParseCron(spec).Some? && |FieldsOf(spec)| == 5 && !ReadAsStandard(FieldsOf(spec), ParseCron(spec).value)
    ensures RealTime(w) && !Fires(spec, w) && StandardFires(spec, w)
  {
    hide ParseCron, SplitSpace, Trim, CoversRange, AllMonths, Weekday;
    CronAllows(spec);
    var c := ParseCron(spec).value;
    assert c.minute[0] in c.minute && c.hour[0] in c.hour && c.dow[0] in c.dow;
    var month, date, day := 0, 1, c.dow[0];
    if !AllMonths(c) {
      var m :| 1 <= m <= 12 && m !in c.month;
      month := m - 1;
    } else if c.domRestricted {
      date :| 1 <= date <= 31 && date !in c.dom;
    } else {
      day :| 0 <= day <= 6 && day !in c.dow;
    }
    var year := SomeYear(month, date, day);
    w := Wall(year, month, date, c.hour[0], c.minute[0], day);
  }

  /** The code fires when the standard does, at every time of the calendar, if and only if the fields are read alike. */
  lemma FiresAsStandardIff(spec: string)
    requires ParseCron(spec).Some?
    ensures |FieldsOf(spec)| == 5
    ensures ReadAsStandard(FieldsOf(spec), ParseCron(spec).value) <==>
      forall w :: RealTime(w) ==> (Fires(spec, w) <==> StandardFires(spec, w))
  {
    hide ParseCron, Fires, StandardFires, ReadAsStandard, RealTime;
    FiveFields(spec);
    if ReadAsStandard(FieldsOf(spec), ParseCron(spec).value) {
      forall w | RealTime(w) ensures Fires(spec, w) <==> StandardFires(spec, w) { AgreeAt(spec, w); }
    } else {
      var w := SomeTimeDiffers(spec);
    }
  }

  lemma FiveFields(spec: string)
    requires ParseCron(spec).Some?
    ensures |FieldsOf(spec)| == 5
  {
  }

  /** The code never fires when the standard does not: where they differ, it misses a match. */
  lemma FiresOnlyAsStandard(spec: string, w: Wall)
    requires ParseCron(spec).Some? && RealTime(w) && Fires(spec, w)
    ensures StandardFires(spec, w)
  {
    hide ParseCron, SplitSpace, Trim, CoversRange, AllMonths, Weekday;
    CronAllows(spec);
    RealDate(w);
  }

  // ---- two expressions on which they differ ---------------------------------------------------------------

  /** A field that is one number. */
  lemma NumberField(raw: string, lo: nat, hi: nat)
    requires Decimal(raw).Some? && lo <= Decimal(raw).value <= hi
    ensures Field(raw, lo, hi).Some? && forall v :: v in Field(raw, lo, hi).value <==> v == Decimal(raw).value
  {
    hide Decimal, Field;
    var i := Item(From(raw), None);
    assert PrintItem(i) == raw && PrintField([i]) == raw;
    FieldMeaning([i], lo, hi);
    assert i in [i];
    var n := Decimal(raw).value;
    assert StrideOf(i, lo, hi) == Stride(n, n, 1);
    forall v ensures v in Field(raw, lo, hi).value <==> v == n {
      assert Denotes(StrideOf(i, lo, hi), v) <==> v == n;
    }
  }

  /** A field that is one range. */
  lemma RangeField(first: string, last: string, lo: nat, hi: nat)
    requires Decimal(first).Some? && Decimal(last).Some? && lo <= Decimal(first).value <= Decimal(last).value <= hi
    ensures
      var raw := first + "-" + last;
      Field(raw, lo, hi).Some? &&
      forall v :: v in Field(raw, lo, hi).value <==> Decimal(first).value <= v <= Decimal(last).value
  {
    hide Decimal, Field;
    var raw := first + "-" + last;
    var i := Item(Span(first, last, ""), None);
    assert PrintItem(i) == raw && PrintField([i]) == raw;
    FieldMeaning([i], lo, hi);
    assert i in [i];
    var s := Stride(Decimal(first).value, Decimal(last).value, 1);
    assert StrideOf(i, lo, hi) == s;
    forall v ensures v in Field(raw, lo, hi).value <==> s.start <= v <= s.end {
      assert Denotes(StrideOf(i, lo, hi), v) <==> s.start <= v <= s.end;
    }
  }

  lemma StarField(lo: nat, hi: nat)
    requires lo <= hi
    ensures Field("*", lo, hi).Some? && forall v :: v in Field("*", lo, hi).value <==> lo <= v <= hi
  {
    hide Field;
    var i := Item(Star, None);
    assert PrintItem(i) == "*" && PrintField([i]) == "*";
    FieldMeaning([i], lo, hi);
    assert i in [i];
    forall v ensures v in Field("*", lo, hi).value <==> lo <= v <= hi {
      assert Denotes(StrideOf(i, lo, hi), v) <==> lo <= v <= hi;
    }
  }

  lemma Numerals()
    ensures Decimal("0") == Some(0) && Decimal("1") == Some(1) && Decimal("5") == Some(5)
    ensures Decimal("13") == Some(13) && Decimal("31") == Some(31)
  {
    assert "13"[..1] == "1" && "31"[..1] == "3" && "1"[..0] == "" && "3"[..0] == "";
    assert ValueOf("1") == 1 && ValueOf("3") == 3;
  }

  const ONE_SPACE: seq<string> := [" ", " ", " ", " "]

  lemma SpacedFive(fields: seq<string>)
    requires |fields| == 5
    ensures Spaced(fields, ONE_SPACE) ==
      fields[0] + (" " + (fields[1] + (" " + (fields[2] + (" " + (fields[3] + (" " + fields[4])))))))
  {
    hide Spaced;
    var one := " ";
    assert ONE_SPACE == [one] + ([one] + ([one] + ([one] + [])));
    assert fields == [fields[0]] + ([fields[1]] + ([fields[2]] + ([fields[3]] + [fields[4]])));
    SpacedFirst(fields[0], [fields[1]] + ([fields[2]] + ([fields[3]] + [fields[4]])), [one] + ([one] + ([one] + [])));
    SpacedFirst(fields[1], [fields[2]] + ([fields[3]] + [fields[4]]), [one] + ([one] + []));
    SpacedFirst(fields[2], [fields[3]] + [fields[4]], [one] + []);
    SpacedFirst(fields[3], [fields[4]], []);
    SpacedOne(fields[4]);
  }

  lemma SpacedFirst(first: string, rest: seq<string>, gaps: seq<string>)
    requires rest != [] && |gaps| == |rest| - 1
    ensures Spaced([first] + rest, [" "] + gaps) == first + (" " + Spaced(rest, gaps))
  {
    assert ([first] + rest)[1..] == rest && ([" "] + gaps)[1..] == gaps;
  }

  lemma SpacedOne(field: string)
    ensures Spaced([field], []) == field
  {
  }

  /** An expression of five plain fields is read as these fields. */
  lemma ReadsFive(fields: seq<string>, spec: string)
    requires |fields| == 5 && Words(fields, ONE_SPACE) && spec == Spaced(fields, ONE_SPACE)
    ensures FieldsOf(spec) == fields && ParseCron(spec) == CronOf(fields)
  {
    hide Spaced, SplitSpace, Trim, CronOf;
    SpacedIsCut(fields, ONE_SPACE);
    TrimTrimmed(spec);
  }

  lemma TheDays()
    ensures RealTime(Wall(2026, 1, 6, 0, 0, 5)) && RealTime(Wall(2026, 1, 3, 0, 0, 2))
  {
  }

  /** The thirteenth of January or any Friday: the code wants a January day. */
  lemma MonthIsAlwaysRequired()
    ensures
      var spec, friday := "0 0 13 1 5", Wall(2026, 1, 6, 0, 0, 5);
      RealTime(friday) && ParseCron(spec).Some? && StandardFires(spec, friday) && !Fires(spec, friday)
  {
    hide Spaced, SplitSpace, Trim, Field, Decimal, CoversRange, Weekday, RealTime;
    TheDays();
    var spec, friday, fields := "0 0 13 1 5", Wall(2026, 1, 6, 0, 0, 5), ["0", "0", "13", "1", "5"];
    SpacedFive(fields);
    assert spec == Spaced(fields, ONE_SPACE);
    ReadsFive(fields, spec);
    Numerals();
    NumberField("0", 0, 59);
    NumberField("0", 0, 23);
    NumberField("13", 1, 31);
    NumberField("1", 1, 12);
    NumberField("5", 0, 7);
    WeekMeaning(Field("5", 0, 7).value);
  }

  /** A list of all days of the month or any Monday: the code wants a Monday. */
  lemma FullListIsNoAsterisk()
    ensures
      var spec, tuesday := "0 0 1-31 * 1", Wall(2026, 1, 3, 0, 0, 2);
      RealTime(tuesday) && ParseCron(spec).Some? && StandardFires(spec, tuesday) && !Fires(spec, tuesday)
  {
    hide Spaced, SplitSpace, Trim, Field, Decimal, CoversRange, Weekday, RealTime;
    TheDays();
    var spec, tuesday, fields := "0 0 1-31 * 1", Wall(2026, 1, 3, 0, 0, 2), ["0", "0", "1-31", "*", "1"];
    SpacedFive(fields);
    assert spec == Spaced(fields, ONE_SPACE);
    ReadsFive(fields, spec);
    Numerals();
    NumberField("0", 0, 59);
    NumberField("0", 0, 23);
    RangeField("1", "31", 1, 31);
    assert "1" + "-" + "31" == "1-31";
    StarField(1, 12);
    NumberField("1", 0, 7);
    WeekMeaning(Field("1", 0, 7).value);
    FieldShape("1-31", 1, 31);
    CoversIffAll(Field("1-31", 1, 31).value, 1, 31);
    var c := ParseCron(spec).value;
    assert !c.domRestricted && 3 in c.dom && 2 in c.month && 2 !in c.dow;
  }
}
