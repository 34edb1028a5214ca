/**
 * The family of AtCoder Daily Training contests (contests/adt/family.go): a
 * contest is named by its date, its slot within the day and its level, and
 * its samples live under a directory built from the same parts.
 */
module AdtFamily {
  import opened Outcomes
  import opened Text
  import opened CivilDate

  /** `dailyHolds`: for each contest weekday, the start time of each slot to its number. */
  const DailyHolds: map<Weekday, map<string, int>> := map[
    Tuesday := map["1530" := 1, "1730" := 2, "1930" := 3],
    Wednesday := map["1600" := 1, "1800" := 2, "2000" := 3],
    Thursday := map["1630" := 1, "1830" := 2, "2030" := 3]]

  /** `dailyTimes`: for each contest weekday, the number of each slot to its start time. */
  const DailyTimes: map<Weekday, map<int, string>> := map[
    Tuesday := map[1 := "1530", 2 := "1730", 3 := "1930"],
    Wednesday := map[1 := "1600", 2 := "1800", 3 := "2000"],
    Thursday := map[1 := "1630", 2 := "1830", 3 := "2030"]]

  /** Contests run on Tuesday, Wednesday and Thursday, and both tables cover exactly those days. */
  lemma ContestDays(w: Weekday)
    ensures w in DailyHolds <==> w == Tuesday || w == Wednesday || w == Thursday
    ensures w in DailyTimes <==> w in DailyHolds
  {
  }

  /** A start time read through `dailyHolds` is a slot 1 to 3 that `dailyTimes` maps back to it. */
  lemma HoldsThenTimes(w: Weekday, t: string)
    requires w in DailyHolds && t in DailyHolds[w]
    ensures 1 <= DailyHolds[w][t] <= 3
    ensures w in DailyTimes && DailyHolds[w][t] in DailyTimes[w] && DailyTimes[w][DailyHolds[w][t]] == t
  {
    if w == Tuesday {
      assert t == "1530" || t == "1730" || t == "1930";
    } else if w == Wednesday {
      assert t == "1600" || t == "1800" || t == "2000";
    } else {
      assert t == "1630" || t == "1830" || t == "2030";
    }
  }

  /** Each day has the slots 1 to 3, and `dailyHolds` maps each slot's time back to it. */
  lemma TimesThenHolds(w: Weekday, n: int)
    requires w in DailyTimes
    ensures n in DailyTimes[w] <==> 1 <= n <= 3
    ensures n in DailyTimes[w] ==> w in DailyHolds && DailyTimes[w][n] in DailyHolds[w] && DailyHolds[w][DailyTimes[w][n]] == n
  {
  }

  /** A contest of the family: its date, its slot number within the day and its level. */
  datatype Family = Family(date: CivilDate, number: int, level: string)

  /**
   * `New`: a date that does not parse gives its error; a date on a day without
   * contests, or a time that is not one of that day's slots, gives neither a family
   * nor an error, because the error returned is the one the successful parse left.
   */
  function New(rawDate: string, rawTime: string, rawLevel: string): (Option<Family>, Option<DateError>)
  {
    match ParseDate(rawDate)
    case Failure(e) => (None, Some(e))
    case Success(date) =>
      var w := WeekdayOf(date);
      if w !in DailyHolds then (None, None)
      else if rawTime !in DailyHolds[w] then (None, None)
      else (Some(Family(date, DailyHolds[w][rawTime], rawLevel)), None)
  }

  /**
   * New succeeds exactly for a real date on a contest day with one of that day's
   * times, storing the slot number 1 to 3 and the level as given; it fails with the
   * parse error exactly when the date does not parse; otherwise it gives neither.
   */
  lemma NewSpec(rawDate: string, rawTime: string, rawLevel: string)
    ensures New(rawDate, rawTime, rawLevel).1.Some? <==> ParseDate(rawDate).Failure?
    ensures ParseDate(rawDate).Failure? ==> New(rawDate, rawTime, rawLevel).1 == Some(ParseDate(rawDate).error)
    ensures New(rawDate, rawTime, rawLevel).0.Some? <==>
      ParseDate(rawDate).Success? &&
      (var w := WeekdayOf(ParseDate(rawDate).value);
       (w == Tuesday || w == Wednesday || w == Thursday) && rawTime in DailyHolds[w])
    ensures New(rawDate, rawTime, rawLevel).0.Some? ==>
      var f := New(rawDate, rawTime, rawLevel).0.value;
      f.date == ParseDate(rawDate).value && f.level == rawLevel && 1 <= f.number <= 3 &&
      DailyTimes[WeekdayOf(f.date)][f.number] == rawTime
    ensures New(rawDate, rawTime, rawLevel).0.None? || New(rawDate, rawTime, rawLevel).1.None?
  {
    if ParseDate(rawDate).Success? {
      var w := WeekdayOf(ParseDate(rawDate).value);
      ContestDays(w);
      if w in DailyHolds && rawTime in DailyHolds[w] {
        HoldsThenTimes(w, rawTime);
      }
    }
  }

  /** `%d`. */
  function FormatInt(n: int): string
  {
    if n < 0 then "-" + Itoa(-n) else Itoa(n)
  }

  /** `ContestName`: "adt_", the level, "_", the date as YYYYMMDD, "_" and the slot number. */
  function ContestName(f: Family): string
  {
    "adt_" + f.level + "_" + FormatDate(f.date) + "_" + FormatInt(f.number)
  }

  /** `BaseDir`: workdir/adt/YYYY/MM/DD/<start time of the slot>. */
  function BaseDir(f: Family, workdir: string): string
  {
    var w := WeekdayOf(f.date);
    var time := if w in DailyTimes && f.number in DailyTimes[w] then DailyTimes[w][f.number] else "";
    JoinPath([workdir, "adt", PadZeros(f.date.year, 4), PadZeros(f.date.month, 2), PadZeros(f.date.day, 2), time])
  }

  /** The name of a family carries the date text it was parsed from. */
  lemma ContestNameOfParsed(f: Family, rawDate: string)
    requires ParseDate(rawDate) == Success(f.date) && f.number >= 0
    ensures ContestName(f) == "adt_" + f.level + "_" + rawDate + "_" + Itoa(f.number)
  {
    FormatParsed(rawDate);
  }

  /** The base directory of a family ends in the start time of its slot. */
  lemma BaseDirEndsInTime(f: Family, workdir: string)
    requires WeekdayOf(f.date) in DailyTimes && f.number in DailyTimes[WeekdayOf(f.date)]
    ensures Base(BaseDir(f, workdir)) == DailyTimes[WeekdayOf(f.date)][f.number]
  {
    var t := DailyTimes[WeekdayOf(f.date)][f.number];
    var elems := [workdir, "adt", PadZeros(f.date.year, 4), PadZeros(f.date.month, 2), PadZeros(f.date.day, 2), t];
    assert BaseDir(f, workdir) == JoinPath(elems);
    var init := elems[..5];
    assert elems[..|elems| - 1] == init;
    AdtElementKept(init);
    SlotTimeShape(WeekdayOf(f.date), f.number);
    BaseOfJoin(JoinPath(init), t);
  }

  /**
   * A family made by New names its contest with the date text it was given, and
   * its base directory ends in the time it was given: both tables are crossed and
   * the slot comes back unchanged.
   */
  lemma NewRoundTrip(rawDate: string, rawTime: string, rawLevel: string, workdir: string)
    requires New(rawDate, rawTime, rawLevel).0.Some?
    ensures var f := New(rawDate, rawTime, rawLevel).0.value;
      ContestName(f) == "adt_" + rawLevel + "_" + rawDate + "_" + Itoa(f.number) &&
      Base(BaseDir(f, workdir)) == rawTime
  {
    var f := New(rawDate, rawTime, rawLevel).0.value;
    NewSpec(rawDate, rawTime, rawLevel);
    ContestNameOfParsed(f, rawDate);
    BaseDirEndsInTime(f, workdir);
  }

  /**
   * The whole base directory of a family made by New is built from the texts it was
   * given: the year, month and day digits of the date text, then the time.
   */
  lemma NewBaseDir(rawDate: string, rawTime: string, rawLevel: string, workdir: string)
    requires New(rawDate, rawTime, rawLevel).0.Some?
    ensures |rawDate| == 8 &&
      BaseDir(New(rawDate, rawTime, rawLevel).0.value, workdir) ==
      JoinPath([workdir, "adt", rawDate[..4], rawDate[4..6], rawDate[6..], rawTime])
  {
    var f := New(rawDate, rawTime, rawLevel).0.value;
    NewSpec(rawDate, rawTime, rawLevel);
    ParseDateSpec(rawDate);
    PadZerosDigits(rawDate[..4]);
    PadZerosDigits(rawDate[4..6]);
    PadZerosDigits(rawDate[6..8]);
    assert rawDate[6..] == rawDate[6..8];
    ContestDays(WeekdayOf(f.date));
  }

  /** Joining keeps a path non-empty once a non-empty element has been joined. */
  lemma {:induction false} AdtElementKept(elems: seq<string>)
    requires |elems| >= 2 && elems[1] == "adt"
    ensures JoinPath(elems) != ""
    decreases |elems|
  {
    if |elems| > 2 {
      assert elems[..|elems| - 1][1] == "adt";
      AdtElementKept(elems[..|elems| - 1]);
    } else {
      assert elems[..1] == [elems[0]];
    }
  }

  lemma SlotTimeShape(w: Weekday, n: int)
    requires w in DailyTimes && n in DailyTimes[w]
    ensures |DailyTimes[w][n]| == 4 && '/' !in DailyTimes[w][n]
  {
  }
}
