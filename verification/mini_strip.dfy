/** The five-day strip on the dashboard: a colour per day for the last five
    days, the level badge, and which days open the report form. */
module MiniStrip {
  import opened Common
  import opened Types
  import SadhnaCalendar

  datatype DayStatus = Green | Orange | Red | Cream

  /** `getDayStatus` as the component has it. The branch for a report with a
      timestamp reads a variable that is never declared, so evaluating it
      throws; the model returns `None` there. */
  function GetDayStatusAsWritten(d: Day, logsMap: map<Day, SadhnaRecord>, today: Day): (r: Option<DayStatus>)
    ensures r.None? <==> d <= today && d in logsMap && logsMap[d].createdAt.Some?
    ensures r == Some(Cream) <==> d > today
    ensures r == Some(Red) <==> d <= today && d !in logsMap
    ensures r == Some(Orange) <==> d <= today && d in logsMap && logsMap[d].createdAt.None?
  {
    if d > today then Some(Cream)
    else if d !in logsMap then Some(Red)
    else
      var log := logsMap[d];
      if log.createdAt.Some? then None
      else Some(Orange)
  }

  /** Every report with a timestamp, on any day up to today, makes the
      as-written status throw. */
  lemma TimestampedReportThrows(d: Day, today: Day, ts: Timestamp)
    requires d <= today
    ensures var rec := SadhnaRecord("r", d, 0, map[], Some(ts));
      GetDayStatusAsWritten(d, map[d := rec], today).None?
  {
  }

  /** `getDayStatus` as evidently intended: the timestamped branch uses the
      same local-day window as the month calendar. */
  function GetDayStatus(d: Day, logsMap: map<Day, SadhnaRecord>, today: Day): (r: DayStatus)
    ensures GetDayStatusAsWritten(d, logsMap, today).Some? ==>
      r == GetDayStatusAsWritten(d, logsMap, today).value
    ensures r == Green <==>
      (d <= today && d in logsMap && logsMap[d].createdAt.Some? &&
       0 <= logsMap[d].createdAt.value.localDay - logsMap[d].date <= 1)
  {
    if d > today then Cream
    else if d !in logsMap then Red
    else
      var log := logsMap[d];
      match log.createdAt
      case Some(ts) =>
        var daysDiff := ts.localDay - log.date;
        if 0 <= daysDiff <= 1 then Green else Orange
      case None => Orange
  }

  /** The strip and the month calendar agree on every logged day up to
      today; they differ only on an unlogged today (red on the strip, plain
      on the calendar) and on future days (cream against plain). */
  lemma StripAgreesWithCalendar(d: Day, logsMap: map<Day, SadhnaRecord>, today: Day)
    ensures var s := GetDayStatus(d, logsMap, today);
      var c := SadhnaCalendar.GetDateStatus(d, logsMap, today);
      (s == Green <==> c == SadhnaCalendar.Green) &&
      (s == Orange <==> c == SadhnaCalendar.Orange) &&
      (s == Cream <==> d > today) &&
      (s == Red <==> c == SadhnaCalendar.Red || (d == today && c == SadhnaCalendar.Default))
  {
  }

  /** One cell of the strip. */
  datatype StripDay = StripDay(date: Day, isToday: bool)

  /** The `days` window: today − 4 through today, oldest first, with only the
      last one flagged as today. */
  function FiveDayWindow(today: Day): (days: seq<StripDay>)
    ensures |days| == 5
    ensures forall i :: 0 <= i < 5 ==> days[i].date == today - (4 - i)
    ensures forall i :: 0 <= i < 5 ==> (days[i].isToday <==> days[i].date == today)
    ensures forall i, j :: 0 <= i < j < 5 ==> days[i].date < days[j].date
  {
    seq(5, i requires 0 <= i < 5 => StripDay(today - (4 - i), i == 4))
  }

  /** The strip's click rule: only a red (missed) or cream (future) day asks
      for the form; the returned day is the one clicked. */
  function StripClick(status: DayStatus, d: Day): (formFor: Option<Day>)
    ensures formFor.Some? <==> status == Red || status == Cream
    ensures formFor.Some? ==> formFor.value == d
  {
    if status == Red || status == Cream then Some(d) else None
  }

  /** Clicking a strip day opens the form exactly when that day has no
      report yet: future days and missed past days. */
  lemma StripClickOpensUnloggedDays(d: Day, logsMap: map<Day, SadhnaRecord>, today: Day)
    ensures StripClick(GetDayStatus(d, logsMap, today), d).Some? <==> d > today || d !in logsMap
  {
  }

  // The strip decides "future" by comparing `yyyy-MM-dd` strings; the model
  // compares day numbers. The definitions below show the two orders agree
  // for zero-padded dates.

  /** Two zero-padded digits. */
  function Pad2(n: int): (s: string)
    requires 0 <= n < 100
    ensures |s| == 2
  {
    [Digit(n / 10), Digit(n % 10)]
  }

  /** Four zero-padded digits. */
  function Pad4(n: int): (s: string)
    requires 0 <= n < 10000
    ensures |s| == 4
  {
    Pad2(n / 100) + Pad2(n % 100)
  }

  datatype Date = Date(year: int, month: int, day: int)

  predicate ValidDate(x: Date)
  {
    0 <= x.year < 10000 && 1 <= x.month <= 12 && 1 <= x.day <= 31
  }

  /** `format(date, 'yyyy-MM-dd')`. */
  function FormatDate(x: Date): (s: string)
    requires ValidDate(x)
    ensures |s| == 10 && s[4] == '-' && s[7] == '-'
  {
    Pad4(x.year) + "-" + Pad2(x.month) + "-" + Pad2(x.day)
  }

  /** Calendar order of dates. */
  predicate Before(x: Date, y: Date)
  {
    x.year < y.year ||
    (x.year == y.year && (x.month < y.month || (x.month == y.month && x.day < y.day)))
  }

  /** JavaScript's `<` on strings: lexicographic order of code units. */
  predicate StrLess(a: string, b: string)
  {
    if a == [] then b != []
    else if b == [] then false
    else if a[0] != b[0] then a[0] < b[0]
    else StrLess(a[1..], b[1..])
  }

  /** Comparing two concatenations whose first parts have equal length
      compares the first parts, then the second ones. */
  lemma {:induction false} StrLessConcat(a1: string, a2: string, b1: string, b2: string)
    requires |a1| == |b1|
    ensures StrLess(a1 + a2, b1 + b2) <==> StrLess(a1, b1) || (a1 == b1 && StrLess(a2, b2))
  {
    if a1 != [] {
      assert (a1 + a2)[1..] == a1[1..] + a2;
      assert (b1 + b2)[1..] == b1[1..] + b2;
      StrLessConcat(a1[1..], a2, b1[1..], b2);
      if a1[0] == b1[0] && a1[1..] == b1[1..] {
        assert a1 == [a1[0]] + a1[1..];
        assert b1 == [b1[0]] + b1[1..];
      }
    } else {
      assert a1 + a2 == a2;
      assert b1 + b2 == b2;
    }
  }

  lemma Pad2Order(a: int, b: int)
    requires 0 <= a < 100 && 0 <= b < 100
    ensures StrLess(Pad2(a), Pad2(b)) <==> a < b
    ensures Pad2(a) == Pad2(b) <==> a == b
  {
    assert Pad2(a) == [Digit(a / 10)] + [Digit(a % 10)];
    assert Pad2(b) == [Digit(b / 10)] + [Digit(b % 10)];
    StrLessConcat([Digit(a / 10)], [Digit(a % 10)], [Digit(b / 10)], [Digit(b % 10)]);
    if Pad2(a) == Pad2(b) {
      assert Pad2(a)[0] == Pad2(b)[0] && Pad2(a)[1] == Pad2(b)[1];
    }
  }

  lemma Pad4Order(a: int, b: int)
    requires 0 <= a < 10000 && 0 <= b < 10000
    ensures StrLess(Pad4(a), Pad4(b)) <==> a < b
    ensures Pad4(a) == Pad4(b) <==> a == b
  {
    StrLessConcat(Pad2(a / 100), Pad2(a % 100), Pad2(b / 100), Pad2(b % 100));
    Pad2Order(a / 100, b / 100);
    Pad2Order(a % 100, b % 100);
    if Pad4(a) == Pad4(b) {
      assert Pad4(a)[..2] == Pad2(a / 100) && Pad4(b)[..2] == Pad2(b / 100);
      assert Pad4(a)[2..] == Pad2(a % 100) && Pad4(b)[2..] == Pad2(b % 100);
    }
  }

  /** For valid dates, string order of the `yyyy-MM-dd` forms is calendar
      order, so `dateStr > todayStr` means "after today". */
  lemma FormatDateOrder(x: Date, y: Date)
    requires ValidDate(x) && ValidDate(y)
    ensures StrLess(FormatDate(x), FormatDate(y)) <==> Before(x, y)
  {
    var dash := "-";
    var xs := Pad4(x.year) + dash + Pad2(x.month) + dash + Pad2(x.day);
    var ys := Pad4(y.year) + dash + Pad2(y.month) + dash + Pad2(y.day);
    assert xs == Pad4(x.year) + (dash + (Pad2(x.month) + (dash + Pad2(x.day))));
    assert ys == Pad4(y.year) + (dash + (Pad2(y.month) + (dash + Pad2(y.day))));
    Pad4Order(x.year, y.year);
    Pad2Order(x.month, y.month);
    Pad2Order(x.day, y.day);
    StrLessConcat(Pad4(x.year), dash + (Pad2(x.month) + (dash + Pad2(x.day))),
                  Pad4(y.year), dash + (Pad2(y.month) + (dash + Pad2(y.day))));
    StrLessConcat(dash, Pad2(x.month) + (dash + Pad2(x.day)),
                  dash, Pad2(y.month) + (dash + Pad2(y.day)));
    StrLessConcat(Pad2(x.month), dash + Pad2(x.day), Pad2(y.month), dash + Pad2(y.day));
    StrLessConcat(dash, Pad2(x.day), dash, Pad2(y.day));
    assert !StrLess(dash, dash);
  }
}
