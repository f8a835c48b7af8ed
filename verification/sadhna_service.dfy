/** The punctual-streak engine: which daily reports were filed on time, and
    the unbroken run of on-time days that ends today or yesterday. */
module SadhnaService {
  import opened Common
  import opened Types

  /** `extractDateStr`: the text before the first 'T' or space, or the whole
      string when it has neither. */
  function ExtractDateStr(timestamp: string): (r: string)
    ensures r <= timestamp
    ensures NoneOf(r, {'T', ' '})
    ensures |r| < |timestamp| ==> timestamp[|r|] in {'T', ' '}
  {
    Split(timestamp, {'T', ' '})[0]
  }

  /** The three timestamp shapes the store produces name the same day. */
  lemma ExtractDateStrExamples(day: string)
    requires day == "2026-02-10"
    ensures ExtractDateStr(day + ['T'] + "14:30:00Z") == day
    ensures ExtractDateStr(day + [' '] + "14:30:00+00") == day
    ensures ExtractDateStr(day) == day
  {
    DayHasNoSeparator(day);
    TakeUntilFree(day, 'T', "14:30:00Z", {'T', ' '});
    TakeUntilFree(day, ' ', "14:30:00+00", {'T', ' '});
    SplitNoSeparator(day, {'T', ' '});
  }

  lemma DayHasNoSeparator(day: string)
    requires day == "2026-02-10"
    ensures NoneOf(day, {'T', ' '})
  {
  }

  /** The `{ entry_date, created_at }` pair the engine reads; a null or empty
      `created_at` is `None`. */
  datatype Log = Log(entryDate: Day, createdAt: Option<Timestamp>)

  /** A log is on time when it has no timestamp, or when the date part of
      its timestamp is its entry day or the day after. */
  predicate IsPunctual(log: Log)
  {
    log.createdAt.None? || 0 <= log.createdAt.value.datePart - log.entryDate <= 1
  }

  /** The `punctualDates` set. */
  function PunctualDates(logs: seq<Log>): set<Day>
  {
    if logs == [] then {}
    else
      var last := logs[|logs| - 1];
      PunctualDates(logs[..|logs| - 1]) + (if IsPunctual(last) then {last.entryDate} else {})
  }

  /** A day is in the set exactly when some log for it is on time: a log
      without a timestamp always, a timestamped one when submitted 0 or 1
      days after its entry day. */
  lemma {:induction false} PunctualDatesMembers(logs: seq<Log>, d: Day)
    ensures d in PunctualDates(logs) <==>
      exists i :: 0 <= i < |logs| && logs[i].entryDate == d &&
        (logs[i].createdAt.None? || 0 <= logs[i].createdAt.value.datePart - d <= 1)
  {
    if logs != [] {
      var init := logs[..|logs| - 1];
      PunctualDatesMembers(init, d);
      if d in PunctualDates(init) {
        var i :| 0 <= i < |init| && init[i].entryDate == d && IsPunctual(init[i]);
        assert logs[i] == init[i];
      }
      if exists i :: 0 <= i < |logs| && logs[i].entryDate == d && IsPunctual(logs[i]) {
        var i :| 0 <= i < |logs| && logs[i].entryDate == d && IsPunctual(logs[i]);
        if i < |init| { assert init[i] == logs[i]; }
      }
    }
  }

  /** A log without a timestamp always puts its day in the punctual set. */
  lemma NoTimestampCounts(logs: seq<Log>, i: int)
    requires 0 <= i < |logs| && logs[i].createdAt.None?
    ensures logs[i].entryDate in PunctualDates(logs)
  {
    PunctualDatesMembers(logs, logs[i].entryDate);
  }

  /** Length of the run of consecutive days ending at `d` that all lie in `P`. */
  function RunBack(P: set<Day>, d: Day): (n: nat)
    ensures n <= |P|
    ensures forall e :: d - n < e <= d ==> e in P
    ensures d - n !in P
    decreases |P|
  {
    if d in P then
      var k := RunBack(P - {d}, d - 1);
      assert forall e :: d - (1 + k) < e <= d ==> e in P by {
        forall e | d - (1 + k) < e <= d
          ensures e in P
        {
          if e < d {
            assert e in P - {d};
          }
        }
      }
      1 + k
    else 0
  }

  /** The run is determined by where it stops. */
  lemma RunBackIs(P: set<Day>, d: Day, n: nat)
    requires forall e :: d - n < e <= d ==> e in P
    requires d - n !in P
    ensures RunBack(P, d) == n
  {
  }

  /** The largest day of a non-empty set. */
  ghost function MaxDay(P: set<Day>): (m: Day)
    requires P != {}
    ensures m in P && forall d :: d in P ==> d <= m
    decreases |P|
  {
    assert exists y :: y in P by { var y := Pick(P); }
    var x :| x in P;
    var rest := P - {x};
    if rest == {} then
      OnlyElement(P, x);
      x
    else
      var m := MaxDay(rest);
      LargerOfParts(P, x, m);
      if x > m then x else m
  }

  /** A set that is empty once `x` is removed holds only `x`. */
  lemma OnlyElement(P: set<Day>, x: Day)
    requires x in P && P - {x} == {}
    ensures forall d :: d in P ==> d == x
  {
    forall d | d in P ensures d == x {
      assert d !in P - {x};
    }
  }

  /** The larger of one element and the maximum of the others bounds the
      whole set. */
  lemma LargerOfParts(P: set<Day>, x: Day, m: Day)
    requires x in P && m in P - {x}
    requires forall d :: d in P - {x} ==> d <= m
    ensures forall d :: d in P ==> d <= (if x > m then x else m)
  {
    forall d | d in P ensures d <= (if x > m then x else m) {
      if d != x {
        assert d in P - {x};
      }
    }
  }

  /** The punctual streak on `today`: zero unless the most recent on-time day
      is today or yesterday, otherwise the run of on-time days ending there. */
  ghost function Streak(logs: seq<Log>, today: Day): nat
  {
    var P := PunctualDates(logs);
    if P == {} then 0
    else
      var m := MaxDay(P);
      if m != today && m != today - 1 then 0 else RunBack(P, m)
  }

  predicate StrictlyDecreasing(s: seq<Day>)
  {
    forall i, j :: 0 <= i < j < |s| ==> s[i] > s[j]
  }

  /** The largest element of a non-empty set of days. */
  method MaxOf(s: set<Day>) returns (m: Day)
    requires s != {}
    ensures m in s && forall d :: d in s ==> d <= m
  {
    ghost var w := Pick(s);
    m :| m in s;
    var rest := s - {m};
    while rest != {}
      invariant rest <= s && m in s
      invariant forall d :: d in s && d !in rest ==> d <= m
      decreases |rest|
    {
      ghost var w := Pick(rest);
      var x :| x in rest;
      if x > m {
        m := x;
      }
      rest := rest - {x};
    }
  }

  /** `Array.from(punctualDates).sort(...)` newest first: the days of `P`
      listed once each, in strictly decreasing order. */
  method SortDescending(P: set<Day>) returns (sorted: seq<Day>)
    ensures StrictlyDecreasing(sorted)
    ensures forall d :: d in P <==> d in sorted
  {
    sorted := [];
    var rest := P;
    while rest != {}
      invariant rest <= P
      invariant forall d :: d in P <==> d in rest || d in sorted
      invariant forall d :: d in rest ==> d !in sorted
      invariant StrictlyDecreasing(sorted)
      invariant forall i, d :: 0 <= i < |sorted| && d in rest ==> d < sorted[i]
      decreases |rest|
    {
      var m := MaxOf(rest);
      sorted := sorted + [m];
      rest := rest - {m};
    }
  }

  /** In a strictly decreasing list whose first `i + 1` entries count down
      from `m`, the day just below them is absent when the list ends there or
      jumps by more than one. */
  lemma RunStopsAtGap(sorted: seq<Day>, i: int, m: Day)
    requires StrictlyDecreasing(sorted)
    requires 0 <= i < |sorted|
    requires forall k :: 0 <= k <= i ==> sorted[k] == m - k
    requires i == |sorted| - 1 || sorted[i] - sorted[i + 1] != 1
    ensures m - (i + 1) !in sorted
  {
    forall j | 0 <= j < |sorted|
      ensures sorted[j] != m - (i + 1)
    {
      if i < j {
        assert sorted[j] <= sorted[i + 1];
      }
    }
  }

  /** `calculatePunctualStreak`, with the current day passed in. */
  method CalculatePunctualStreak(logs: seq<Log>, today: Day) returns (streak: nat)
    ensures streak == Streak(logs, today)
  {
    var punctualDates: set<Day> := {};
    for i := 0 to |logs|
      invariant punctualDates == PunctualDates(logs[..i])
    {
      PunctualDatesStep(logs, i);
      var log := logs[i];
      if log.createdAt.None? {
        punctualDates := punctualDates + {log.entryDate};
        continue;
      }
      var daysDiff := log.createdAt.value.datePart - log.entryDate;
      if 0 <= daysDiff <= 1 {
        punctualDates := punctualDates + {log.entryDate};
      }
    }
    assert logs[..|logs|] == logs;
    ghost var P := punctualDates;

    var sorted := SortDescending(punctualDates);
    if |sorted| == 0 {
      assert forall d :: d !in P;
      return 0;
    }
    var mostRecent := sorted[0];
    SortedHeadIsMax(P, sorted);
    if mostRecent != today && mostRecent != today - 1 {
      return 0;
    }

    streak := 1;
    var i := 0;
    while i < |sorted| - 1
      invariant 0 <= i < |sorted|
      invariant streak == i + 1
      invariant forall k :: 0 <= k <= i ==> sorted[k] == mostRecent - k
    {
      var gap := sorted[i] - sorted[i + 1];
      if gap == 1 {
        streak := streak + 1;
      } else {
        break;
      }
      i := i + 1;
    }
    RunFromSorted(P, sorted, i, mostRecent);
  }

  /** One more log adds its day to the punctual set exactly when it is on
      time. */
  lemma PunctualDatesStep(logs: seq<Log>, i: int)
    requires 0 <= i < |logs|
    ensures PunctualDates(logs[..i + 1]) ==
      PunctualDates(logs[..i]) + (if IsPunctual(logs[i]) then {logs[i].entryDate} else {})
  {
    assert logs[..i + 1][..i] == logs[..i];
  }

  /** The head of the newest-first listing of `P` is its largest day. */
  lemma SortedHeadIsMax(P: set<Day>, sorted: seq<Day>)
    requires StrictlyDecreasing(sorted) && |sorted| > 0
    requires forall d :: d in P <==> d in sorted
    ensures P != {} && sorted[0] == MaxDay(P)
  {
    assert sorted[0] in sorted;
    assert sorted[0] in P;
    forall d | d in P ensures d <= sorted[0] {
      var j :| 0 <= j < |sorted| && sorted[j] == d;
    }
  }

  /** The count the second loop stops at is the run of `P` ending at its
      head. */
  lemma RunFromSorted(P: set<Day>, sorted: seq<Day>, i: int, m: Day)
    requires StrictlyDecreasing(sorted)
    requires forall d :: d in P <==> d in sorted
    requires 0 <= i < |sorted|
    requires forall k :: 0 <= k <= i ==> sorted[k] == m - k
    requires i == |sorted| - 1 || sorted[i] - sorted[i + 1] != 1
    ensures RunBack(P, m) == i + 1
  {
    forall e | m - (i + 1) < e <= m ensures e in P {
      assert sorted[m - e] == e;
    }
    RunStopsAtGap(sorted, i, m);
    RunBackIs(P, m, i + 1);
  }

  /** The streak never exceeds the number of distinct on-time entry days. */
  lemma StreakAtMostPunctualDays(logs: seq<Log>, today: Day)
    ensures Streak(logs, today) <= |PunctualDates(logs)|
  {
  }

  /** Anchor rule: a streak is positive only when the most recent on-time
      day is today or yesterday, and then every day of the run is on time and
      the day before the run is not. */
  lemma StreakAnchor(logs: seq<Log>, today: Day)
    ensures var P := PunctualDates(logs);
      var n := Streak(logs, today);
      (n > 0 <==> P != {} && (MaxDay(P) == today || MaxDay(P) == today - 1)) &&
      (n > 0 ==> (forall e :: MaxDay(P) - n < e <= MaxDay(P) ==> e in P) && MaxDay(P) - n !in P)
  {
    var P := PunctualDates(logs);
    if P != {} {
      var m := MaxDay(P);
      if m == today || m == today - 1 {
        var n := RunBack(P, m);
        assert Streak(logs, today) == n;
        assert m - n !in P;
        assert n > 0;
      } else {
        assert Streak(logs, today) == 0;
      }
    } else {
      assert Streak(logs, today) == 0;
    }
  }

  /** When no on-time day lies in the future, the streak is the run of
      on-time days ending today if today is on time, else ending yesterday. */
  lemma {:induction false} StreakWalksFromTodayOrYesterday(logs: seq<Log>, today: Day)
    requires forall d :: d in PunctualDates(logs) ==> d <= today
    ensures Streak(logs, today) ==
      if today in PunctualDates(logs) then RunBack(PunctualDates(logs), today)
      else RunBack(PunctualDates(logs), today - 1)
  {
    var P := PunctualDates(logs);
    if P != {} {
      var m := MaxDay(P);
      if today in P {
        assert m == today;
      } else if today - 1 in P {
        assert m == today - 1;
      } else {
        assert m < today - 1;
      }
    }
  }

  /** An on-time entry dated after today makes the streak 0 even when today
      is on time, since the chain is anchored at the most recent on-time day. */
  lemma FutureEntryResetsStreak(today: Day)
    ensures var logs := [Log(today, None), Log(today + 1, None)];
      today in PunctualDates(logs) && Streak(logs, today) == 0
  {
    var logs := [Log(today, None), Log(today + 1, None)];
    assert logs[..1] == [Log(today, None)];
    assert [Log(today, None)][..0] == [];
    assert PunctualDates(logs[..1]) == {today};
    assert PunctualDates(logs) == {today, today + 1};
    var m := MaxDay({today, today + 1});
    assert m == today + 1;
  }

  /** A second copy of an existing log changes nothing: each day counts once. */
  lemma DuplicateLogCountsOnce(logs: seq<Log>, i: int, today: Day)
    requires 0 <= i < |logs|
    ensures PunctualDates(logs + [logs[i]]) == PunctualDates(logs)
    ensures Streak(logs + [logs[i]], today) == Streak(logs, today)
  {
    DuplicateLogSameDates(logs, i);
  }

  lemma DuplicateLogSameDates(logs: seq<Log>, i: int)
    requires 0 <= i < |logs|
    ensures PunctualDates(logs + [logs[i]]) == PunctualDates(logs)
  {
    var l := logs[i];
    assert (logs + [l])[..|logs|] == logs;
    if IsPunctual(l) {
      PunctualDatesMembers(logs, l.entryDate);
      assert l.entryDate in PunctualDates(logs);
    }
  }

  /** No logs, or no on-time logs, give streak 0. */
  lemma NoPunctualLogsNoStreak(logs: seq<Log>, today: Day)
    requires forall i :: 0 <= i < |logs| ==> !IsPunctual(logs[i])
    ensures Streak(logs, today) == 0
  {
    if PunctualDates(logs) != {} {
      var d := Pick(PunctualDates(logs));
      PunctualDatesMembers(logs, d);
    }
  }

  /** A report for today with no timestamp gives streak 1. */
  lemma SingleUntimedReportToday(today: Day)
    ensures Streak([Log(today, None)], today) == 1
  {
    var logs := [Log(today, None)];
    assert logs[..0] == [];
    assert PunctualDates(logs) == {today};
    assert MaxDay({today}) == today;
    assert RunBack({today} - {today}, today - 1) == 0;
  }

  /** Two on-time reports for yesterday and the day before give streak 2:
      the chain may start yesterday. */
  lemma ChainAnchoredYesterday(today: Day)
    ensures var logs := [Log(today - 1, Some(Timestamp(today - 1, today - 1))),
                         Log(today - 2, Some(Timestamp(today - 2, today - 2)))];
      Streak(logs, today) == 2
  {
    var logs := [Log(today - 1, Some(Timestamp(today - 1, today - 1))),
                 Log(today - 2, Some(Timestamp(today - 2, today - 2)))];
    assert logs[..1] == [logs[0]];
    assert [logs[0]][..0] == [];
    assert PunctualDates(logs[..1]) == {today - 1};
    var P := PunctualDates(logs);
    assert P == {today - 1, today - 2};
    assert MaxDay(P) == today - 1;
    RunBackIs(P, today - 1, 2);
  }

  /** An on-time report three days ago alone gives streak 0. */
  lemma GapBeforeYesterdayBreaks(today: Day)
    ensures Streak([Log(today - 3, Some(Timestamp(today - 3, today - 3)))], today) == 0
  {
    var logs := [Log(today - 3, Some(Timestamp(today - 3, today - 3)))];
    assert logs[..0] == [];
    assert PunctualDates(logs) == {today - 3};
    assert MaxDay({today - 3}) == today - 3;
  }

  /** `saveSadhna`'s new longest streak: the larger of the current streak and
      the stored longest (a missing or zero stored value reads as 0). */
  function NewLongest(currentStreak: nat, storedLongest: Option<int>): (r: int)
    ensures r >= currentStreak && r >= storedLongest.GetOr(0)
    ensures r == currentStreak || r == storedLongest.GetOr(0)
  {
    var stored := storedLongest.GetOr(0);
    if currentStreak > stored then currentStreak else stored
  }
}
