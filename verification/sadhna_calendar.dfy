/** The month calendar of daily reports: a colour per day, the grid of
    whole weeks that covers the month, and what a click on a day does. */
module SadhnaCalendar {
  import opened Common
  import opened Types
  import SadhnaService

  datatype DateStatus = Green | Orange | Red | Default

  /** `logsMap`: one record per date; when several records share a date the
      one later in the list is kept. */
  method BuildLogsMap(logs: seq<SadhnaRecord>) returns (m: map<Day, SadhnaRecord>)
    ensures forall d :: d in m <==> exists i :: 0 <= i < |logs| && logs[i].date == d
    ensures forall d :: d in m ==>
      exists i :: 0 <= i < |logs| && logs[i] == m[d] && logs[i].date == d &&
        forall j :: i < j < |logs| ==> logs[j].date != d
  {
    m := map[];
    for k := 0 to |logs|
      invariant forall d :: d in m <==> exists i :: 0 <= i < k && logs[i].date == d
      invariant forall d :: d in m ==>
        exists i :: 0 <= i < k && logs[i] == m[d] && logs[i].date == d &&
          forall j :: i < j < k ==> logs[j].date != d
    {
      m := m[logs[k].date := logs[k]];
    }
  }

  /** `getDateStatus`: days after today are plain; a past day without a
      report is red (today stays plain); a report is green when the local day
      of its timestamp is its entry day or the next, and orange when late or
      without a timestamp. */
  function GetDateStatus(d: Day, logsMap: map<Day, SadhnaRecord>, today: Day): (r: DateStatus)
    ensures r == Red <==> d < today && d !in logsMap
    ensures r == Default <==> d > today || (d == today && d !in logsMap)
    ensures r == Green <==>
      (d <= today && d in logsMap && logsMap[d].createdAt.Some? &&
       0 <= logsMap[d].createdAt.value.localDay - logsMap[d].date <= 1)
  {
    if d > today then Default
    else if d !in logsMap then
      if d == today then Default else Red
    else
      var log := logsMap[d];
      match log.createdAt
      case Some(ts) =>
        var daysDiff := ts.localDay - log.date;
        if 0 <= daysDiff <= 1 then Green else Orange
      case None => Orange
  }

  /** The first day of the week (Sunday) on or before `d`. */
  function StartOfWeek(d: Day): (r: Day)
    ensures r <= d < r + 7 && r % 7 == 0
  {
    d - d % 7
  }

  /** The last day of the week (Saturday) on or after `d`. */
  function EndOfWeek(d: Day): (r: Day)
    ensures r - 7 < d <= r && r % 7 == 6
  {
    d + (6 - d % 7)
  }

  /** `calendarDays`: every day from the Sunday on or before the first of
      the month to the Saturday on or after its last day. */
  method CalendarDays(monthStart: Day, monthEnd: Day) returns (days: seq<Day>)
    requires monthStart <= monthEnd
    ensures |days| % 7 == 0 && |days| > 0
    ensures days[0] == StartOfWeek(monthStart)
    ensures forall i :: 0 <= i < |days| ==> days[i] == days[0] + i
    ensures days[|days| - 1] == EndOfWeek(monthEnd)
    ensures forall d :: monthStart <= d <= monthEnd ==> d in days
    ensures |days| < monthEnd - monthStart + 1 + 13
  {
    var calStart := StartOfWeek(monthStart);
    var calEnd := EndOfWeek(monthEnd);
    days := [];
    var day := calStart;
    while day <= calEnd
      invariant calStart <= day <= calEnd + 1
      invariant |days| == day - calStart
      invariant forall i :: 0 <= i < |days| ==> days[i] == calStart + i
      decreases calEnd - day
    {
      days := days + [day];
      day := day + 1;
    }
    assert |days| == calEnd - calStart + 1;
    forall d | monthStart <= d <= monthEnd
      ensures d in days
    {
      assert days[d - calStart] == d;
    }
  }

  /** A grid cell's colour: days outside the displayed month are plain. */
  function CellStatus(d: Day, monthStart: Day, monthEnd: Day,
                      logsMap: map<Day, SadhnaRecord>, today: Day): (r: DateStatus)
    ensures !(monthStart <= d <= monthEnd) ==> r == Default
    ensures monthStart <= d <= monthEnd ==> r == GetDateStatus(d, logsMap, today)
  {
    if monthStart <= d <= monthEnd then GetDateStatus(d, logsMap, today) else Default
  }

  /** The calendar's click state: the day whose summary is shown and the
      record shown in it. */
  class Calendar {
    var selectedDate: Option<Day>
    var tooltipLog: Option<SadhnaRecord>
    const logsMap: map<Day, SadhnaRecord>
    const today: Day

    constructor(logs: seq<SadhnaRecord>, today: Day)
      ensures selectedDate.None? && tooltipLog.None? && this.today == today
      ensures forall d :: d in logsMap <==> exists i :: 0 <= i < |logs| && logs[i].date == d
      ensures forall d :: d in logsMap ==>
        exists i :: 0 <= i < |logs| && logs[i] == logsMap[d] && logs[i].date == d &&
          forall j :: i < j < |logs| ==> logs[j].date != d
    {
      var m := BuildLogsMap(logs);
      logsMap := m;
      this.today := today;
      selectedDate := None;
      tooltipLog := None;
    }

    /** `handleDateClick`: a green or orange day selects the day and shows
        its report; a red day, or today while still plain, clears the
        selection and asks for the form (the returned day); a future day
        does nothing. */
    method HandleDateClick(d: Day) returns (formFor: Option<Day>)
      modifies this
      ensures var st := GetDateStatus(d, logsMap, today);
        if st == Green || st == Orange then
          d in logsMap && selectedDate == Some(d) && tooltipLog == Some(logsMap[d]) && formFor.None?
        else if st == Red || d == today then
          selectedDate.None? && tooltipLog.None? && formFor == Some(d)
        else
          selectedDate == old(selectedDate) && tooltipLog == old(tooltipLog) && formFor.None?
      ensures d > today ==> formFor.None? && selectedDate == old(selectedDate) && tooltipLog == old(tooltipLog)
    {
      var log := if d in logsMap then Some(logsMap[d]) else None;
      var status := GetDateStatus(d, logsMap, today);
      formFor := None;
      if status == Green || status == Orange {
        tooltipLog := log;
        selectedDate := Some(d);
      } else if status == Red || (status == Default && d == today) {
        tooltipLog := None;
        selectedDate := None;
        formFor := Some(d);
      }
    }

    /** A cell's click handler: cells outside the displayed month are
        disabled. */
    method HandleCellClick(d: Day, monthStart: Day, monthEnd: Day) returns (formFor: Option<Day>)
      modifies this
      ensures !(monthStart <= d <= monthEnd) ==>
        formFor.None? && selectedDate == old(selectedDate) && tooltipLog == old(tooltipLog)
      ensures monthStart <= d <= monthEnd ==>
        var st := GetDateStatus(d, logsMap, today);
        if st == Green || st == Orange then
          d in logsMap && selectedDate == Some(d) && tooltipLog == Some(logsMap[d]) && formFor.None?
        else if st == Red || d == today then
          selectedDate.None? && tooltipLog.None? && formFor == Some(d)
        else
          selectedDate == old(selectedDate) && tooltipLog == old(tooltipLog) && formFor.None?
      ensures formFor.Some? ==> formFor == Some(d) && d <= today
    {
      formFor := None;
      if monthStart <= d <= monthEnd {
        formFor := HandleDateClick(d);
      }
    }
  }

  /** The calendar and the streak read a missing timestamp differently: the
      day shows orange, yet the report counts as on time for the streak. */
  lemma MissingTimestampOrangeYetPunctual(rec: SadhnaRecord, today: Day)
    requires rec.createdAt.None? && rec.date <= today
    ensures GetDateStatus(rec.date, map[rec.date := rec], today) == Orange
    ensures SadhnaService.IsPunctual(SadhnaService.Log(rec.date, rec.createdAt))
  {
  }

  /** The two submission-day rules can disagree near midnight: a report
      saved just after midnight two days later in a time zone ahead of UTC
      has the next day as the date part of its timestamp but a local day two
      days after the entry, so it counts for the streak yet shows orange. */
  lemma DatePartAndLocalDayDisagree(d: Day)
    ensures var rec := SadhnaRecord("r", d, 0, map[], Some(Timestamp(d + 1, d + 2)));
      GetDateStatus(d, map[d := rec], d + 2) == Orange &&
      SadhnaService.IsPunctual(SadhnaService.Log(d, rec.createdAt))
  {
  }

  /** When the two submission days coincide, a timestamped report is green
      exactly when the streak counts it on time. */
  lemma GreenIffPunctualWhenDaysAgree(rec: SadhnaRecord, today: Day)
    requires rec.date <= today
    requires rec.createdAt.Some? && rec.createdAt.value.datePart == rec.createdAt.value.localDay
    ensures GetDateStatus(rec.date, map[rec.date := rec], today) == Green <==>
      SadhnaService.IsPunctual(SadhnaService.Log(rec.date, rec.createdAt))
  {
  }
}
