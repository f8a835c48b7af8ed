# learn-gita core, modelled in Dafny

learn-gita is a devotional learning app. Students file a daily sadhana
(spiritual practice) report. A punctual-chain streak is computed from those
reports and mapped onto a ladder of levels. Students follow courses made of
sopanas (lessons) and see upcoming festivals. Administrators manage lessons,
generated courses, festivals and devotees.

This project models the parts of that app that compute or update state:

- **Streak and levels.**
  - The punctual-chain streak: `SadhnaService`, with a `for` loop building the set of on-time days, a descending sort and the gap walk.
  - The longest-streak update.
  - The level ladder scan: `LevelLogic.GetCurrentLevelInfo`, proved equal to a specification function.
  - Level-up detection.
- **The three views of the report history.**
  - The month calendar, `SadhnaCalendar`, with its `logsMap` builder and grid-filling loops.
  - The five-day strip, `MiniStrip`.
  - The 30-day reward card, `StreakTracker`.
- **The daily questionnaire.** `SadhnaTracker` is a class holding step, answers, pending date and submission flag. It also computes the total score.
- **Student-facing rules.**
  - The festival proximity filter: `FestivalService`.
  - Course completion: `CourseService`.
  - The journey-map unlock rule: `JourneyMap`.
  - The dashboard's nudge banner, history list, breakdown and answer labels: `StudentDashboard`.
- **App shell.** `App` models translations, URL building and parsing, enrolment, lesson completion, course progress and the streak fields of the signed-in user. Its state lives in the class `App.AppState`.
- **Admin screens.**
  - The devotee search and role toggle: `DevoteeList`.
  - The lesson editor and the grouping by book: `SopanaManager`.
  - The generated-course review table: `CourseFactory`.
  - The festival form: `FestivalManager`.

Calendar dates are day numbers (`Types.Day`). The current day is always a parameter. A submission timestamp is kept as the two days the code reads from it (`Types.Timestamp`):

- the date written before its `T`, which the streak uses;
- the browser-local day, which the calendar uses.

Choices the code makes, which the model follows:

- **Date part, not local date.** The streak takes the date part of the timestamp string, not the local date (`services/sadhnaService.ts:45`).
- **Anchor.** The chain is anchored at the most recent on-time day, so an on-time entry dated after today gives streak 0 (`services/sadhnaService.ts:70-74`).
- **Ladder order.** The level scan walks the ladder in the order given and stops at the first threshold above the streak (`verify_level_logic.ts:7-15`). The ladder is a parameter; the lemmas about the highest rung reached take it sorted by threshold.
- **Days remaining.** `daysRemaining` is the next threshold minus the streak, hence at least 1, and 0 on the top rung (`verify_level_logic.ts:20-28`).
- **Where `checkLevelUp` lives.** `App.tsx:357` calls `sadhnaService.checkLevelUp`, which `services/sadhnaService.ts` does not define. The model uses `checkLevelUp` from `verify_level_logic.ts`.

## Model

| member | source | states |
|---|---|---|
| SadhnaService.ExtractDateStr | services/sadhnaService.ts:18-21 | the result is the text before the first 'T' or space (the whole string when neither occurs), and holds neither character |
| SadhnaService.ExtractDateStrExamples | services/sadhnaService.ts:15-16 | the ISO, Postgres and plain forms of one date all give the same date string |
| SadhnaService.PunctualDatesMembers | services/sadhnaService.ts:33-55 | a day is in the punctual set iff some log for it has no timestamp, or a timestamp whose date part is 0 or 1 days after the entry day |
| SadhnaService.NoTimestampCounts | services/sadhnaService.ts:38-43 | a log without `created_at` always puts its day in the punctual set |
| SadhnaService.RunBack | services/sadhnaService.ts:76-85 | the length n of the run of on-time days ending at a day: every day of (d - n, d] is on time and d - n is not |
| SadhnaService.MaxOf | services/sadhnaService.ts:57-60 | returns a member of the set that is at least every member |
| SadhnaService.SortDescending | services/sadhnaService.ts:57-60 | the result lists exactly the set's days, each once, strictly decreasing |
| SadhnaService.CalculatePunctualStreak | services/sadhnaService.ts:23-89 | the loop's result equals the streak specification: 0 with no on-time day or when the most recent one is neither today nor yesterday, else the run of consecutive on-time days ending there |
| SadhnaService.StreakAtMostPunctualDays | services/sadhnaService.ts:77-85 | the streak never exceeds the number of distinct on-time days |
| SadhnaService.StreakAnchor | services/sadhnaService.ts:69-85 | a positive streak starts at today or yesterday; every day of the run is on time and the day before the run is not |
| SadhnaService.StreakWalksFromTodayOrYesterday | services/sadhnaService.ts:69-85 | with no on-time day in the future, the streak is the run ending today when today is on time, else the run ending yesterday |
| SadhnaService.FutureEntryResetsStreak | services/sadhnaService.ts:70-74 | an on-time entry dated tomorrow makes the streak 0 even when today is on time |
| SadhnaService.DuplicateLogCountsOnce | services/sadhnaService.ts:34 | appending a copy of an existing log leaves the streak unchanged |
| SadhnaService.NoPunctualLogsNoStreak | services/sadhnaService.ts:64-67 | no logs, or no on-time log, gives streak 0 |
| SadhnaService.SingleUntimedReportToday | services/sadhnaService.ts:39-42 | one untimed report for today gives streak 1 |
| SadhnaService.ChainAnchoredYesterday | services/sadhnaService.ts:71 | on-time reports for yesterday and the day before give streak 2 |
| SadhnaService.GapBeforeYesterdayBreaks | services/sadhnaService.ts:71-74 | a lone on-time report three days ago gives streak 0 |
| SadhnaService.NewLongest | services/sadhnaService.ts:132 | the new longest streak is the larger of the current streak and the stored one, a missing or zero stored value reading as 0 |
| LevelLogic.Reached | verify_level_logic.ts:7-15 | the number of leading rungs the scan accepts: each of them has threshold at most the streak, and the next rung (if any) exceeds it |
| LevelLogic.Clamp | verify_level_logic.ts:23 | the result lies in [0, 100] and equals the input when the input does |
| LevelLogic.LevelInfoOf | verify_level_logic.ts:17-30 | progress in [0, 100]; with no next level, progress 100 and 0 days remaining; otherwise days remaining is the next threshold minus the streak, at least 1 |
| LevelLogic.ProgressUnclamped | verify_level_logic.ts:21-23 | below the next rung, the ratio before clamping already lies in [0, 100) |
| LevelLogic.GetCurrentLevelInfo | verify_level_logic.ts:3-31 | the loop with its early exit returns exactly the specified level info |
| LevelLogic.NoRungIsNovice | verify_level_logic.ts:4 | when no threshold is met the current level is Novice (id 0, threshold 0) |
| LevelLogic.CurrentIsLastQualifying | verify_level_logic.ts:7-15 | on a sorted ladder the current level is the last rung whose threshold the streak meets |
| LevelLogic.NextIsFirstAbove | verify_level_logic.ts:10-12 | the next level is the first rung whose threshold exceeds the streak |
| LevelLogic.NoNextIffAllMet | verify_level_logic.ts:10 | there is no next level exactly when every threshold is met |
| LevelLogic.ReachedMonotone | verify_level_logic.ts:7-15 | a longer streak never reaches fewer rungs |
| LevelLogic.LevelIdMonotone | verify_level_logic.ts:35-37 | with ids rising along the ladder, the current level id never falls as the streak grows |
| LevelLogic.CheckLevelUp | verify_level_logic.ts:33-39 | null when the streak did not grow; when it grew, the new current level exactly when its id exceeds the old level's, and null otherwise |
| LevelLogic.LevelUpIffThresholdCrossed | verify_level_logic.ts:33-39 | a level-up is reported iff the streak grew past some rung's threshold, and the rung reported is the highest one reached |
| LevelLogic.CrossingReachesMore | verify_level_logic.ts:35-37 | a rung with threshold in (old, new] makes the new streak reach more rungs than the old one |
| LevelLogic.ExampleLadderLevels | verify_level_logic.ts:41-49 | streak 5 is Novice, 7 is Seeker, and 6 to 7 is a level-up to Seeker |
| LevelLogic.ExampleLadderProgress | verify_level_logic.ts:50-58 | streak 3 is 3/7 of the way to Seeker, 11 is halfway from 7 to 15 with 4 days left, 65 is past the top with 100% and no next level |
| LevelLogic.BaseLadderChecks | verify_level_logic.ts:17-39 | on a ladder starting at 0, 7 and 30, streak 3 is on the first rung, 3/7 of the way and 4 days from the second; 6 to 7 reports the second rung; a drop from 10 to 5 reports nothing |
| SadhnaCalendar.BuildLogsMap | components/SadhnaCalendar.tsx:83-87 | the map holds exactly the logged days, and each day maps to the last log for it in the list |
| SadhnaCalendar.GetDateStatus | components/SadhnaCalendar.tsx:28-66 | default for a future day or an unlogged today; red for an unlogged past day; green iff the local submission day is 0 or 1 days after the entry; orange otherwise, including no timestamp |
| SadhnaCalendar.StartOfWeek | components/SadhnaCalendar.tsx:93 | the Sunday on or before the day, at most six days earlier |
| SadhnaCalendar.EndOfWeek | components/SadhnaCalendar.tsx:94 | the Saturday on or after the day, at most six days later |
| SadhnaCalendar.CalendarDays | components/SadhnaCalendar.tsx:90-103 | the loop lists every day from the first grid Sunday to the last grid Saturday, consecutively, a whole number of weeks, covering the month |
| SadhnaCalendar.CellStatus | components/SadhnaCalendar.tsx:157-161 | a day outside the shown month is default; inside it the status is the date status |
| SadhnaCalendar.Calendar.constructor | components/SadhnaCalendar.tsx:75-87 | a new calendar has no selection and no tooltip, and its log map holds exactly the logged days, each mapped to the last log for it in the list |
| SadhnaCalendar.Calendar.HandleDateClick | components/SadhnaCalendar.tsx:105-120 | a logged day shows its tooltip and becomes selected; a red day or an unlogged today clears the selection and asks for the form for that day; a future day changes nothing |
| SadhnaCalendar.Calendar.HandleCellClick | components/SadhnaCalendar.tsx:167-168 | a cell outside the month does nothing; inside it the outcome is exactly the date click's: a logged day is selected with its report, a red day or an unlogged today clears the selection and asks for the form, a future day changes nothing |
| SadhnaCalendar.MissingTimestampOrangeYetPunctual | components/SadhnaCalendar.tsx:65 | a logged past day without timestamp shows orange while the streak counts it on time |
| SadhnaCalendar.DatePartAndLocalDayDisagree | components/SadhnaCalendar.tsx:51-61 | a report whose timestamp's date part is the day after its entry day and whose local day is one day later still counts for the streak yet shows orange |
| SadhnaCalendar.GreenIffPunctualWhenDaysAgree | components/SadhnaCalendar.tsx:46-62 | when the two submission days coincide, a timestamped report is green iff the streak counts it on time |
| MiniStrip.GetDayStatusAsWritten | components/SadhanaMiniStrip.tsx:18-56 | models the code as written: a timestamped report reaches an undeclared `daysDiff`, so evaluation throws (None) |
| MiniStrip.TimestampedReportThrows | components/SadhanaMiniStrip.tsx:37-48 | every logged day up to today whose report has a timestamp makes the as-written status throw |
| MiniStrip.GetDayStatus | components/SadhanaMiniStrip.tsx:18-56 | cream for a future day, red for any unlogged day up to today, green iff the local submission day is 0 or 1 days after the entry, orange otherwise |
| MiniStrip.StripAgreesWithCalendar | components/SadhanaMiniStrip.tsx:26-55 | the strip and the calendar agree on every logged or past day; they differ only on an unlogged today and on future days |
| MiniStrip.FiveDayWindow | components/SadhanaMiniStrip.tsx:80-91 | five days, today minus 4 through today, oldest first, only the last flagged as today |
| MiniStrip.StripClick | components/SadhanaMiniStrip.tsx:135-139 | only a red or cream day asks for the form, and for that day |
| MiniStrip.StripClickOpensUnloggedDays | components/SadhanaMiniStrip.tsx:130-139 | clicking a strip day asks for the form iff that day has no report |
| MiniStrip.FormatDate | components/SadhanaMiniStrip.tsx:24 | the yyyy-MM-dd form of a valid date: ten characters with dashes at positions 4 and 7 |
| MiniStrip.FormatDateOrder | components/SadhanaMiniStrip.tsx:27 | for valid dates, string order of the formatted dates is calendar order, so the string comparison means "after today" |
| StreakTracker.Progress | components/StreakTracker.tsx:14-15 | at most 100, equal to 100 iff the streak reaches the goal of 30; below the goal exactly the streak as a percentage of 30, in [0, 100) for a non-negative streak |
| StreakTracker.ProgressMonotone | components/StreakTracker.tsx:15 | progress never falls as the streak grows |
| StreakTracker.RemainingDays | components/StreakTracker.tsx:93-95 | shown iff the reward is locked, and then at least 1 and adding up with the streak to 30 |
| StreakTracker.BadgeSteps | components/StreakTracker.tsx:71 | the level badge starts at 1, rises by exactly one every seven days, and by at most one per day |
| StreakTracker.RewardCard.constructor | components/StreakTracker.tsx:13 | the celebration has not fired |
| StreakTracker.RewardCard.OnUnlockChange | components/StreakTracker.tsx:18-23 | the confetti fires iff the reward is unlocked and has not fired before; the flag then stays set |
| Common.LevelBadge | components/admin/DevoteeList.tsx:99 | the badge is the unique r with 7(r-1) at most the streak and the streak below 7r |
| SadhnaTracker.ScoreBounded | components/SadhnaTracker.tsx:217-225 | with answers drawn from the options, the score lies between 0 and 30 times the number of select questions |
| SadhnaTracker.TotalScore | components/SadhnaTracker.tsx:217-225 | the sum over the questions of the points of option answers: a form whose answers come from the offered options scores between 0 and 270, and one holding only text answers scores 0 |
| SadhnaTracker.ScoreIgnoresOtherKeys | components/SadhnaTracker.tsx:218-219 | an answer stored under a key that is no question's id leaves the score unchanged |
| SadhnaTracker.BestAnswersScore270 | components/SadhnaTracker.tsx:50-153 | answering every select question with its first option scores exactly 270 |
| SadhnaTracker.BestAnswersFit | components/SadhnaTracker.tsx:34-154 | those full-score answers are answers the form can hold |
| SadhnaTracker.QuestionKinds | components/SadhnaTracker.tsx:34-154 | the date and name questions come first, every later one is a select question |
| SadhnaTracker.QuestionIdsDistinct | components/SadhnaTracker.tsx:34-154 | no two questions share an id |
| SadhnaTracker.TextOnlyScoresNothing | components/SadhnaTracker.tsx:219-223 | answers holding no option object score 0 |
| SadhnaTracker.FreshAnswersFit | components/SadhnaTracker.tsx:189-192 | the date and name a fresh form starts with fit the questions |
| SadhnaTracker.TextAnswerScoresNothing | components/SadhnaTracker.tsx:220 | adding a text answer under a new key leaves the score unchanged |
| SadhnaTracker.Tracker.constructor | components/SadhnaTracker.tsx:188-195 | step 0, answers holding only today's date and the given name (or empty), no pending date, dialog closed, not submitted |
| SadhnaTracker.Tracker.CurrentScreen | components/SadhnaTracker.tsx:197-198 | the summary exactly when the form is not submitted and the step has passed every question; a question screen shows the question at the step |
| SadhnaTracker.Tracker.HandleNext | components/SadhnaTracker.tsx:200-204 | one step forward, never past the summary; nothing else changes |
| SadhnaTracker.Tracker.HandleBack | components/SadhnaTracker.tsx:206-210 | one step back, never before the first question; nothing else changes |
| SadhnaTracker.Tracker.HandleOptionSelect | components/SadhnaTracker.tsx:212-215 | the option is stored under the question's id, replacing any earlier answer, other answers kept |
| SadhnaTracker.Tracker.SetName | components/SadhnaTracker.tsx:411 | the name answer is replaced, nothing else changes |
| SadhnaTracker.Tracker.ChangeDate | components/SadhnaTracker.tsx:379-388 | with a running streak a different date is held pending and the dialog opens; otherwise the date is taken at once |
| SadhnaTracker.Tracker.ConfirmDateChange | components/SadhnaTracker.tsx:398-401 | a non-empty pending date becomes the date, and the dialog closes |
| SadhnaTracker.Tracker.CancelDateChange | components/SadhnaTracker.tsx:397 | the dialog closes, the pending date is dropped, the date stays |
| SadhnaTracker.Tracker.SelectDateFromStrip | components/SadhnaTracker.tsx:356-359 | the date is taken and the form returns to the date question |
| SadhnaTracker.Tracker.HandleSubmit | components/SadhnaTracker.tsx:227-231 | the form is marked submitted and hands out the total score and the answers |
| SadhnaTracker.Tracker.ResetTracker | components/SadhnaTracker.tsx:233-240 | back to step 0 with today's date, an empty name and nothing submitted |
| FestivalService.CheckUpcomingEvents | services/festivalService.ts:117-134 | a festival is kept iff it is 0, 1 or 2 days from today |
| FestivalService.UpcomingIsSubsequence | services/festivalService.ts:127 | the kept festivals keep the input order |
| FestivalService.UpcomingIdempotent | services/festivalService.ts:127-133 | filtering the result again returns it unchanged |
| FestivalService.FarOrPastDropped | services/festivalService.ts:130 | a past festival or one three or more days away is never kept |
| Common.Filter | services/festivalService.ts:127 | an element is in the result iff it is in the input and passes the test |
| CourseService.CalculateCompletion | services/courseService.ts:108-111 | 0 for no lessons; otherwise in [0, 100]: below 100 the nearest whole percent of completed over total, halves up, and 100 only when that percentage rounds to 100 or more |
| CourseService.CompletionDetermined | services/courseService.ts:108-111 | the contract pins the value down: any percentage meeting it is the computed one |
| CourseService.CompleteIsHundred | services/courseService.ts:110 | completing every lesson, or more, gives exactly 100 |
| CourseService.CompletionMonotone | services/courseService.ts:110 | one more completed lesson never lowers the percentage |
| CourseService.CompletionExamples | services/courseService.ts:108-111 | 0 lessons gives 0; 1 of 8 gives 13; 1 of 3 gives 33; 2 of 3 gives 67; 9 of 4 gives 100 |
| Common.RoundDiv | services/courseService.ts:110 | the nearest integer to the quotient, halves rounded up |
| JourneyMap.ProgressFor | components/JourneyMap.tsx:15 | the first progress row about the lesson, none iff there is no such row |
| JourneyMap.GetStatus | components/JourneyMap.tsx:14-24 | completed iff the lesson's first row says completed; otherwise current iff it is the first lesson or the previous lesson is completed; else locked |
| JourneyMap.NodeClick | components/JourneyMap.tsx:67 | a click opens the lesson iff its node is not locked |
| JourneyMap.FirstNeverLocked | components/JourneyMap.tsx:18 | the first lesson is never locked |
| JourneyMap.LockedIffPreviousIncomplete | components/JourneyMap.tsx:16-23 | a lesson is locked iff neither it nor the previous lesson is completed |
| JourneyMap.PrefixProgressShape | components/JourneyMap.tsx:14-24 | when exactly the first k lessons are completed, those show completed, lesson k current and all later ones locked |
| JourneyMap.NoProgressOnlyFirstOpen | components/JourneyMap.tsx:14-24 | with no progress rows only the first lesson can be opened |
| JourneyMap.FirstRowWins | components/JourneyMap.tsx:15 | a later "completed" row does not override an earlier row about the same lesson |
| Common.Find | components/JourneyMap.tsx:15 | none iff no element passes; otherwise the first element that passes |
| App.T | App.tsx:193 | the translation when present and non-empty, else the key itself |
| App.TranslationNeverBlank | App.tsx:193 | a non-empty key never yields an empty label |
| App.ParseSection | App.tsx:298 | a string is recognised iff it is one of the eleven section values, and then as that section |
| App.SectionValueParses | types.ts:63-75 | every section's value parses back to that section |
| App.SectionValueShape | types.ts:63-75 | every section's value is non-empty and free of '/', so it is a single path segment |
| App.BuildUrl | App.tsx:262 | '/' for Home; otherwise '/' and the section value, followed by '/' and the course id when one is given |
| App.NavigateRoute | App.tsx:253-260 | a course page with a course id sets both; any other call sets only the section |
| App.ParseInitialPath | App.tsx:292-308 | a route is produced exactly when the path after its first character is non-empty and its first segment is a section value; the route is then the one navigate sets for that section and the second segment (or none) |
| App.TypedCoursePath | App.tsx:292-308 | the typed path "/course-view/abc/def" opens course "abc"; later segments are ignored |
| App.TrailingSlashPath | App.tsx:292-308 | the typed path "/about/" opens the about page |
| App.ReloadRestoresRoute | App.tsx:292-308 | parsing a URL built by navigate restores the section and course id it set (for ids without '/') |
| App.UnknownSectionIgnored | App.tsx:298 | a path whose first segment is no section value leaves the state alone |
| App.Enroll | App.tsx:323-325 | the course is appended once; an enrolled course is not added again |
| App.MarkComplete | App.tsx:330-338 | the lesson is appended to its course's list unless present; other courses are untouched |
| App.MarkCompleteIdempotent | App.tsx:333-336 | marking the same lesson twice equals marking it once |
| App.MarkCompleteKeepsListsDistinct | App.tsx:330-338 | duplicate-free completion lists stay duplicate-free |
| App.LessonTotal | App.tsx:373 | the lesson count, or 1 for a course without lessons, always at least 1 |
| App.CourseProgress | App.tsx:372-376 | the completed share of the lessons rounded to the nearest percent, not capped |
| App.CourseProgressEnds | App.tsx:376 | no completed lesson is 0 percent; all lessons completed is 100 |
| App.EnrolledCourses | App.tsx:369-378 | the courses are exactly the catalogue filtered to the enrolled ids (a subsequence of the catalogue covering every enrolled catalogue course, repeats kept), each with its progress |
| App.CoursesOf | App.tsx:369-378 | the courses of the enrolled list, element by element |
| App.AppState.constructor | App.tsx:174-188 | the app starts on Home with no course, no enrolments, no completions, no user and no level-up |
| App.AppState.Navigate | App.tsx:253-271 | the route becomes the navigate route and the URL pushed is the built URL |
| App.AppState.SyncInitialPath | App.tsx:292-308 | the route becomes the parsed one, or stays when the path is not recognised |
| App.AppState.HandleEnroll | App.tsx:318-326 | without a session the route goes to sign-in and nothing is enrolled; with one the course is enrolled once |
| App.AppState.HandleMarkLessonComplete | App.tsx:330-338 | the completion map is updated by MarkComplete, nothing else changes |
| App.AppState.LoadUser | App.tsx:223-233 | the current streak is the recalculated one and the longest is the larger of it and the stored value |
| App.AppState.HandleSadhnaComplete | App.tsx:340-360 | without a session or user nothing changes; otherwise the streak fields are replaced and the level-up popup is set iff the level check reports a level |
| StudentDashboard.SpaceBeforeCapitals | components/StudentDashboard.tsx:47 | the result is longer by the number of capitals, never starts with a capital, and every capital in it is preceded by a space |
| StudentDashboard.SpaceBeforeCapitalsRoundTrip | components/StudentDashboard.tsx:47 | dropping the space in front of each capital gives the key back, so the spacing only inserts and every character survives in order |
| StudentDashboard.UnderscoresToSpaces | components/StudentDashboard.tsx:48 | every '_' becomes a space, nothing else changes, and no '_' remains |
| StudentDashboard.Capitalize | components/StudentDashboard.tsx:51 | the first character upper-cased and the rest lower-cased |
| StudentDashboard.CapitalizeAll | components/StudentDashboard.tsx:51 | each word capitalised, word by word |
| StudentDashboard.FormatAnswerKey | components/StudentDashboard.tsx:45-53 | a label never contains '_' and is title case: the first character and every character after a space is not a lower-case letter, every other character is not an upper-case one |
| StudentDashboard.JoinTitleCase | components/StudentDashboard.tsx:50-52 | joining title-case words without spaces with single spaces keeps the text title case |
| StudentDashboard.NoCapitalsUnchanged | components/StudentDashboard.tsx:47 | a key without capitals is not changed by the spacing step |
| StudentDashboard.FormatAnswerKeyExample | components/StudentDashboard.tsx:45-53 | "japa_total" is shown as "Japa Total" |
| StudentDashboard.NudgeFestival | components/StudentDashboard.tsx:39-43 | the first near festival exactly two days away, else the first near festival, else none |
| StudentDashboard.BannerLabel | components/StudentDashboard.tsx:69 | "Today" for 0 days, "Tomorrow" for 1, "in N days" otherwise |
| StudentDashboard.BannerShownIffFestivalNear | components/StudentDashboard.tsx:39-61 | the banner shows iff some festival is within two days, and the festival it names is one of them |
| StudentDashboard.BannerLabelsWithinTwoDays | components/StudentDashboard.tsx:61-69 | a shown banner reads "Today", "Tomorrow" or "in 2 days" |
| StudentDashboard.ReversedHistory | components/StudentDashboard.tsx:141 | models the code as written: the history reversed, position by position |
| StudentDashboard.ReversedKeepsReports | components/StudentDashboard.tsx:141 | reversing twice gives the history back, and every report is kept |
| StudentDashboard.ReversingAscendingDescends | components/StudentDashboard.tsx:141 | a history stored oldest first comes out newest first |
| StudentDashboard.FetchedHistoryShownOldestFirst | services/sadhnaService.ts:154 | a newest-first history of two days comes out of the reversal oldest first, while the newest-first ordering keeps it as fetched |
| StudentDashboard.InsertNewest | components/StudentDashboard.tsx:141 | inserting a report into a newest-first list keeps it newest first and adds exactly that report |
| StudentDashboard.HistoryNewestFirst | components/StudentDashboard.tsx:141 | the reports newest first, none added or lost |
| StudentDashboard.HistoryNewestFirstKeepsSorted | services/sadhnaService.ts:154 | a history already fetched newest first is shown as fetched |
| StudentDashboard.Breakdown | components/StudentDashboard.tsx:199-202 | the breakdown lists a key iff it is not "date" or "name" and its answer is an option with points, with that answer |
| StudentDashboard.PointsTone | components/StudentDashboard.tsx:211-213 | green iff at least 25 points, blue iff 15 to 24, red iff below 15 |
| StudentDashboard.BreakdownListsAnsweredSelects | components/StudentDashboard.tsx:199-202 | for answers the questionnaire produced, the breakdown lists exactly the answered select questions |
| DevoteeList.FilterUsers | components/admin/DevoteeList.tsx:44-47 | a user is kept iff the lowercased term occurs in the lowercased name or email |
| DevoteeList.FilterUsersIsSubsequence | components/admin/DevoteeList.tsx:44 | the kept users keep the table's order |
| DevoteeList.EmptyTermKeepsAll | components/admin/DevoteeList.tsx:44-47 | an empty search term keeps every user |
| DevoteeList.FullNameFound | components/admin/DevoteeList.tsx:45 | searching for a user's whole name finds that user |
| DevoteeList.ToggleRole | components/admin/DevoteeList.tsx:36 | "admin" becomes "user"; any other role, or none, becomes "admin" |
| DevoteeList.ConfirmVerb | components/admin/DevoteeList.tsx:33 | the dialog says "revoke" iff the role is "admin", else "grant" |
| DevoteeList.ToggleTwice | components/admin/DevoteeList.tsx:36 | toggling twice restores "admin" and "user" |
| DevoteeList.DevoteeLevel | components/admin/DevoteeList.tsx:99 | one more than the whole weeks of the longest streak, a missing one counting as 0 |
| DevoteeList.NewDevoteeIsLevelOne | components/admin/DevoteeList.tsx:99 | no recorded longest streak, or one under a week, shows level 1 |
| SopanaManager.WithField | components/admin/SopanaManager.tsx:113 | exactly the named field of the question is replaced |
| SopanaManager.Editor.constructor | components/admin/SopanaManager.tsx:10-14 | nothing is being edited or expanded |
| SopanaManager.Editor.HandleEdit | components/admin/SopanaManager.tsx:36-39 | the lesson's id is being edited and the form is a copy of the lesson |
| SopanaManager.Editor.UpdateNote | components/admin/SopanaManager.tsx:96-100 | only note idx changes; the length and the other notes stay, a missing list reading as empty |
| SopanaManager.Editor.RemoveNote | components/admin/SopanaManager.tsx:102-105 | exactly the note at idx is dropped, the rest kept in order |
| SopanaManager.Editor.AddNote | components/admin/SopanaManager.tsx:107-109 | one empty note is appended |
| SopanaManager.Editor.UpdateQuiz | components/admin/SopanaManager.tsx:111-115 | only the named field of question qIdx changes |
| SopanaManager.Editor.UpdateOption | components/admin/SopanaManager.tsx:117-123 | only option oIdx of question qIdx changes; other questions and options stay |
| SopanaManager.Editor.RemoveQuizItem | components/admin/SopanaManager.tsx:125-128 | exactly the question at idx is dropped, the rest kept in order |
| SopanaManager.Editor.AddQuizItem | components/admin/SopanaManager.tsx:130-135 | the blank question is appended |
| SopanaManager.Editor.ToggleExpanded | components/admin/SopanaManager.tsx:496 | the expanded row collapses; any other row becomes the expanded one |
| SopanaManager.BlankQuestionShape | components/admin/SopanaManager.tsx:133 | the blank question has empty text, four empty options, answer 0 and empty explanation |
| SopanaManager.BookKey | components/admin/SopanaManager.tsx:139 | the book name, or "Uncategorized" when it is empty; never empty |
| SopanaManager.OfBookIsSubsequence | components/admin/SopanaManager.tsx:141 | a book's lessons keep the list order |
| SopanaManager.GroupSopanas | components/admin/SopanaManager.tsx:138-143 | one group per book, with distinct books, each holding exactly that book's lessons in list order, none empty, every lesson covered, total size equal to the list length; the groups follow the order in which their books first appear |
| SopanaManager.EachLessonInOneGroup | components/admin/SopanaManager.tsx:138-143 | every lesson belongs to exactly one group, the one for its book |
| CourseFactory.AssignAt | components/admin/CourseFactory.tsx:209-210 | position idx holds the new value, every other position is unchanged, and the length grows only when idx is the end |
| CourseFactory.EditStep | components/admin/CourseFactory.tsx:202-205 | the editor opens on that row with a copy of it, rows unchanged |
| CourseFactory.SaveEditStep | components/admin/CourseFactory.tsx:207-218 | a no-op unless both an index and a draft are set; otherwise the draft replaces the row and editing closes |
| CourseFactory.RemoveStepAsWritten | components/admin/CourseFactory.tsx:220-226 | models the code as written: the row is dropped and the edit index and draft are kept as they were |
| CourseFactory.StaleEditIndexOverwritesWrongRow | components/admin/CourseFactory.tsx:220-226 | with rows a, b, c, draft x open on b and row a removed, saving as written gives b, x instead of the intended x, c |
| CourseFactory.StaleEditIndexHidesEditor | components/admin/CourseFactory.tsx:220-226 | with the last of three rows open and the first removed as written, the index names no row, so the editor and its save button disappear while the stale index and draft stay (see "New batches" under Left out) |
| CourseFactory.RemoveStep | components/admin/CourseFactory.tsx:220-226 | exactly the row is dropped; an open editor follows its row, or closes with its draft discarded if its row was removed; a closed editor keeps its leftover draft; the editor stays valid and on screen if it was |
| CourseFactory.CancelStep | components/admin/CourseFactory.tsx:418 | the editor closes, the rows and the leftover draft stay, and a later save-edit changes nothing |
| CourseFactory.RemoveCommutesWithSave | components/admin/CourseFactory.tsx:207-226 | with the corrected removal and the editor on screen, removing another row and saving the draft give the same rows in either order |
| CourseFactory.RemoveFirst | components/admin/CourseFactory.tsx:169 | with no occurrence the name is unchanged; otherwise exactly the first occurrence is cut out and everything before and after it kept |
| CourseFactory.RemoveFirstAt | components/admin/CourseFactory.tsx:169 | given the first occurrence of the pattern, the result is the text before it followed by the text after it |
| CourseFactory.RemoveFirstExample | components/admin/CourseFactory.tsx:169 | "gita.pdf" becomes "gita" |
| CourseFactory.SavedBookName | components/admin/CourseFactory.tsx:169 | the entered name if non-empty, else the file name without its first ".pdf" if that is non-empty, else (no file, or a file name that is only ".pdf") "Manual Upload"; never empty |
| CourseFactory.SaveRows | components/admin/CourseFactory.tsx:167-175 | one row per lesson, book order its position, book name the saved one, other fields copied |
| CourseFactory.SavedOrdersDistinct | components/admin/CourseFactory.tsx:170 | book orders strictly increase along the rows |
| CourseFactory.Factory.constructor | components/admin/CourseFactory.tsx:12-16 | the review table holds the given rows with no edit and no pending deletion |
| CourseFactory.Factory.HandleEdit | components/admin/CourseFactory.tsx:202-205 | the state becomes the edit step's; other fields unchanged |
| CourseFactory.Factory.CancelEdit | components/admin/CourseFactory.tsx:418 | only the edit index clears; the state becomes the cancel step's |
| CourseFactory.Factory.HandleSaveEdit | components/admin/CourseFactory.tsx:207-218 | clicked in the edited row, the copy-and-assign update equals the save step and keeps the editor valid |
| CourseFactory.Factory.HandleRemove | components/admin/CourseFactory.tsx:220-226 | the corrected removal, from any valid state including a cancelled edit: the state becomes the remove step's and the pending deletion clears |
| CourseFactory.Factory.HandleSaveToDatabase | components/admin/CourseFactory.tsx:157-200 | an empty list sends nothing; otherwise the rows are sent and on success the list and the file are cleared; the edit index and draft stay as they were, and the editor stays valid |
| FestivalManager.TasksAfterAdd | components/admin/FestivalManager.tsx:39-41 | a blank or whitespace-only description leaves the list unchanged; otherwise exactly one task with that description and points is appended |
| FestivalManager.RemoveUndoesAdd | components/admin/FestivalManager.tsx:39-48 | removing the task just added gives the list back |
| FestivalManager.RemoveKeepsOthers | components/admin/FestivalManager.tsx:46-48 | removing index i drops only that task and keeps the order; an index outside the list changes nothing |
| FestivalManager.TaskRows | components/admin/FestivalManager.tsx:64-70 | one row per task, in order, carrying the festival id, description and points |
| FestivalManager.Form.constructor | components/admin/FestivalManager.tsx:9-21 | the form starts empty, fast type none, no tasks, task points 10 |
| FestivalManager.Form.AddTask | components/admin/FestivalManager.tsx:39-44 | the tasks become the add result; after a successful add the description resets to '' and points to 10 |
| FestivalManager.Form.RemoveTask | components/admin/FestivalManager.tsx:46-48 | the task at the index is dropped, nothing else changes |
| FestivalManager.Form.Submit | components/admin/FestivalManager.tsx:50-86 | once the festival is created its task rows are sent; the form closes and every field resets (empty strings, fast type none, no tasks) only when the festival was created and its tasks, if any, were all saved; a failed creation or a failed task insert leaves every field as it was |
| Common.Trim | components/admin/FestivalManager.tsx:40 | the input with its leading and trailing whitespace removed |
| Common.TrimEmptyIffBlank | components/admin/FestivalManager.tsx:40 | the trimmed text is empty iff the text is all whitespace |
| Common.RemoveAt | components/admin/FestivalManager.tsx:47 | filtering out index i drops exactly that element; an index outside the list changes nothing |
| Common.Split | services/sadhnaService.ts:20 | at least one piece; the first is the text up to the first separator, and no piece contains a separator |

## Left out

- **Backend calls.** Supabase reads, writes, auth and storage are left out. Their results are parameters (`createdId`, `insertSucceeds`, `hasSession`, the stored longest streak).
- **Browser side effects.** The history API, scrolling, timers, alerts, confetti and rendering are left out.
- **Draft saving.** `saveDraft` and `deleteDraft` in `components/admin/CourseFactory.tsx` are external calls and are not modelled.
- **Time zones.** The current instant is a day parameter. The link between a timestamp's date part and its local day is not modelled.
- **Floating point.** Progress percentages are real numbers, and `Math.round` is integer arithmetic (`Common.RoundDiv`). NaN and infinity are not modelled.
- **Translations.** The translation tables' text is not reproduced. `App.T` takes the table of the current language as a parameter.
- **Level ladder.** `LEVEL_SYSTEM` is not part of this model. The ladder is a parameter of every level function.
- **Out-of-range edits.**
  - SopanaManager.Editor.UpdateNote requires an index inside the notes. JavaScript would pad the copy with holes, which has no counterpart in a Dafny sequence.
  - SopanaManager.Editor.UpdateQuiz requires an index inside the quiz, for the same reason.
  - SopanaManager.Editor.UpdateOption requires both indices in range, for the same reason.
- **Case mapping.** Case mapping is ASCII only. `toLowerCase` and `toUpperCase` on other letters are the identity here.
- SopanaManager.GroupSopanas: the groups follow first appearance for every book name. A JavaScript object lists integer-like keys first, in numeric order, and that exception is not modelled. The grouping object is a plain `{}`, so a book named after an inherited `Object.prototype` member ("constructor", "toString", "valueOf", "hasOwnProperty", "isPrototypeOf", "propertyIsEnumerable", "toLocaleString", "__proto__", "__defineGetter__", "__defineSetter__", "__lookupGetter__", "__lookupSetter__") finds a truthy non-array value there, and `push` throws a TypeError (`components/admin/SopanaManager.tsx:140-141`). The model groups such lessons like any other book; that error path is not modelled.
- **Failed saves.** App.AppState.HandleSadhnaComplete models only the successful save. A failed save shows an alert and changes nothing.
- **Invalid numbers.** `Number(...)` on the points input of the festival form can give NaN. The model takes points as an integer.
- **The `replace` flag.** `navigate` can replace the history entry instead of pushing one. Only the URL and the state are modelled.
- **The popstate handler.** App.tsx:274-288 is not modelled.
- **New batches.** Restoring a draft, generating lessons and the Reset button (`components/admin/CourseFactory.tsx:51`, `:141`, `:383`) replace the rows without touching the editor and are not modelled. Like a successful CourseFactory.Factory.HandleSaveToDatabase, they can leave an edit index and a draft from the old rows behind.

## Findings

| source | as written | input that shows it | evidently intended | confidence | as-written member | corrected member |
|---|---|---|---|---|---|---|
| components/SadhanaMiniStrip.tsx:48 | the punctuality test reads `daysDiff`, which this function never declares, so every timestamped report throws | any logged day up to today whose report has `createdAt` | compare the local submission day with the entry day, as the month calendar does | high (not executed) | MiniStrip.GetDayStatusAsWritten, MiniStrip.TimestampedReportThrows | MiniStrip.GetDayStatus |
| components/admin/CourseFactory.tsx:220-226 | removing a row keeps `editingIndex`, so an open draft is later saved over whichever row now has that index | rows a, b, c; edit row 1 (b) to x; remove row 0; save: rows become b, x | the draft replaces its own row: x, c | high (not executed) | CourseFactory.RemoveStepAsWritten, CourseFactory.StaleEditIndexOverwritesWrongRow | CourseFactory.RemoveStep |
| components/StudentDashboard.tsx:141 | the history is reversed for display, but it is fetched newest first (services/sadhnaService.ts:154), so it is shown oldest first | reports for yesterday and today, fetched as today, yesterday: shown as yesterday, today | newest first | medium (not executed) | StudentDashboard.ReversedHistory, StudentDashboard.FetchedHistoryShownOldestFirst | StudentDashboard.HistoryNewestFirst |
