/** The application shell: translation lookup, the section router and its
    URLs, course enrolment, lesson completion, the enrolled-course progress
    list, and the streak fields and level-up popup kept for the signed-in
    user. */
module App {
  import opened Common
  import LevelLogic
  import SadhnaService

  // ---------------------------------------------------------------------------
  // Translation
  // ---------------------------------------------------------------------------

  /** `t(key)`: the current language's text for `key`, or the key itself when
      the entry is missing or empty. `dict` is the table of the current
      language. */
  function T(dict: map<string, string>, key: string): (r: string)
    ensures key in dict && dict[key] != "" ==> r == dict[key]
    ensures !(key in dict && dict[key] != "") ==> r == key
  {
    if key in dict && dict[key] != "" then dict[key] else key
  }

  /** A label never comes out blank: either the translation is non-empty or
      the key itself is shown. */
  lemma TranslationNeverBlank(dict: map<string, string>, key: string)
    requires key != ""
    ensures T(dict, key) != ""
  {
  }

  // ---------------------------------------------------------------------------
  // Sections and URLs
  // ---------------------------------------------------------------------------

  datatype AppSection =
    | Home | Explore | Sadhna | Auth | Dashboard | CourseView | About
    | ProfileSetup | VaishnavaHub | AdminLogin | AdminDashboard

  /** The enum's string value, used as the first path segment. */
  function SectionValue(s: AppSection): string
  {
    match s
    case Home => "home"
    case Explore => "explore"
    case Sadhna => "sadhna"
    case Auth => "auth"
    case Dashboard => "dashboard"
    case CourseView => "course-view"
    case About => "about"
    case ProfileSetup => "profile-setup"
    case VaishnavaHub => "vaishnava-hub"
    case AdminLogin => "admin-login"
    case AdminDashboard => "admin-dashboard"
  }

  /** `Object.values(AppSection).includes(str)`, returning the section. */
  function ParseSection(str: string): (r: Option<AppSection>)
    ensures r.Some? ==> SectionValue(r.value) == str
  {
    if str == "home" then Some(Home)
    else if str == "explore" then Some(Explore)
    else if str == "sadhna" then Some(Sadhna)
    else if str == "auth" then Some(Auth)
    else if str == "dashboard" then Some(Dashboard)
    else if str == "course-view" then Some(CourseView)
    else if str == "about" then Some(About)
    else if str == "profile-setup" then Some(ProfileSetup)
    else if str == "vaishnava-hub" then Some(VaishnavaHub)
    else if str == "admin-login" then Some(AdminLogin)
    else if str == "admin-dashboard" then Some(AdminDashboard)
    else None
  }

  /** Every section's value is recognised as that section. */
  lemma SectionValueParses(s: AppSection)
    ensures ParseSection(SectionValue(s)) == Some(s)
  {
  }

  /** Section values are non-empty and free of '/', so each is one path
      segment. */
  lemma SectionValueShape(s: AppSection)
    ensures SectionValue(s) != "" && NoneOf(SectionValue(s), {'/'})
  {
  }

  /** The URL `navigate` pushes: '/' for Home, else '/<section>' followed by
      '/<courseId>' when a (non-empty) course id is given. */
  function BuildUrl(section: AppSection, courseId: string): (url: string)
    ensures |url| >= 1 && url[0] == '/'
    ensures section == Home <==> url == "/"
  {
    if section == Home then "/"
    else "/" + SectionValue(section) + (if courseId != "" then "/" + courseId else "")
  }

  /** What a routing step sets: the active section and, for a course page
      with an id, the active course. */
  datatype Route = Route(section: AppSection, course: Option<string>)

  /** The state `navigate(section, courseId)` sets. */
  function NavigateRoute(section: AppSection, courseId: string): (r: Route)
    ensures r.section == section
    ensures r.course.Some? <==> section == CourseView && courseId != ""
    ensures r.course.Some? ==> r.course.value == courseId
  {
    if section == CourseView && courseId != "" then Route(CourseView, Some(courseId))
    else Route(section, None)
  }

  /** The initial path sync: drop the leading character, split on '/', and
      route only when the first segment is a section value; the second
      segment, when present and non-empty, is the course id of a course page.
      `None` leaves the state as it was. */
  function ParseInitialPath(pathname: string): (r: Option<Route>)
    ensures r.Some? <==> |pathname| >= 2 && ParseSection(Split(pathname[1..], {'/'})[0]).Some?
    ensures r.Some? ==> ParseSection(Split(pathname[1..], {'/'})[0]) == Some(r.value.section)
    ensures r.Some? ==> r.value == NavigateRoute(r.value.section, SecondSegment(Split(pathname[1..], {'/'})))
    ensures r.Some? && r.value.course.Some? ==> r.value.section == CourseView
  {
    var path := if |pathname| >= 1 then pathname[1..] else "";
    if path == "" then None
    else
      var parts := Split(path, {'/'});
      var id := if |parts| > 1 then parts[1] else "";
      match ParseSection(parts[0])
      case None => None
      case Some(s) => Some(NavigateRoute(s, id))
  }

  /** The second path segment, or "" when there is none. */
  function SecondSegment(parts: seq<string>): string
  {
    if |parts| > 1 then parts[1] else ""
  }

  /** A typed course URL with an extra segment opens that course: the path
      sync reads only the first two segments. */
  lemma TypedCoursePath(pathname: string, v: string, id: string, extra: string)
    requires v == "course-view" && id == "abc" && extra == "def"
    requires pathname == "/" + v + "/" + id + "/" + extra
    ensures ParseInitialPath(pathname) == Some(Route(CourseView, Some("abc")))
  {
    assert pathname[1..] == v + ['/'] + (id + ['/'] + extra);
    assert NoneOf(v, {'/'}) && NoneOf(id, {'/'}) && NoneOf(extra, {'/'});
    SplitAtSeparator(v, '/', id + ['/'] + extra, {'/'});
    SplitAtSeparator(id, '/', extra, {'/'});
    SplitNoSeparator(extra, {'/'});
    assert Split(pathname[1..], {'/'}) == [v, id, extra];
    assert ParseSection(v) == Some(CourseView);
  }

  /** A trailing slash after a section is ignored. */
  lemma TrailingSlashPath(pathname: string, v: string)
    requires v == "about" && pathname == "/" + v + "/"
    ensures ParseInitialPath(pathname) == Some(Route(About, None))
  {
    assert pathname[1..] == v + ['/'] + "";
    assert NoneOf(v, {'/'});
    SplitAtSeparator(v, '/', "", {'/'});
    SplitNoSeparator("", {'/'});
    assert Split(pathname[1..], {'/'}) == [v, ""];
    assert ParseSection(v) == Some(About);
  }

  /** Reloading the page at a URL `navigate` produced restores the route it
      set, when the course id has no '/': for Home the path sync does
      nothing and the initial section is Home already. */
  lemma {:induction false} ReloadRestoresRoute(section: AppSection, courseId: string)
    requires NoneOf(courseId, {'/'})
    ensures section == Home ==> ParseInitialPath(BuildUrl(section, courseId)).None?
    ensures section != Home ==>
      ParseInitialPath(BuildUrl(section, courseId)) == Some(NavigateRoute(section, courseId))
  {
    if section != Home {
      SectionValueParses(section);
      SectionValueShape(section);
      RouteFromValue(SectionValue(section), section, courseId);
    }
  }

  /** The path sync reads back any non-empty, '/'-free section value and
      course id that `navigate` wrote. */
  lemma RouteFromValue(v: string, section: AppSection, courseId: string)
    requires section != Home && v == SectionValue(section)
    requires ParseSection(v) == Some(section) && v != "" && NoneOf(v, {'/'})
    requires NoneOf(courseId, {'/'})
    ensures ParseInitialPath(BuildUrl(section, courseId)) == Some(NavigateRoute(section, courseId))
  {
    var url := BuildUrl(section, courseId);
    assert url == "/" + v + (if courseId != "" then "/" + courseId else "");
    PathSegments(v, courseId);
  }

  /** The segments of a path built from a '/'-free first segment and an
      optional '/'-free second one. */
  lemma PathSegments(v: string, courseId: string)
    requires v != "" && NoneOf(v, {'/'}) && NoneOf(courseId, {'/'})
    ensures var url := "/" + v + (if courseId != "" then "/" + courseId else "");
      url[1..] != "" &&
      Split(url[1..], {'/'}) == if courseId != "" then [v, courseId] else [v]
  {
    var url := "/" + v + (if courseId != "" then "/" + courseId else "");
    if courseId != "" {
      assert url[1..] == v + ['/'] + courseId;
      SplitAtSeparator(v, '/', courseId, {'/'});
      SplitNoSeparator(courseId, {'/'});
    } else {
      assert url[1..] == v;
      SplitNoSeparator(v, {'/'});
    }
  }

  /** A first segment that is no section value leaves the state alone. */
  lemma UnknownSectionIgnored(head: string, rest: string)
    requires NoneOf(head, {'/'}) && ParseSection(head).None?
    ensures ParseInitialPath("/" + head).None?
    ensures ParseInitialPath("/" + head + "/" + rest).None?
  {
    assert ("/" + head)[1..] == head;
    if head != "" {
      SplitNoSeparator(head, {'/'});
    }
    var p := "/" + head + "/" + rest;
    assert p[1..] == head + ['/'] + rest;
    TakeUntilFree(head, '/', rest, {'/'});
  }

  // ---------------------------------------------------------------------------
  // Enrolment and lesson completion
  // ---------------------------------------------------------------------------

  predicate NoDuplicates<T(==)>(s: seq<T>)
  {
    forall i, j :: 0 <= i < j < |s| ==> s[i] != s[j]
  }

  /** The enrolment update: the course is appended unless already there. */
  function Enroll(ids: seq<string>, courseId: string): (r: seq<string>)
    ensures courseId in r
    ensures forall x :: x in r <==> x in ids || x == courseId
    ensures ids <= r && |r| <= |ids| + 1
    ensures courseId in ids ==> r == ids
    ensures NoDuplicates(ids) ==> NoDuplicates(r)
  {
    if courseId in ids then ids else ids + [courseId]
  }

  /** The lessons recorded as completed for a course; none when absent. */
  function CompletedOf(m: map<string, seq<string>>, courseId: string): seq<string>
  {
    if courseId in m then m[courseId] else []
  }

  /** The completion update: the lesson is appended to its course's list
      unless already there; other courses are not touched. */
  function MarkComplete(m: map<string, seq<string>>, courseId: string, lessonId: string): (r: map<string, seq<string>>)
    ensures lessonId in CompletedOf(r, courseId)
    ensures forall k :: k != courseId ==> (k in r <==> k in m) && CompletedOf(r, k) == CompletedOf(m, k)
    ensures lessonId in CompletedOf(m, courseId) ==> r == m
    ensures lessonId !in CompletedOf(m, courseId) ==>
      courseId in r && r[courseId] == CompletedOf(m, courseId) + [lessonId]
  {
    var current := CompletedOf(m, courseId);
    if lessonId !in current then m[courseId := current + [lessonId]] else m
  }

  /** Marking the same lesson twice is the same as marking it once. */
  lemma MarkCompleteIdempotent(m: map<string, seq<string>>, courseId: string, lessonId: string)
    ensures MarkComplete(MarkComplete(m, courseId, lessonId), courseId, lessonId) ==
      MarkComplete(m, courseId, lessonId)
  {
  }

  /** The completion lists never hold a lesson twice. */
  lemma MarkCompleteKeepsListsDistinct(m: map<string, seq<string>>, courseId: string, lessonId: string)
    requires forall k :: k in m ==> NoDuplicates(m[k])
    ensures var r := MarkComplete(m, courseId, lessonId);
      forall k :: k in r ==> NoDuplicates(r[k])
  {
  }

  // ---------------------------------------------------------------------------
  // Enrolled-course progress
  // ---------------------------------------------------------------------------

  datatype Course = Course(id: string, lessons: Option<seq<string>>)

  datatype EnrolledCourse = EnrolledCourse(course: Course, progress: int)

  /** `c.lessons?.length || 1`: a course without lessons counts as one. */
  function LessonTotal(c: Course): (n: int)
    ensures n >= 1
    ensures c.lessons.Some? && |c.lessons.value| > 0 ==> n == |c.lessons.value|
  {
    if c.lessons.Some? && |c.lessons.value| > 0 then |c.lessons.value| else 1
  }

  /** A course's mastery: the completed share of its lessons, rounded to the
      nearest percent with halves up. It is not capped. */
  function CourseProgress(c: Course, m: map<string, seq<string>>): (p: int)
    ensures p >= 0
    ensures var done := |CompletedOf(m, c.id)|; var total := LessonTotal(c);
      total * (2 * p - 1) <= 200 * done < total * (2 * p + 1)
  {
    RoundDiv(100 * |CompletedOf(m, c.id)|, LessonTotal(c))
  }

  /** No completed lesson is 0%, every lesson completed is 100%. */
  lemma CourseProgressEnds(c: Course, m: map<string, seq<string>>)
    ensures CompletedOf(m, c.id) == [] ==> CourseProgress(c, m) == 0
    ensures |CompletedOf(m, c.id)| == LessonTotal(c) ==> CourseProgress(c, m) == 100
  {
    var total := LessonTotal(c);
    var p := CourseProgress(c, m);
    if CompletedOf(m, c.id) == [] {
      ProductBounds(total, 2 * p - 1, 2 * p + 1, 0);
    }
    if |CompletedOf(m, c.id)| == total {
      ProductBounds(total, 2 * p - 1, 2 * p + 1, 200);
    }
  }

  /** With `t > 0`, `t*lo <= t*x < t*hi` places `x` in `[lo, hi)`. */
  lemma ProductBounds(t: int, lo: int, hi: int, x: int)
    requires t > 0 && t * lo <= t * x < t * hi
    ensures lo <= x < hi
  {
    assert t * (x - lo) >= 0;
    assert t * (hi - x) > 0;
  }

  /** `enrolledCourses`: the catalogue filtered to the enrolled ids, each
      with its progress. */
  function EnrolledCourses(catalog: seq<Course>, enrolled: seq<string>, m: map<string, seq<string>>): (r: seq<EnrolledCourse>)
    ensures forall i :: 0 <= i < |r| ==> r[i].course in catalog && r[i].course.id in enrolled
    ensures forall i :: 0 <= i < |r| ==> r[i].progress == CourseProgress(r[i].course, m)
    ensures forall c :: c in catalog && c.id in enrolled ==> exists i :: 0 <= i < |r| && r[i].course == c
    ensures IsSubsequence(CoursesOf(r), catalog)
    ensures CoursesOf(r) == Filter(catalog, (c: Course) => c.id in enrolled)
  {
    var kept := Filter(catalog, (c: Course) => c.id in enrolled);
    FilterIsSubsequence(catalog, (c: Course) => c.id in enrolled);
    var r := seq(|kept|, i requires 0 <= i < |kept| => EnrolledCourse(kept[i], CourseProgress(kept[i], m)));
    assert CoursesOf(r) == kept;
    KeptCoursesListed(catalog, enrolled, kept, r);
    r
  }

  /** Every course the filter keeps has an entry. */
  lemma KeptCoursesListed(catalog: seq<Course>, enrolled: seq<string>, kept: seq<Course>, r: seq<EnrolledCourse>)
    requires forall c :: c in kept <==> c in catalog && c.id in enrolled
    requires |r| == |kept| && forall i :: 0 <= i < |r| ==> r[i].course == kept[i]
    ensures forall c :: c in catalog && c.id in enrolled ==> exists i :: 0 <= i < |r| && r[i].course == c
  {
    forall c | c in catalog && c.id in enrolled
      ensures exists i :: 0 <= i < |r| && r[i].course == c
    {
      var j :| 0 <= j < |kept| && kept[j] == c;
      assert r[j].course == c;
    }
  }

  function CoursesOf(r: seq<EnrolledCourse>): (cs: seq<Course>)
    ensures |cs| == |r| && forall i :: 0 <= i < |r| ==> cs[i] == r[i].course
  {
    seq(|r|, i requires 0 <= i < |r| => r[i].course)
  }

  // ---------------------------------------------------------------------------
  // Application state
  // ---------------------------------------------------------------------------

  /** The signed-in user's streak fields. */
  datatype StreakFields = StreakFields(currentStreak: int, longestStreak: int)

  /** The shell's state, updated by its handlers. The session is taken as
      given; the level ladder is a parameter. */
  class AppState {
    var activeSection: AppSection
    var activeCourseId: Option<string>
    var enrolledCourseIds: seq<string>
    var completedLessonsMap: map<string, seq<string>>
    var user: Option<StreakFields>
    var levelUp: Option<LevelLogic.Level>
    const hasSession: bool
    const table: seq<LevelLogic.Level>

    constructor(hasSession: bool, table: seq<LevelLogic.Level>)
      ensures activeSection == Home && activeCourseId.None?
      ensures enrolledCourseIds == [] && completedLessonsMap == map[]
      ensures user.None? && levelUp.None?
      ensures this.hasSession == hasSession && this.table == table
    {
      activeSection := Home;
      activeCourseId := None;
      enrolledCourseIds := [];
      completedLessonsMap := map[];
      user := None;
      levelUp := None;
      this.hasSession := hasSession;
      this.table := table;
    }

    /** `navigate`: sets the route and returns the URL pushed to history. */
    method Navigate(section: AppSection, courseId: string) returns (url: string)
      modifies this
      ensures url == BuildUrl(section, courseId)
      ensures activeSection == section
      ensures activeCourseId ==
        (if NavigateRoute(section, courseId).course.Some? then Some(courseId) else old(activeCourseId))
      ensures enrolledCourseIds == old(enrolledCourseIds) && completedLessonsMap == old(completedLessonsMap)
      ensures user == old(user) && levelUp == old(levelUp)
    {
      if section == CourseView && courseId != "" {
        activeCourseId := Some(courseId);
        activeSection := CourseView;
      } else {
        activeSection := section;
      }
      url := BuildUrl(section, courseId);
    }

    /** The initial sync from the address bar. */
    method SyncInitialPath(pathname: string)
      modifies this
      ensures match ParseInitialPath(pathname)
        case None => activeSection == old(activeSection) && activeCourseId == old(activeCourseId)
        case Some(r) =>
          activeSection == r.section &&
          activeCourseId == (if r.course.Some? then r.course else old(activeCourseId))
      ensures enrolledCourseIds == old(enrolledCourseIds) && completedLessonsMap == old(completedLessonsMap)
      ensures user == old(user) && levelUp == old(levelUp)
    {
      var r := ParseInitialPath(pathname);
      if r.Some? {
        if r.value.course.Some? {
          activeCourseId := r.value.course;
        }
        activeSection := r.value.section;
      }
    }

    /** `handleEnroll`: without a session, go to the sign-in page and enrol
        nothing; with one, enrol the course once. */
    method HandleEnroll(courseId: string)
      modifies this
      ensures !hasSession ==> activeSection == Auth && enrolledCourseIds == old(enrolledCourseIds)
      ensures hasSession ==>
        activeSection == old(activeSection) && enrolledCourseIds == Enroll(old(enrolledCourseIds), courseId)
      ensures activeCourseId == old(activeCourseId) && completedLessonsMap == old(completedLessonsMap)
      ensures user == old(user) && levelUp == old(levelUp)
    {
      if !hasSession {
        var _ := Navigate(Auth, "");
        return;
      }
      if courseId !in enrolledCourseIds {
        enrolledCourseIds := enrolledCourseIds + [courseId];
      }
    }

    /** `handleMarkLessonComplete`. */
    method HandleMarkLessonComplete(courseId: string, lessonId: string)
      modifies this
      ensures completedLessonsMap == MarkComplete(old(completedLessonsMap), courseId, lessonId)
      ensures activeSection == old(activeSection) && activeCourseId == old(activeCourseId)
      ensures enrolledCourseIds == old(enrolledCourseIds)
      ensures user == old(user) && levelUp == old(levelUp)
    {
      var current := CompletedOf(completedLessonsMap, courseId);
      if lessonId !in current {
        completedLessonsMap := completedLessonsMap[courseId := current + [lessonId]];
      }
    }

    /** Loading the profile: the streak recomputed from the history, and the
        longest streak raised to it when the stored one is lower. */
    method LoadUser(recalculatedStreak: nat, storedLongest: Option<int>)
      modifies this
      ensures user == Some(StreakFields(recalculatedStreak,
                                        SadhnaService.NewLongest(recalculatedStreak, storedLongest)))
      ensures user.value.longestStreak >= user.value.currentStreak
      ensures activeSection == old(activeSection) && activeCourseId == old(activeCourseId)
      ensures enrolledCourseIds == old(enrolledCourseIds) && completedLessonsMap == old(completedLessonsMap)
      ensures levelUp == old(levelUp)
    {
      var stored := storedLongest.GetOr(0);
      var longest := if recalculatedStreak > stored then recalculatedStreak else stored;
      user := Some(StreakFields(recalculatedStreak, longest));
    }

    /** `handleSadhnaComplete` after a successful save that returned
        `newStreak` and `newLongest`: without a session or user nothing
        happens; otherwise the streak fields are replaced and the level-up
        popup is set exactly when the level check reports a new level. */
    method HandleSadhnaComplete(newStreak: int, newLongest: int)
      modifies this
      ensures !hasSession || old(user).None? ==> user == old(user) && levelUp == old(levelUp)
      ensures hasSession && old(user).Some? ==>
        var lv := LevelLogic.CheckLevelUp(old(user).value.currentStreak, newStreak, table);
        user == Some(StreakFields(newStreak, newLongest)) &&
        levelUp == (if lv.Some? then lv else old(levelUp))
      ensures activeSection == old(activeSection) && activeCourseId == old(activeCourseId)
      ensures enrolledCourseIds == old(enrolledCourseIds) && completedLessonsMap == old(completedLessonsMap)
    {
      if !hasSession || user.None? {
        return;
      }
      var oldStreak := user.value.currentStreak;
      user := Some(StreakFields(newStreak, newLongest));
      var newLevel := LevelLogic.CheckLevelUp(oldStreak, newStreak, table);
      if newLevel.Some? {
        levelUp := newLevel;
      }
    }
  }
}
