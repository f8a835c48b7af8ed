/** The student dashboard: the festival nudge banner, the report history
    newest first, and the itemised breakdown of one report with its
    human-readable answer labels. */
module StudentDashboard {
  import opened Common
  import opened Types
  import FestivalService
  import SadhnaTracker

  // ---------------------------------------------------------------------------
  // Answer labels
  // ---------------------------------------------------------------------------

  /** `replace(/([A-Z])/g, ' $1')`: a space before every ASCII capital. */
  function SpaceBeforeCapitals(s: string): (r: string)
    ensures |r| == |s| + Count(s, IsUpperAscii)
    ensures NoneOf(s, {'_'}) ==> NoneOf(r, {'_'})
    ensures r != [] ==> !IsUpperAscii(r[0])
    ensures forall i :: 0 < i < |r| && IsUpperAscii(r[i]) ==> r[i - 1] == ' '
  {
    if s == [] then ""
    else (if IsUpperAscii(s[0]) then [' ', s[0]] else [s[0]]) + SpaceBeforeCapitals(s[1..])
  }

  /** Drops the space in front of every capital: the inverse of the
      spacing above. */
  function DropSpaceBeforeCapitals(r: string): string
  {
    if r == [] then ""
    else if |r| >= 2 && r[0] == ' ' && IsUpperAscii(r[1]) then [r[1]] + DropSpaceBeforeCapitals(r[2..])
    else [r[0]] + DropSpaceBeforeCapitals(r[1..])
  }

  /** The spacing only inserts: removing the inserted spaces gives the key
      back, so every character of the key survives, in order. */
  lemma {:induction false} SpaceBeforeCapitalsRoundTrip(s: string)
    ensures DropSpaceBeforeCapitals(SpaceBeforeCapitals(s)) == s
  {
    if s != [] {
      SpaceBeforeCapitalsRoundTrip(s[1..]);
      var rest := SpaceBeforeCapitals(s[1..]);
      if IsUpperAscii(s[0]) {
        assert ([' ', s[0]] + rest)[2..] == rest;
      } else {
        assert ([s[0]] + rest)[1..] == rest;
      }
    }
  }

  /** `replace(/_/g, ' ')`. */
  function UnderscoresToSpaces(s: string): (r: string)
    ensures |r| == |s|
    ensures forall i :: 0 <= i < |s| ==> r[i] == (if s[i] == '_' then ' ' else s[i])
    ensures NoneOf(r, {'_'})
  {
    if s == [] then "" else [if s[0] == '_' then ' ' else s[0]] + UnderscoresToSpaces(s[1..])
  }

  /** `word.charAt(0).toUpperCase() + word.slice(1).toLowerCase()`. */
  function Capitalize(w: string): (r: string)
    ensures |r| == |w|
    ensures w != [] ==> r[0] == ToUpperChar(w[0])
    ensures forall i :: 1 <= i < |w| ==> r[i] == ToLowerChar(w[i])
  {
    if w == [] then "" else [ToUpperChar(w[0])] + ToLower(w[1..])
  }

  /** `formatAnswerKey`: split camel case and snake case into words,
      capitalise each word and join them with single spaces. */
  function FormatAnswerKey(key: string): (r: string)
    ensures NoneOf(r, {'_'})
    ensures TitleCase(r)
  {
    var words := Split(Trim(UnderscoresToSpaces(SpaceBeforeCapitals(key))), {' '});
    LabelHasNoUnderscore(key);
    CapitalizedWordsTitleCase(words);
    Join(CapitalizeAll(words), ' ')
  }

  /** Every word starts without a lower-case letter and goes on without an
      upper-case one. */
  predicate TitleCase(r: string)
  {
    forall i :: 0 <= i < |r| ==> CaseFits(r, i)
  }

  /** The character at `i` starts a word (first, or after a space) and is not
      lower case, or it continues one and is not upper case. */
  predicate CaseFits(r: string, i: int)
    requires 0 <= i < |r|
  {
    if i == 0 || r[i - 1] == ' ' then !IsLowerAscii(r[i]) else !IsUpperAscii(r[i])
  }

  /** A capitalised word without spaces is title case on its own. */
  lemma CapitalizeTitleCase(w: string)
    requires NoneOf(w, {' '})
    ensures NoneOf(Capitalize(w), {' '}) && TitleCase(Capitalize(w))
  {
  }

  lemma CapitalizedWordsTitleCase(words: seq<string>)
    requires forall k :: 0 <= k < |words| ==> NoneOf(words[k], {' '})
    ensures TitleCase(Join(CapitalizeAll(words), ' '))
  {
    var caps := CapitalizeAll(words);
    forall k | 0 <= k < |caps| ensures NoneOf(caps[k], {' '}) && TitleCase(caps[k]) {
      CapitalizeTitleCase(words[k]);
    }
    JoinTitleCase(caps);
  }

  /** Joining title-case words with single spaces keeps the text title case. */
  lemma {:induction false} JoinTitleCase(parts: seq<string>)
    requires forall k :: 0 <= k < |parts| ==> NoneOf(parts[k], {' '}) && TitleCase(parts[k])
    ensures TitleCase(Join(parts, ' '))
  {
    if |parts| > 1 {
      JoinTitleCase(parts[1..]);
      JoinTwoTitleCase(parts[0], Join(parts[1..], ' '));
      assert Join(parts, ' ') == parts[0] + [' '] + Join(parts[1..], ' ');
    }
  }

  lemma JoinTwoTitleCase(p: string, q: string)
    requires TitleCase(p) && TitleCase(q)
    ensures TitleCase(p + [' '] + q)
  {
    var r := p + [' '] + q;
    forall i | 0 <= i < |r| ensures CaseFits(r, i) {
      if i < |p| {
        assert r[i] == p[i] && (i == 0 || r[i - 1] == p[i - 1]);
        assert CaseFits(p, i);
      } else if i > |p| {
        var j := i - |p| - 1;
        assert r[i] == q[j] && (j == 0 || r[i - 1] == q[j - 1]);
        assert CaseFits(q, j);
      }
    }
  }

  /** `.map(word => …)` with the capitalisation above. */
  function CapitalizeAll(words: seq<string>): (r: seq<string>)
    ensures |r| == |words| && forall i :: 0 <= i < |words| ==> r[i] == Capitalize(words[i])
  {
    if words == [] then [] else [Capitalize(words[0])] + CapitalizeAll(words[1..])
  }

  /** A label never shows an underscore. */
  lemma LabelHasNoUnderscore(key: string)
    ensures NoneOf(Join(CapitalizeAll(Split(Trim(UnderscoresToSpaces(SpaceBeforeCapitals(key))), {' '})), ' '), {'_'})
  {
    var s := Trim(UnderscoresToSpaces(SpaceBeforeCapitals(key)));
    TrimKeepsNoneOf(UnderscoresToSpaces(SpaceBeforeCapitals(key)), {'_'});
    var words := Split(s, {' '});
    SplitKeepsNoneOf(s, {' '}, {'_'});
    var caps := CapitalizeAll(words);
    forall i | 0 <= i < |caps| ensures NoneOf(caps[i], {'_'}) {
      CapitalizeKeepsNoUnderscore(words[i]);
    }
    JoinKeepsNoneOf(caps, ' ', {'_'});
  }

  lemma CapitalizeKeepsNoUnderscore(w: string)
    requires NoneOf(w, {'_'})
    ensures NoneOf(Capitalize(w), {'_'})
  {
  }

  /** Without capitals there is nothing to space out. */
  lemma {:induction false} NoCapitalsUnchanged(s: string)
    requires forall i :: 0 <= i < |s| ==> !IsUpperAscii(s[i])
    ensures SpaceBeforeCapitals(s) == s
  {
    if s != [] {
      NoCapitalsUnchanged(s[1..]);
    }
  }

  lemma UnderscoreStep(key: string)
    requires key == "japa_total"
    ensures SpaceBeforeCapitals(key) == key
    ensures UnderscoresToSpaces(key) == "japa" + [' '] + "total"
  {
    KeyHasNoCapitals(key);
    NoCapitalsUnchanged(key);
    UnderscoreBecomesSpace(key, "japa" + [' '] + "total");
  }

  lemma KeyHasNoCapitals(key: string)
    requires key == "japa_total"
    ensures forall i :: 0 <= i < |key| ==> !IsUpperAscii(key[i])
  {
  }

  lemma UnderscoreBecomesSpace(key: string, u: string)
    requires key == "japa_total" && u == "japa" + [' '] + "total"
    ensures UnderscoresToSpaces(key) == u
  {
    var r := UnderscoresToSpaces(key);
    forall i | 0 <= i < 10 ensures r[i] == u[i] {}
  }

  lemma SplitStep(a: string, b: string)
    requires a == "japa" && b == "total"
    ensures Split(a + [' '] + b, {' '}) == [a, b]
  {
    WordsHaveNoSpace(a, b);
    SplitAtSeparator(a, ' ', b, {' '});
    SplitNoSeparator(b, {' '});
  }

  lemma WordsHaveNoSpace(a: string, b: string)
    requires a == "japa" && b == "total"
    ensures NoneOf(a, {' '}) && NoneOf(b, {' '})
  {
  }

  lemma CapitalizeStep(words: seq<string>)
    requires words == ["japa", "total"]
    ensures CapitalizeAll(words) == ["Japa", "Total"]
  {
    CapitalizeLowerWord(words[0], "Japa");
    CapitalizeLowerWord(words[1], "Total");
  }

  /** A lower-case word gains a capital first letter and nothing else. */
  lemma CapitalizeLowerWord(w: string, cap: string)
    requires |w| == |cap| > 0 && cap[0] == ToUpperChar(w[0])
    requires forall i :: 1 <= i < |w| ==> !IsUpperAscii(w[i]) && cap[i] == w[i]
    ensures Capitalize(w) == cap
  {
  }

  lemma TrimStep(key: string)
    requires key == "japa_total"
    ensures Trim(UnderscoresToSpaces(SpaceBeforeCapitals(key))) == "japa" + [' '] + "total"
  {
    UnderscoreStep(key);
    var u := "japa" + [' '] + "total";
    TrimUnchanged(u);
  }

  /** The snake-case keys of the report read as capitalised words. */
  lemma FormatAnswerKeyExample(key: string)
    requires key == "japa_total"
    ensures FormatAnswerKey(key) == "Japa Total"
  {
    var t := Trim(UnderscoresToSpaces(SpaceBeforeCapitals(key)));
    TrimStep(key);
    var words := Split(t, {' '});
    SplitStep("japa", "total");
    var caps := CapitalizeAll(words);
    CapitalizeStep(words);
    JoinStep(caps);
  }

  lemma JoinStep(caps: seq<string>)
    requires caps == ["Japa", "Total"]
    ensures Join(caps, ' ') == "Japa Total"
  {
  }

  // ---------------------------------------------------------------------------
  // Festival nudge
  // ---------------------------------------------------------------------------

  /** `nudgeFestival`: among the near festivals, the first one exactly two
      days away, else the first near one, else none. */
  function NudgeFestival(near: seq<Festival>, today: Day): (r: Option<Festival>)
    ensures r.None? <==> near == []
    ensures (exists i :: 0 <= i < |near| && near[i].date - today == 2) ==>
      r.Some? && r.value.date - today == 2 &&
      exists i :: 0 <= i < |near| && near[i] == r.value &&
        forall j :: 0 <= j < i ==> near[j].date - today != 2
    ensures (forall i :: 0 <= i < |near| ==> near[i].date - today != 2) && near != [] ==>
      r == Some(near[0])
  {
    var two := Find(near, (f: Festival) => f.date - today == 2);
    if two.Some? then two else if near != [] then Some(near[0]) else None
  }

  /** Whether the banner shows: a nudge festival at most two days away. */
  predicate ShowBanner(nudge: Option<Festival>, today: Day)
  {
    nudge.Some? && nudge.value.date - today <= 2
  }

  /** The banner's day label. */
  function BannerLabel(days: nat): (text: string)
    ensures days == 0 ==> text == "Today"
    ensures days == 1 ==> text == "Tomorrow"
    ensures days >= 2 ==> text == "in " + NatToString(days) + " days"
  {
    if days == 0 then "Today" else if days == 1 then "Tomorrow"
    else "in " + NatToString(days) + " days"
  }

  /** Fed with the proximity check's output, the banner shows exactly when
      some festival falls within two days, and the festival it names is one
      of them. */
  lemma BannerShownIffFestivalNear(festivals: seq<Festival>, today: Day)
    ensures var nudge := NudgeFestival(FestivalService.CheckUpcomingEvents(festivals, today), today);
      (ShowBanner(nudge, today) <==> exists f :: f in festivals && FestivalService.IsNear(f, today)) &&
      (nudge.Some? ==> nudge.value in festivals && 0 <= nudge.value.date - today <= 2)
  {
    var near := FestivalService.CheckUpcomingEvents(festivals, today);
    var nudge := NudgeFestival(near, today);
    if nudge.Some? {
      assert nudge.value in near;
    } else {
      assert forall f :: f in festivals ==> !FestivalService.IsNear(f, today);
    }
  }

  /** A shown banner reads "Today", "Tomorrow" or "in 2 days". */
  lemma BannerLabelsWithinTwoDays(days: nat)
    requires days <= 2
    ensures BannerLabel(days) in {"Today", "Tomorrow", "in 2 days"}
  {
    if days == 2 {
      assert NatToString(2) == [Digit(2)] == "2";
      assert "in " + "2" + " days" == "in 2 days";
    }
  }

  // ---------------------------------------------------------------------------
  // Report history and breakdown
  // ---------------------------------------------------------------------------

  /** `[...history].reverse()`: a reversed copy of the stored history. */
  function ReversedHistory(history: seq<SadhnaRecord>): (r: seq<SadhnaRecord>)
    ensures |r| == |history|
    ensures forall i :: 0 <= i < |r| ==> r[i] == history[|history| - 1 - i]
  {
    if history == [] then [] else ReversedHistory(history[1..]) + [history[0]]
  }

  /** Reversing is undone by reversing again, and keeps every report. */
  lemma ReversedKeepsReports(history: seq<SadhnaRecord>)
    ensures ReversedHistory(ReversedHistory(history)) == history
    ensures multiset(ReversedHistory(history)) == multiset(history)
  {
    ReverseMultiset(history);
  }

  lemma {:induction false} ReverseMultiset(history: seq<SadhnaRecord>)
    ensures multiset(ReversedHistory(history)) == multiset(history)
  {
    if history != [] {
      ReverseMultiset(history[1..]);
      assert history == [history[0]] + history[1..];
    }
  }

  /** Reports listed newest first. */
  predicate DatesDescend(history: seq<SadhnaRecord>)
  {
    forall i, j :: 0 <= i < j < |history| ==> history[i].date >= history[j].date
  }

  /** A history stored oldest first is reversed into newest first. */
  lemma ReversingAscendingDescends(history: seq<SadhnaRecord>)
    requires forall i, j :: 0 <= i < j < |history| ==> history[i].date <= history[j].date
    ensures DatesDescend(ReversedHistory(history))
  {
  }

  /** The history as fetched (newest first) comes out of the reversal
      oldest first: two reports on different days are shown in the wrong
      order, while the newest-first ordering keeps them as fetched. */
  lemma FetchedHistoryShownOldestFirst(newer: SadhnaRecord, older: SadhnaRecord)
    requires older.date < newer.date
    ensures DatesDescend([newer, older])
    ensures ReversedHistory([newer, older]) == [older, newer]
    ensures !DatesDescend(ReversedHistory([newer, older]))
    ensures HistoryNewestFirst([newer, older]) == [newer, older]
  {
    var shown := ReversedHistory([newer, older]);
    assert shown[0] == older && shown[1] == newer;
    assert shown[0].date < shown[1].date;
    HistoryNewestFirstKeepsSorted([newer, older]);
  }

  /** Places one report into a newest-first list. */
  function InsertNewest(rec: SadhnaRecord, history: seq<SadhnaRecord>): (r: seq<SadhnaRecord>)
    requires DatesDescend(history)
    ensures DatesDescend(r)
    ensures multiset(r) == multiset(history) + multiset{rec}
    ensures forall x :: x in r ==> x == rec || x in history
  {
    if history == [] || rec.date >= history[0].date then
      ConsDescends(rec, history);
      [rec] + history
    else
      var rest := InsertNewest(rec, history[1..]);
      assert history == [history[0]] + history[1..];
      HeadBoundsRest(rec, history, rest);
      ConsDescends(history[0], rest);
      [history[0]] + rest
  }

  /** Whatever heads the list left after inserting behind the first report
      is no newer than that report. */
  lemma HeadBoundsRest(rec: SadhnaRecord, history: seq<SadhnaRecord>, rest: seq<SadhnaRecord>)
    requires DatesDescend(history) && history != [] && rec.date < history[0].date
    requires forall x :: x in rest ==> x == rec || x in history[1..]
    ensures rest != [] ==> rest[0].date <= history[0].date
  {
    if rest != [] {
      assert rest[0] in rest;
      if rest[0] != rec {
        var k :| 0 <= k < |history[1..]| && history[1..][k] == rest[0];
        assert history[k + 1] == rest[0];
      }
    }
  }

  /** A report no older than the head of a newest-first list can go in
      front of it. */
  lemma ConsDescends(x: SadhnaRecord, rest: seq<SadhnaRecord>)
    requires DatesDescend(rest)
    requires rest != [] ==> rest[0].date <= x.date
    ensures DatesDescend([x] + rest)
  {
    var l := [x] + rest;
    forall i, j | 0 <= i < j < |l| ensures l[i].date >= l[j].date {
      if i == 0 && j > 1 {
        assert rest[0].date >= rest[j - 1].date;
      }
    }
  }

  /** The history list as evidently intended: the reports newest first,
      whatever order they arrive in. */
  function HistoryNewestFirst(history: seq<SadhnaRecord>): (r: seq<SadhnaRecord>)
    ensures DatesDescend(r)
    ensures multiset(r) == multiset(history)
  {
    if history == [] then []
    else
      assert history == [history[0]] + history[1..];
      InsertNewest(history[0], HistoryNewestFirst(history[1..]))
  }

  /** A history already fetched newest first is shown exactly as fetched. */
  lemma {:induction false} HistoryNewestFirstKeepsSorted(history: seq<SadhnaRecord>)
    requires DatesDescend(history)
    ensures HistoryNewestFirst(history) == history
  {
    if history != [] {
      HistoryNewestFirstKeepsSorted(history[1..]);
      assert HistoryNewestFirst(history[1..]) == history[1..];
      assert history == [history[0]] + history[1..];
    }
  }

  /** The rows of the itemised breakdown: every answer except the date and
      name entries that is an option object with points. */
  function Breakdown(answers: map<string, Answer>): (items: map<string, Answer>)
    ensures forall k :: k in items <==>
      k in answers && k != "date" && k != "name" && answers[k].Choice?
    ensures forall k :: k in items ==> items[k] == answers[k]
  {
    map k | k in answers && k != "date" && k != "name" && answers[k].Choice? :: answers[k]
  }

  datatype Tone = GreenTone | BlueTone | RedTone

  /** A breakdown row's colour: green from 25 points, blue from 15, else
      red. */
  function PointsTone(points: int): (t: Tone)
    ensures t == GreenTone <==> points >= 25
    ensures t == BlueTone <==> 15 <= points < 25
    ensures t == RedTone <==> points < 15
  {
    if points >= 25 then GreenTone else if points >= 15 then BlueTone else RedTone
  }

  /** For a report the questionnaire filled in, the breakdown lists exactly
      the select questions that were answered. */
  lemma BreakdownListsAnsweredSelects(answers: map<string, Answer>)
    requires SadhnaTracker.AnswersFit(SadhnaTracker.Questions, answers)
    requires forall k :: k in answers ==>
      exists i :: 0 <= i < |SadhnaTracker.Questions| && SadhnaTracker.Questions[i].id == k
    ensures forall k :: k in Breakdown(answers) <==>
      k in answers && exists i :: (0 <= i < |SadhnaTracker.Questions| &&
        SadhnaTracker.Questions[i].id == k &&
        SadhnaTracker.Questions[i].kind == SadhnaTracker.SelectQuestion)
  {
    var qs := SadhnaTracker.Questions;
    forall k | k in answers
      ensures k in Breakdown(answers) <==>
        exists i :: 0 <= i < |qs| && qs[i].id == k && qs[i].kind == SadhnaTracker.SelectQuestion
    {
      var i :| 0 <= i < |qs| && qs[i].id == k;
      BreakdownRow(answers, k, i);
    }
  }

  /** One answered question is a breakdown row exactly when it is a select
      question. */
  lemma BreakdownRow(answers: map<string, Answer>, k: string, i: int)
    requires SadhnaTracker.AnswersFit(SadhnaTracker.Questions, answers)
    requires k in answers
    requires 0 <= i < |SadhnaTracker.Questions| && SadhnaTracker.Questions[i].id == k
    ensures k in Breakdown(answers) <==>
      exists j :: 0 <= j < |SadhnaTracker.Questions| && SadhnaTracker.Questions[j].id == k &&
        SadhnaTracker.Questions[j].kind == SadhnaTracker.SelectQuestion
  {
    var qs := SadhnaTracker.Questions;
    SadhnaTracker.QuestionsShape();
    SadhnaTracker.QuestionIdsDistinct();
    SadhnaTracker.QuestionKinds();
    assert SadhnaTracker.AnswerFits(qs[i], answers[k]);
    assert SadhnaTracker.QuestionBounded(qs[i]);
    if exists j :: 0 <= j < |qs| && qs[j].id == k && qs[j].kind == SadhnaTracker.SelectQuestion {
      var j :| 0 <= j < |qs| && qs[j].id == k && qs[j].kind == SadhnaTracker.SelectQuestion;
      assert i == j;
    }
  }
}
