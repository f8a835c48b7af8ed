/** The daily questionnaire: its eleven questions with their point values,
    the score of a set of answers, and the step-by-step form state with the
    confirmation asked before changing the date while a streak is running. */
module SadhnaTracker {
  import opened Common
  import opened Types

  datatype Kind = DateQuestion | TextQuestion | SelectQuestion

  /** A question; the options of a select question are the `Choice` answers
      it offers. */
  datatype Question = Question(id: string, title: string, kind: Kind, options: seq<Answer>)

  const DateQ := Question("date", "Date of Sadhana", DateQuestion, [])

  const NameQ := Question("name", "Devotee Name", TextQuestion, [])

  const Sleep := Question("sleep", "Last Night's Rest", SelectQuestion, [
    Choice("9:30", "9:30 pm or before", 30),
    Choice("10:00", "10:00 pm", 25),
    Choice("10:30", "10:30 pm", 20),
    Choice("11:00", "11:00 pm", 15),
    Choice("after_11", "After 11:00 pm", 10)])

  const Wake := Question("wake", "Morning Awakening", SelectQuestion, [
    Choice("3:30", "3:30 AM or before", 30),
    Choice("4:00", "Before 4:00 AM", 25),
    Choice("4:30", "Before 4:30 AM", 20),
    Choice("5:00", "Before 5:00 AM", 15),
    Choice("after_5", "After 5:00 AM", 0)])

  const Midday := Question("midday", "Midday Rest", SelectQuestion, [
    Choice("none", "No day sleep", 30),
    Choice("30m", "30 minutes or less", 20),
    Choice("1h", "1 hour", 10),
    Choice("1.5h", "1.5 hours or more", 0)])

  const JapaTotal := Question("japa_total", "Japa Rounds (Total)", SelectQuestion, [
    Choice("16", "16+", 30),
    Choice("12", "12-16", 25),
    Choice("9", "9-11", 20),
    Choice("5", "5-8", 15),
    Choice("1", "1-4", 10)])

  const JapaMorning := Question("japa_morning", "Japa Rounds before 7:30 AM", SelectQuestion, [
    Choice("16", "16+", 30),
    Choice("12", "12-16", 25),
    Choice("9", "9-11", 20),
    Choice("5", "5-8", 15),
    Choice("1", "1-4", 10)])

  const Sewa := Question("sewa", "Vigraha Sewa", SelectQuestion, [
    Choice("yes", "Yes", 30),
    Choice("no", "No", 0)])

  const Reading := Question("reading", "Sacred Reading", SelectQuestion, [
    Choice("1h", "More than 1 hour", 30),
    Choice("45m", "45 mins", 20),
    Choice("30m", "Less than 30 mins", 10)])

  const GitaClass := Question("class", "Gita Class", SelectQuestion, [
    Choice("yes", "Yes", 30),
    Choice("no", "No", 0)])

  const Principles := Question("principles", "4 Regulative Principles", SelectQuestion, [
    Choice("yes", "Yes, Followed", 30),
    Choice("no", "No", 0)])

  const SelectQuestions: seq<Question> := [
    Sleep, Wake, Midday, JapaTotal, JapaMorning, Sewa, Reading, GitaClass, Principles]

  /** `QUESTIONS`. */
  const Questions: seq<Question> := [DateQ, NameQ] + SelectQuestions

  /** The points an answer adds: an option object adds its points, a text
      answer or a missing one adds nothing. */
  function PointsOf(answers: map<string, Answer>, id: string): int
  {
    if id in answers && answers[id].Choice? then answers[id].points else 0
  }

  /** The `reduce` over the questions, from the first. */
  function ScoreOver(qs: seq<Question>, answers: map<string, Answer>): int
  {
    if qs == [] then 0 else PointsOf(answers, qs[0].id) + ScoreOver(qs[1..], answers)
  }

  /** `calculateTotalScore`: a form whose answers come from the offered
      options scores between 0 and 270, and one holding only text answers
      scores 0. */
  function TotalScore(answers: map<string, Answer>): (r: int)
    ensures AnswersFit(Questions, answers) ==> 0 <= r <= 270
    ensures (forall k :: k in answers ==> answers[k].Text?) ==> r == 0
  {
    ScoreFacts(answers);
    ScoreOver(Questions, answers)
  }

  lemma ScoreFacts(answers: map<string, Answer>)
    ensures AnswersFit(Questions, answers) ==> 0 <= ScoreOver(Questions, answers) <= 270
    ensures (forall k :: k in answers ==> answers[k].Text?) ==> ScoreOver(Questions, answers) == 0
  {
    if AnswersFit(Questions, answers) {
      QuestionsShape();
      ScoreBounded(Questions, answers);
    }
    if forall k :: k in answers ==> answers[k].Text? {
      TextOnlyScoresNothing(Questions, answers);
    }
  }

  /** Only the answers stored under the questions' ids count: an answer
      under any other key leaves the score as it was. */
  lemma {:induction false} ScoreIgnoresOtherKeys(qs: seq<Question>, answers: map<string, Answer>, key: string, a: Answer)
    requires forall i :: 0 <= i < |qs| ==> qs[i].id != key
    ensures ScoreOver(qs, answers[key := a]) == ScoreOver(qs, answers)
  {
    if qs != [] {
      ScoreIgnoresOtherKeys(qs[1..], answers, key, a);
    }
  }

  /** An answer the form can hold for a question: text for the date and
      name questions, one of the offered options for a select question. */
  predicate AnswerFits(q: Question, a: Answer)
  {
    if q.kind == SelectQuestion then a in q.options else a.Text?
  }

  predicate AnswersFit(qs: seq<Question>, answers: map<string, Answer>)
  {
    forall i :: 0 <= i < |qs| && qs[i].id in answers ==> AnswerFits(qs[i], answers[qs[i].id])
  }

  /** Every option is worth between 0 and 30 points, and only select
      questions have options. */
  predicate QuestionBounded(q: Question)
  {
    (q.kind != SelectQuestion ==> q.options == []) &&
    forall k :: 0 <= k < |q.options| ==> q.options[k].Choice? && 0 <= q.options[k].points <= 30
  }

  predicate OptionsBounded(qs: seq<Question>)
  {
    forall i :: 0 <= i < |qs| ==> QuestionBounded(qs[i])
  }

  function SelectCount(qs: seq<Question>): nat
  {
    if qs == [] then 0
    else (if qs[0].kind == SelectQuestion then 1 else 0) + SelectCount(qs[1..])
  }

  /** With answers drawn from the options, each select question adds 0 to 30
      points and every other question adds nothing. */
  lemma {:induction false} ScoreBounded(qs: seq<Question>, answers: map<string, Answer>)
    requires OptionsBounded(qs) && AnswersFit(qs, answers)
    ensures 0 <= ScoreOver(qs, answers) <= 30 * SelectCount(qs)
  {
    if qs != [] {
      var q := qs[0];
      assert OptionsBounded(qs[1..]) by {
        forall i | 0 <= i < |qs[1..]|
          ensures qs[1..][i] == qs[i + 1]
        {
        }
      }
      assert AnswersFit(qs[1..], answers) by {
        forall i | 0 <= i < |qs[1..]|
          ensures qs[1..][i] == qs[i + 1]
        {
        }
      }
      ScoreBounded(qs[1..], answers);
      if q.id in answers && answers[q.id].Choice? {
        assert AnswerFits(qs[0], answers[q.id]);
        assert QuestionBounded(qs[0]);
        var k :| 0 <= k < |q.options| && q.options[k] == answers[q.id];
        assert 0 <= q.options[k].points <= 30;
      }
    }
  }

  lemma QuestionsShape()
    ensures |Questions| == 11
    ensures OptionsBounded(Questions)
    ensures SelectCount(Questions) == 9
  {
    QuestionsBounded();
    AllSelectCount(SelectQuestions);
    assert Questions[1..][1..] == SelectQuestions;
  }

  lemma QuestionsBounded()
    ensures OptionsBounded(Questions)
  {
    assert QuestionBounded(DateQ) && QuestionBounded(NameQ);
    SelectQuestionsBounded();
    assert forall i :: 2 <= i < |Questions| ==> Questions[i] == SelectQuestions[i - 2];
  }

  lemma SelectQuestionsBounded()
    ensures forall i :: 0 <= i < |SelectQuestions| ==> QuestionBounded(SelectQuestions[i])
  {
    assert QuestionBounded(Sleep) && QuestionBounded(Wake) && QuestionBounded(Midday);
    assert QuestionBounded(JapaTotal) && QuestionBounded(JapaMorning);
    assert QuestionBounded(Sewa) && QuestionBounded(Reading);
    assert QuestionBounded(GitaClass) && QuestionBounded(Principles);
  }

  lemma {:induction false} AllSelectCount(qs: seq<Question>)
    requires forall i :: 0 <= i < |qs| ==> qs[i].kind == SelectQuestion
    ensures SelectCount(qs) == |qs|
  {
    if qs != [] {
      AllSelectCount(qs[1..]);
    }
  }

  lemma BestLookups()
    ensures PointsOf(BestAnswers(), Sleep.id) == 30
    ensures PointsOf(BestAnswers(), Wake.id) == 30
    ensures PointsOf(BestAnswers(), Midday.id) == 30
    ensures PointsOf(BestAnswers(), JapaTotal.id) == 30
    ensures PointsOf(BestAnswers(), JapaMorning.id) == 30
    ensures PointsOf(BestAnswers(), Sewa.id) == 30
    ensures PointsOf(BestAnswers(), Reading.id) == 30
    ensures PointsOf(BestAnswers(), GitaClass.id) == 30
    ensures PointsOf(BestAnswers(), Principles.id) == 30
    ensures PointsOf(BestAnswers(), DateQ.id) == 0 && PointsOf(BestAnswers(), NameQ.id) == 0
  {
  }

  /** The first option of every select question is worth 30, so answering
      each with it scores the full 270. */
  lemma BestAnswersScore270()
    ensures TotalScore(BestAnswers()) == 270
  {
    var best := BestAnswers();
    BestLookups();
    assert forall q :: q in SelectQuestions ==> PointsOf(best, q.id) == 30;
    FullMarks(SelectQuestions, best);
    var rest := Questions[1..];
    assert rest[1..] == SelectQuestions;
    assert rest[0] == NameQ && Questions[0] == DateQ;
    assert ScoreOver(rest, best) == 270;
  }

  /** Questions that each add 30 points add 30 per question. */
  lemma {:induction false} FullMarks(qs: seq<Question>, answers: map<string, Answer>)
    requires forall q :: q in qs ==> PointsOf(answers, q.id) == 30
    ensures ScoreOver(qs, answers) == 30 * |qs|
  {
    if qs != [] {
      assert qs[0] in qs;
      assert forall q :: q in qs[1..] ==> q in qs;
      FullMarks(qs[1..], answers);
    }
  }

  /** The first option of each select question, under its id. */
  function BestAnswers(): map<string, Answer>
  {
    map[
      "sleep" := Sleep.options[0],
      "wake" := Wake.options[0],
      "midday" := Midday.options[0],
      "japa_total" := JapaTotal.options[0],
      "japa_morning" := JapaMorning.options[0],
      "sewa" := Sewa.options[0],
      "reading" := Reading.options[0],
      "class" := GitaClass.options[0],
      "principles" := Principles.options[0]]
  }

  /** The full-score answers are answers the form can hold. */
  lemma BestAnswersFit()
    ensures AnswersFit(Questions, BestAnswers())
  {
    var best := BestAnswers();
    forall i | 0 <= i < |Questions| && Questions[i].id in best
      ensures AnswerFits(Questions[i], best[Questions[i].id])
    {
      assert i >= 2;
      assert Questions[i] == SelectQuestions[i - 2];
      assert best[Questions[i].id] == Questions[i].options[0];
    }
  }

  /** The date and name questions come first; every later one is a select
      question. */
  lemma QuestionKinds()
    ensures Questions[0] == DateQ && Questions[1] == NameQ
    ensures forall i :: 2 <= i < |Questions| ==> Questions[i].kind == SelectQuestion
  {
    assert forall i :: 2 <= i < |Questions| ==> Questions[i] == SelectQuestions[i - 2];
  }

  /** No two questions share an id. */
  lemma QuestionIdsDistinct()
    ensures forall i, j :: 0 <= i < j < |Questions| ==> Questions[i].id != Questions[j].id
  {
  }

  /** Answers holding no option object score 0. */
  lemma {:induction false} TextOnlyScoresNothing(qs: seq<Question>, answers: map<string, Answer>)
    requires forall k :: k in answers ==> answers[k].Text?
    ensures ScoreOver(qs, answers) == 0
  {
    if qs != [] {
      TextOnlyScoresNothing(qs[1..], answers);
    }
  }

  /** The answers a fresh form starts with fit the questions. */
  lemma FreshAnswersFit(date: string, name: string)
    ensures AnswersFit(Questions, map["date" := Text(date), "name" := Text(name)])
  {
    QuestionIdsDistinct();
  }

  /** A text answer under a key without one adds nothing to the score. */
  lemma {:induction false} TextAnswerScoresNothing(qs: seq<Question>, answers: map<string, Answer>, key: string, text: string)
    requires key !in answers
    ensures ScoreOver(qs, answers[key := Text(text)]) == ScoreOver(qs, answers)
  {
    if qs != [] {
      TextAnswerScoresNothing(qs[1..], answers, key, text);
    }
  }

  /** What the questionnaire shows. */
  datatype Screen = Submitted | Summary | Asking(question: Question)

  /** The component's state. `date` and `name` live in `answers`, as text. */
  class Tracker {
    var step: int
    var answers: map<string, Answer>
    var showConfirm: bool
    var pendingDate: Option<string>
    var isSubmitted: bool
    const currentStreak: int

    ghost predicate Valid()
      reads this
    {
      0 <= step <= |Questions| &&
      AnswersFit(Questions, answers) &&
      "date" in answers && answers["date"].Text? &&
      "name" in answers && answers["name"].Text?
    }

    /** `answers.date`. */
    function Date(): string
      reads this
    {
      if "date" in answers && answers["date"].Text? then answers["date"].text else ""
    }

    constructor(devoteeName: Option<string>, currentStreak: int, today: string)
      ensures Valid()
      ensures step == 0 && !showConfirm && pendingDate.None? && !isSubmitted
      ensures answers == map["date" := Text(today), "name" := Text(devoteeName.GetOr(""))]
      ensures this.currentStreak == currentStreak
    {
      step := 0;
      answers := map["date" := Text(today), "name" := Text(devoteeName.GetOr(""))];
      showConfirm := false;
      pendingDate := None;
      isSubmitted := false;
      this.currentStreak := currentStreak;
      FreshAnswersFit(today, devoteeName.GetOr(""));
    }

    /** The screen shown: the thank-you screen once submitted, the summary
        exactly when every question has been passed, else the current one. */
    function CurrentScreen(): (s: Screen)
      reads this
      requires Valid()
      ensures s == Summary <==> !isSubmitted && step == |Questions|
      ensures s.Asking? ==> 0 <= step < |Questions| && s.question == Questions[step]
    {
      if isSubmitted then Submitted
      else if step == |Questions| then Summary
      else Asking(Questions[step])
    }

    /** `handleNext`: one step forward, never past the summary. */
    method HandleNext()
      requires Valid()
      modifies this
      ensures Valid()
      ensures step == if old(step) < |Questions| then old(step) + 1 else old(step)
      ensures answers == old(answers) && showConfirm == old(showConfirm)
      ensures pendingDate == old(pendingDate) && isSubmitted == old(isSubmitted)
    {
      if step < |Questions| {
        step := step + 1;
      }
    }

    /** `handleBack`: one step back, never before the first question. */
    method HandleBack()
      requires Valid()
      modifies this
      ensures Valid()
      ensures step == if old(step) > 0 then old(step) - 1 else old(step)
      ensures answers == old(answers) && showConfirm == old(showConfirm)
      ensures pendingDate == old(pendingDate) && isSubmitted == old(isSubmitted)
    {
      if step > 0 {
        step := step - 1;
      }
    }

    /** `handleOptionSelect`'s answer update: the chosen option is stored
        under the question's id, replacing any earlier answer. */
    method HandleOptionSelect(q: int, option: Answer)
      requires Valid()
      requires 0 <= q < |Questions| && Questions[q].kind == SelectQuestion
      requires option in Questions[q].options
      modifies this
      ensures Valid()
      ensures answers == old(answers)[Questions[q].id := option]
      ensures forall k :: k in answers && k != Questions[q].id ==> k in old(answers) && answers[k] == old(answers)[k]
      ensures step == old(step) && showConfirm == old(showConfirm)
      ensures pendingDate == old(pendingDate) && isSubmitted == old(isSubmitted)
    {
      answers := answers[Questions[q].id := option];
      QuestionIdsDistinct();
    }

    /** The name field's `onChange`. */
    method SetName(name: string)
      requires Valid()
      modifies this
      ensures Valid()
      ensures answers == old(answers)["name" := Text(name)]
      ensures step == old(step) && showConfirm == old(showConfirm)
      ensures pendingDate == old(pendingDate) && isSubmitted == old(isSubmitted)
    {
      answers := answers["name" := Text(name)];
    }

    /** The date field's `onChange`: with a running streak a different date
        is held back for confirmation; otherwise it is taken at once. */
    method ChangeDate(newDate: string)
      requires Valid()
      modifies this
      ensures Valid()
      ensures if currentStreak > 0 && newDate != old(Date()) then
          pendingDate == Some(newDate) && showConfirm && answers == old(answers)
        else
          answers == old(answers)["date" := Text(newDate)] && Date() == newDate &&
          pendingDate == old(pendingDate) && showConfirm == old(showConfirm)
      ensures step == old(step) && isSubmitted == old(isSubmitted)
    {
      if currentStreak > 0 && newDate != Date() {
        pendingDate := Some(newDate);
        showConfirm := true;
      } else {
        answers := answers["date" := Text(newDate)];
      }
    }

    /** "Continue anyway": a non-empty pending date becomes the date, and the
        dialog closes. The pending date itself is left as it was. */
    method ConfirmDateChange()
      requires Valid()
      modifies this
      ensures Valid()
      ensures !showConfirm && pendingDate == old(pendingDate)
      ensures if old(pendingDate).Some? && old(pendingDate).value != "" then
          answers == old(answers)["date" := Text(old(pendingDate).value)] && Date() == old(pendingDate).value
        else answers == old(answers)
      ensures step == old(step) && isSubmitted == old(isSubmitted)
    {
      if pendingDate.Some? && pendingDate.value != "" {
        answers := answers["date" := Text(pendingDate.value)];
      }
      showConfirm := false;
    }

    /** "Cancel": the dialog closes, the pending date is dropped and the
        date stays as it was. */
    method CancelDateChange()
      requires Valid()
      modifies this
      ensures Valid()
      ensures !showConfirm && pendingDate.None? && answers == old(answers)
      ensures step == old(step) && isSubmitted == old(isSubmitted)
    {
      showConfirm := false;
      pendingDate := None;
    }

    /** The strip's `onDateSelect`: take the date and go back to the date
        question. */
    method SelectDateFromStrip(date: string)
      requires Valid()
      modifies this
      ensures Valid()
      ensures answers == old(answers)["date" := Text(date)] && step == 0
      ensures showConfirm == old(showConfirm) && pendingDate == old(pendingDate)
      ensures isSubmitted == old(isSubmitted)
    {
      answers := answers["date" := Text(date)];
      step := 0;
    }

    /** `handleSubmit`: marks the form submitted and hands the score and the
        answers to the caller. */
    method HandleSubmit() returns (score: int, report: map<string, Answer>)
      requires Valid()
      modifies this
      ensures Valid()
      ensures isSubmitted && score == TotalScore(answers) && report == answers
      ensures 0 <= score <= 270
      ensures answers == old(answers) && step == old(step)
      ensures showConfirm == old(showConfirm) && pendingDate == old(pendingDate)
    {
      score := TotalScore(answers);
      isSubmitted := true;
      report := answers;
    }

    /** `resetTracker`: back to the first question with today's date and an
        empty name, not submitted. */
    method ResetTracker(today: string)
      requires Valid()
      modifies this
      ensures Valid()
      ensures step == 0 && !isSubmitted
      ensures answers == map["date" := Text(today), "name" := Text("")]
      ensures TotalScore(answers) == 0
      ensures showConfirm == old(showConfirm) && pendingDate == old(pendingDate)
    {
      step := 0;
      answers := map["date" := Text(today), "name" := Text("")];
      isSubmitted := false;
      FreshAnswersFit(today, "");
    }
  }
}
