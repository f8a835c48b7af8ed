/** The records the components exchange, with calendar dates as day numbers
    and the date-time fields reduced to the days the code derives from them. */
module Types {
  import opened Common

  /** A calendar day number. Day numbers are chosen so that `d % 7 == 0`
      is a Sunday (the first column of the month grid). */
  type Day = int

  /** A submission timestamp (`created_at`), kept as the two days the code
      reads from it: `datePart` is the day written in the string before its
      'T' or space (the UTC day for a 'Z' string), `localDay` the calendar
      day of the instant in the browser's time zone. Near midnight they
      differ, and the model does not relate them. */
  datatype Timestamp = Timestamp(datePart: Day, localDay: Day)

  /** One answer of a daily report: the date and name questions store text,
      the select questions store the chosen option object. */
  datatype Answer =
    | Text(text: string)
    | Choice(id: string, caption: string, points: int)

  /** `SadhnaRecord`: one daily report as fetched from the store. */
  datatype SadhnaRecord = SadhnaRecord(
    id: string,
    date: Day,
    score: int,
    answers: map<string, Answer>,
    createdAt: Option<Timestamp>)

  /** `Festival`; `date` is the festival's calendar day. */
  datatype Festival = Festival(
    id: string,
    name: string,
    date: Day,
    description: string,
    significance: string,
    fastType: string)

  /** `User`, with the optional fields as options. */
  datatype User = User(
    id: string,
    name: string,
    email: Option<string>,
    currentStreak: Option<int>,
    longestStreak: Option<int>,
    role: Option<string>)

  datatype QuizQuestion = QuizQuestion(
    question: string,
    options: seq<string>,
    correctAnswer: int,
    explanation: string)

  /** A sopana (lesson) row; `revisionNotes` and `quiz` may be missing. */
  datatype Sopana = Sopana(
    id: string,
    title: string,
    bookName: string,
    bookOrder: int,
    readingText: string,
    revisionNotes: Option<seq<string>>,
    quiz: Option<seq<QuizQuestion>>)
}
