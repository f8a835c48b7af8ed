/** The admin's lesson ("sopana") manager: the edit form's revision-note and
    quiz helpers, the grouping of lessons by book, and the expanded row. */
module SopanaManager {
  import opened Common
  import opened Types

  /** The notes being edited; a missing list reads as empty. */
  function NotesOf(form: Sopana): seq<string>
  {
    form.revisionNotes.GetOr([])
  }

  /** The quiz being edited; a missing list reads as empty. */
  function QuizOf(form: Sopana): seq<QuizQuestion>
  {
    form.quiz.GetOr([])
  }

  /** The question `addQuizItem` appends. */
  const BlankQuestion := QuizQuestion("", ["", "", "", ""], 0, "")

  /** A field of a quiz question and the value `updateQuiz` writes to it. */
  datatype QuizField =
    | QuestionText(text: string)
    | Options(options: seq<string>)
    | CorrectAnswer(index: int)
    | Explanation(text: string)

  /** `{ ...q, [field]: val }`. */
  function WithField(q: QuizQuestion, f: QuizField): (r: QuizQuestion)
    ensures f.QuestionText? ==> r == q.(question := f.text)
    ensures f.Options? ==> r == q.(options := f.options)
    ensures f.CorrectAnswer? ==> r == q.(correctAnswer := f.index)
    ensures f.Explanation? ==> r == q.(explanation := f.text)
  {
    match f
    case QuestionText(t) => q.(question := t)
    case Options(o) => q.(options := o)
    case CorrectAnswer(i) => q.(correctAnswer := i)
    case Explanation(t) => q.(explanation := t)
  }

  /** The manager's editing state. */
  class Editor {
    var editingId: Option<string>
    var editForm: Sopana
    var expandedId: Option<string>

    constructor(blank: Sopana)
      ensures editingId.None? && editForm == blank && expandedId.None?
    {
      editingId := None;
      editForm := blank;
      expandedId := None;
    }

    /** `handleEdit`: start editing a copy of the lesson. */
    method HandleEdit(sopana: Sopana)
      modifies this
      ensures editingId == Some(sopana.id) && editForm == sopana
      ensures expandedId == old(expandedId)
    {
      editingId := Some(sopana.id);
      editForm := sopana;
    }

    /** `updateNote`: overwrite one note of the copy. */
    method UpdateNote(idx: int, val: string)
      requires 0 <= idx < |NotesOf(editForm)|
      modifies this
      ensures |NotesOf(editForm)| == |NotesOf(old(editForm))|
      ensures NotesOf(editForm)[idx] == val
      ensures forall i :: 0 <= i < |NotesOf(editForm)| && i != idx ==>
        NotesOf(editForm)[i] == NotesOf(old(editForm))[i]
      ensures editForm == old(editForm).(revisionNotes := editForm.revisionNotes)
      ensures editingId == old(editingId) && expandedId == old(expandedId)
    {
      var notes := NotesOf(editForm);
      notes := notes[idx := val];
      editForm := editForm.(revisionNotes := Some(notes));
    }

    /** `removeNote`: drop the note at `idx`, keeping the others in order. */
    method RemoveNote(idx: int)
      modifies this
      ensures NotesOf(editForm) == RemoveAt(NotesOf(old(editForm)), idx)
      ensures editForm == old(editForm).(revisionNotes := editForm.revisionNotes)
      ensures editingId == old(editingId) && expandedId == old(expandedId)
    {
      var notes := RemoveAt(NotesOf(editForm), idx);
      editForm := editForm.(revisionNotes := Some(notes));
    }

    /** `addNote`: append an empty note. */
    method AddNote()
      modifies this
      ensures NotesOf(editForm) == NotesOf(old(editForm)) + [""]
      ensures editForm == old(editForm).(revisionNotes := editForm.revisionNotes)
      ensures editingId == old(editingId) && expandedId == old(expandedId)
    {
      editForm := editForm.(revisionNotes := Some(NotesOf(editForm) + [""]));
    }

    /** `updateQuiz`: set one field of one question. */
    method UpdateQuiz(qIdx: int, f: QuizField)
      requires 0 <= qIdx < |QuizOf(editForm)|
      modifies this
      ensures |QuizOf(editForm)| == |QuizOf(old(editForm))|
      ensures QuizOf(editForm)[qIdx] == WithField(QuizOf(old(editForm))[qIdx], f)
      ensures forall i :: 0 <= i < |QuizOf(editForm)| && i != qIdx ==>
        QuizOf(editForm)[i] == QuizOf(old(editForm))[i]
      ensures editForm == old(editForm).(quiz := editForm.quiz)
      ensures editingId == old(editingId) && expandedId == old(expandedId)
    {
      var quiz := QuizOf(editForm);
      quiz := quiz[qIdx := WithField(quiz[qIdx], f)];
      editForm := editForm.(quiz := Some(quiz));
    }

    /** `updateOption`: overwrite one option of one question. */
    method UpdateOption(qIdx: int, oIdx: int, val: string)
      requires 0 <= qIdx < |QuizOf(editForm)|
      requires 0 <= oIdx < |QuizOf(editForm)[qIdx].options|
      modifies this
      ensures |QuizOf(editForm)| == |QuizOf(old(editForm))|
      ensures forall i :: 0 <= i < |QuizOf(editForm)| && i != qIdx ==>
        QuizOf(editForm)[i] == QuizOf(old(editForm))[i]
      ensures var q := QuizOf(editForm)[qIdx]; var q0 := QuizOf(old(editForm))[qIdx];
        q == q0.(options := q.options) &&
        |q.options| == |q0.options| && q.options[oIdx] == val &&
        forall j :: 0 <= j < |q.options| && j != oIdx ==> q.options[j] == q0.options[j]
      ensures editForm == old(editForm).(quiz := editForm.quiz)
      ensures editingId == old(editingId) && expandedId == old(expandedId)
    {
      var quiz := QuizOf(editForm);
      var options := quiz[qIdx].options;
      options := options[oIdx := val];
      quiz := quiz[qIdx := quiz[qIdx].(options := options)];
      editForm := editForm.(quiz := Some(quiz));
    }

    /** `removeQuizItem`: drop one question, keeping the others in order. */
    method RemoveQuizItem(idx: int)
      modifies this
      ensures QuizOf(editForm) == RemoveAt(QuizOf(old(editForm)), idx)
      ensures editForm == old(editForm).(quiz := editForm.quiz)
      ensures editingId == old(editingId) && expandedId == old(expandedId)
    {
      editForm := editForm.(quiz := Some(RemoveAt(QuizOf(editForm), idx)));
    }

    /** `addQuizItem`: append a blank four-option question. */
    method AddQuizItem()
      modifies this
      ensures QuizOf(editForm) == QuizOf(old(editForm)) + [BlankQuestion]
      ensures editForm == old(editForm).(quiz := editForm.quiz)
      ensures editingId == old(editingId) && expandedId == old(expandedId)
    {
      editForm := editForm.(quiz := Some(QuizOf(editForm) + [BlankQuestion]));
    }

    /** The row's expand button: collapse the row if it is the expanded one,
        otherwise expand it (collapsing any other). */
    method ToggleExpanded(id: string)
      modifies this
      ensures old(expandedId) == Some(id) ==> expandedId.None?
      ensures old(expandedId) != Some(id) ==> expandedId == Some(id)
      ensures editingId == old(editingId) && editForm == old(editForm)
    {
      expandedId := if expandedId == Some(id) then None else Some(id);
    }
  }

  /** The blank question has four empty options and points at the first. */
  lemma BlankQuestionShape()
    ensures |BlankQuestion.options| == 4
    ensures forall j :: 0 <= j < 4 ==> BlankQuestion.options[j] == ""
    ensures 0 <= BlankQuestion.correctAnswer < |BlankQuestion.options|
  {
  }

  // ---------------------------------------------------------------------------
  // Grouping by book
  // ---------------------------------------------------------------------------

  /** The group a lesson goes to: its book, or "Uncategorized" when the book
      name is empty. */
  function BookKey(s: Sopana): (key: string)
    ensures key != ""
    ensures s.bookName != "" ==> key == s.bookName
  {
    if s.bookName != "" then s.bookName else "Uncategorized"
  }

  /** One entry of `groupedSopanas`. */
  datatype Group = Group(book: string, items: seq<Sopana>)

  function TotalSize(groups: seq<Group>): nat
  {
    if groups == [] then 0 else |groups[0].items| + TotalSize(groups[1..])
  }

  lemma {:induction false} TotalSizeAppend(groups: seq<Group>, g: Group)
    ensures TotalSize(groups + [g]) == TotalSize(groups) + |g.items|
  {
    if groups != [] {
      assert (groups + [g])[1..] == groups[1..] + [g];
      TotalSizeAppend(groups[1..], g);
    }
  }

  lemma {:induction false} TotalSizeUpdate(groups: seq<Group>, j: nat, g: Group)
    requires j < |groups|
    ensures TotalSize(groups[j := g]) == TotalSize(groups) - |groups[j].items| + |g.items|
  {
    if j > 0 {
      assert groups[j := g][1..] == groups[1..][j - 1 := g];
      TotalSizeUpdate(groups[1..], j - 1, g);
    }
  }

  /** The index of the group for `book`, if there is one. */
  function GroupIndex(groups: seq<Group>, book: string): (r: Option<nat>)
    ensures r.Some? ==> r.value < |groups| && groups[r.value].book == book
    ensures r.None? ==> forall j :: 0 <= j < |groups| ==> groups[j].book != book
  {
    if groups == [] then None
    else if groups[0].book == book then Some(0)
    else match GroupIndex(groups[1..], book)
      case None => None
      case Some(j) => Some(j + 1)
  }

  /** The lessons of `book`, in list order. */
  function OfBook(done: seq<Sopana>, book: string): (r: seq<Sopana>)
    ensures forall x :: x in r <==> x in done && BookKey(x) == book
  {
    if done == [] then []
    else (if BookKey(done[0]) == book then [done[0]] else []) + OfBook(done[1..], book)
  }

  lemma {:induction false} OfBookAppend(done: seq<Sopana>, x: Sopana, book: string)
    ensures OfBook(done + [x], book) == OfBook(done, book) + (if BookKey(x) == book then [x] else [])
  {
    if done != [] {
      assert (done + [x])[1..] == done[1..] + [x];
      OfBookAppend(done[1..], x, book);
    }
  }

  /** The lessons of a book keep their list order: they form a
      subsequence of the list. */
  lemma {:induction false} OfBookIsSubsequence(done: seq<Sopana>, book: string)
    ensures IsSubsequence(OfBook(done, book), done)
  {
    if done != [] {
      OfBookIsSubsequence(done[1..], book);
      if BookKey(done[0]) == book {
        assert OfBook(done, book)[1..] == OfBook(done[1..], book);
      } else {
        assert OfBook(done, book) == OfBook(done[1..], book);
        SkipHead(OfBook(done, book), done);
      }
    }
  }

  predicate DistinctBooks(groups: seq<Group>)
  {
    forall j, k :: 0 <= j < k < |groups| ==> groups[j].book != groups[k].book
  }

  predicate ItemsMatch(groups: seq<Group>, done: seq<Sopana>)
  {
    forall j :: 0 <= j < |groups| ==> groups[j].items == OfBook(done, groups[j].book)
  }

  predicate Covers(groups: seq<Group>, done: seq<Sopana>)
  {
    forall i :: 0 <= i < |done| ==> exists j :: 0 <= j < |groups| && groups[j].book == BookKey(done[i])
  }

  predicate NoEmptyGroup(groups: seq<Group>)
  {
    forall j :: 0 <= j < |groups| ==> groups[j].items != []
  }

  /** Where the first lesson of `book` sits in `done`, or `|done|` when
      there is none. */
  function FirstIndexOf(done: seq<Sopana>, book: string): (i: nat)
    ensures i <= |done|
    ensures forall k :: 0 <= k < i ==> BookKey(done[k]) != book
    ensures i < |done| ==> BookKey(done[i]) == book
  {
    if done == [] || BookKey(done[0]) == book then 0
    else
      var i := FirstIndexOf(done[1..], book);
      assert forall k :: 1 <= k < 1 + i ==> done[k] == done[1..][k - 1];
      1 + i
  }

  /** The first position is fixed by the lessons before it and the lesson
      at it. */
  lemma FirstIndexIs(done: seq<Sopana>, book: string, i: nat)
    requires i <= |done|
    requires forall k :: 0 <= k < i ==> BookKey(done[k]) != book
    requires i < |done| ==> BookKey(done[i]) == book
    ensures FirstIndexOf(done, book) == i
  {
  }

  /** A book without lessons first appears at the end. */
  lemma NoLessonNoIndex(done: seq<Sopana>, book: string)
    requires OfBook(done, book) == []
    ensures FirstIndexOf(done, book) == |done|
  {
    forall k | 0 <= k < |done| ensures BookKey(done[k]) != book {
      assert done[k] !in OfBook(done, book);
    }
    FirstIndexIs(done, book, |done|);
  }

  /** The groups are listed in the order their books first appear. */
  predicate InFirstSeenOrder(groups: seq<Group>, done: seq<Sopana>)
  {
    forall j, k :: 0 <= j < k < |groups| ==>
      FirstIndexOf(done, groups[j].book) < FirstIndexOf(done, groups[k].book)
  }

  /** `groups` is the grouping of `done`: distinct books, each group that
      book's lessons in order, every lesson covered, no empty group, and
      as many entries in all as lessons. */
  predicate Grouped(groups: seq<Group>, done: seq<Sopana>)
  {
    DistinctBooks(groups) && ItemsMatch(groups, done) && Covers(groups, done) &&
    NoEmptyGroup(groups) && TotalSize(groups) == |done|
  }

  /** `groupedSopanas`: one group per book in the order the books first
      appear, each holding that book's lessons in list order. */
  method GroupSopanas(sopanas: seq<Sopana>) returns (groups: seq<Group>)
    ensures Grouped(groups, sopanas)
    ensures InFirstSeenOrder(groups, sopanas)
  {
    groups := [];
    for k := 0 to |sopanas|
      invariant Grouped(groups, sopanas[..k])
      invariant InFirstSeenOrder(groups, sopanas[..k])
    {
      var curr := sopanas[k];
      var book := BookKey(curr);
      match GroupIndex(groups, book)
      case None =>
        NewBookStep(groups, sopanas, k);
        NewBookOrder(groups, sopanas, k);
        groups := groups + [Group(book, [curr])];
      case Some(j) =>
        KnownBookStep(groups, sopanas, k, j);
        KnownBookOrder(groups, sopanas, k, j);
        groups := groups[j := Group(book, groups[j].items + [curr])];
    }
    assert sopanas[..|sopanas|] == sopanas;
  }

  /** Every grouped book has a lesson, so its first position lies inside
      the list. */
  lemma BookSeen(groups: seq<Group>, done: seq<Sopana>, j: int)
    requires ItemsMatch(groups, done) && NoEmptyGroup(groups)
    requires 0 <= j < |groups|
    ensures FirstIndexOf(done, groups[j].book) < |done|
  {
    var x := groups[j].items[0];
    assert x in OfBook(done, groups[j].book);
    var m :| 0 <= m < |done| && done[m] == x;
  }

  /** A lesson more keeps the first position of every book already seen,
      and a new book first appears at the end. */
  lemma FirstIndexAppend(done: seq<Sopana>, x: Sopana, book: string)
    ensures FirstIndexOf(done, book) < |done| ==>
      FirstIndexOf(done + [x], book) == FirstIndexOf(done, book)
    ensures FirstIndexOf(done, book) == |done| && BookKey(x) == book ==>
      FirstIndexOf(done + [x], book) == |done|
  {
    var i := FirstIndexOf(done, book);
    var next := done + [x];
    if i < |done| {
      FirstIndexIs(next, book, i);
    } else if BookKey(x) == book {
      FirstIndexIs(next, book, |done|);
    }
  }

  /** A new group at the end keeps the first-seen order. */
  lemma NewBookOrder(groups: seq<Group>, sopanas: seq<Sopana>, k: nat)
    requires k < |sopanas| && Grouped(groups, sopanas[..k]) && InFirstSeenOrder(groups, sopanas[..k])
    requires forall j :: 0 <= j < |groups| ==> groups[j].book != BookKey(sopanas[k])
    ensures InFirstSeenOrder(groups + [Group(BookKey(sopanas[k]), [sopanas[k]])], sopanas[..k + 1])
  {
    assert sopanas[..k + 1] == sopanas[..k] + [sopanas[k]];
    NewBookOrdered(groups, sopanas[..k], sopanas[k]);
  }

  lemma NewBookOrdered(groups: seq<Group>, done: seq<Sopana>, curr: Sopana)
    requires ItemsMatch(groups, done) && NoEmptyGroup(groups) && Covers(groups, done)
    requires InFirstSeenOrder(groups, done)
    requires forall j :: 0 <= j < |groups| ==> groups[j].book != BookKey(curr)
    ensures InFirstSeenOrder(groups + [Group(BookKey(curr), [curr])], done + [curr])
  {
    var g := groups + [Group(BookKey(curr), [curr])];
    var next := done + [curr];
    UnseenBookEmpty(groups, done, BookKey(curr));
    NoLessonNoIndex(done, BookKey(curr));
    FirstIndexAppend(done, curr, BookKey(curr));
    forall a, b | 0 <= a < b < |g|
      ensures FirstIndexOf(next, g[a].book) < FirstIndexOf(next, g[b].book)
    {
      assert g[a] == groups[a];
      SeenBookKeepsIndex(groups, done, curr, a);
      if b < |groups| {
        assert g[b] == groups[b];
        SeenBookKeepsIndex(groups, done, curr, b);
      }
    }
  }

  /** A grouped book keeps its first position when a lesson is added. */
  lemma SeenBookKeepsIndex(groups: seq<Group>, done: seq<Sopana>, curr: Sopana, j: int)
    requires ItemsMatch(groups, done) && NoEmptyGroup(groups)
    requires 0 <= j < |groups|
    ensures FirstIndexOf(done + [curr], groups[j].book) == FirstIndexOf(done, groups[j].book) < |done|
  {
    BookSeen(groups, done, j);
    FirstIndexAppend(done, curr, groups[j].book);
  }

  /** Appending to an existing group keeps the first-seen order. */
  lemma KnownBookOrder(groups: seq<Group>, sopanas: seq<Sopana>, k: nat, j: nat)
    requires k < |sopanas| && Grouped(groups, sopanas[..k]) && InFirstSeenOrder(groups, sopanas[..k])
    requires j < |groups| && groups[j].book == BookKey(sopanas[k])
    ensures InFirstSeenOrder(groups[j := Group(BookKey(sopanas[k]), groups[j].items + [sopanas[k]])], sopanas[..k + 1])
  {
    assert sopanas[..k + 1] == sopanas[..k] + [sopanas[k]];
    KnownBookOrdered(groups, sopanas[..k], sopanas[k], j);
  }

  lemma KnownBookOrdered(groups: seq<Group>, done: seq<Sopana>, curr: Sopana, j: nat)
    requires ItemsMatch(groups, done) && NoEmptyGroup(groups)
    requires InFirstSeenOrder(groups, done)
    requires j < |groups| && groups[j].book == BookKey(curr)
    ensures InFirstSeenOrder(groups[j := Group(BookKey(curr), groups[j].items + [curr])], done + [curr])
  {
    var g := groups[j := Group(BookKey(curr), groups[j].items + [curr])];
    forall l | 0 <= l < |g|
      ensures FirstIndexOf(done + [curr], g[l].book) == FirstIndexOf(done, groups[l].book)
    {
      assert g[l].book == groups[l].book;
      SeenBookKeepsIndex(groups, done, curr, l);
    }
  }

  /** Adding a lesson of a book not seen yet opens a group at the end. */
  lemma NewBookStep(groups: seq<Group>, sopanas: seq<Sopana>, k: nat)
    requires k < |sopanas| && Grouped(groups, sopanas[..k])
    requires forall j :: 0 <= j < |groups| ==> groups[j].book != BookKey(sopanas[k])
    ensures Grouped(groups + [Group(BookKey(sopanas[k]), [sopanas[k]])], sopanas[..k + 1])
  {
    assert sopanas[..k + 1] == sopanas[..k] + [sopanas[k]];
    NewBookGrouped(groups, sopanas[..k], sopanas[k]);
  }

  lemma NewBookGrouped(groups: seq<Group>, done: seq<Sopana>, curr: Sopana)
    requires Grouped(groups, done)
    requires forall j :: 0 <= j < |groups| ==> groups[j].book != BookKey(curr)
    ensures Grouped(groups + [Group(BookKey(curr), [curr])], done + [curr])
  {
    var g0 := Group(BookKey(curr), [curr]);
    var g := groups + [g0];
    NewBookDistinct(groups, g0);
    UnseenBookEmpty(groups, done, g0.book);
    NewBookItems(groups, done, curr);
    TotalSizeAppend(groups, g0);
    assert g[|groups|].book == BookKey(curr);
    CoverageStep(groups, g, done, curr);
    assert NoEmptyGroup(g) by {
      forall j | 0 <= j < |g| ensures g[j].items != [] {
        if j < |groups| {
          assert g[j] == groups[j];
        }
      }
    }
  }

  lemma NewBookDistinct(groups: seq<Group>, g0: Group)
    requires DistinctBooks(groups)
    requires forall j :: 0 <= j < |groups| ==> groups[j].book != g0.book
    ensures DistinctBooks(groups + [g0])
  {
    var g := groups + [g0];
    forall j, k | 0 <= j < k < |g| ensures g[j].book != g[k].book {
      assert g[j] == groups[j];
    }
  }

  lemma NewBookItems(groups: seq<Group>, done: seq<Sopana>, curr: Sopana)
    requires ItemsMatch(groups, done)
    requires forall j :: 0 <= j < |groups| ==> groups[j].book != BookKey(curr)
    requires OfBook(done, BookKey(curr)) == []
    ensures ItemsMatch(groups + [Group(BookKey(curr), [curr])], done + [curr])
  {
    var g := groups + [Group(BookKey(curr), [curr])];
    forall j | 0 <= j < |g|
      ensures g[j].items == OfBook(done + [curr], g[j].book)
    {
      OfBookAppend(done, curr, g[j].book);
      if j < |groups| {
        assert g[j] == groups[j];
      }
    }
  }

  /** A book no group holds has no lessons yet. */
  lemma UnseenBookEmpty(groups: seq<Group>, done: seq<Sopana>, book: string)
    requires Covers(groups, done)
    requires forall j :: 0 <= j < |groups| ==> groups[j].book != book
    ensures OfBook(done, book) == []
  {
    forall x | x in done ensures BookKey(x) != book {
      var i :| 0 <= i < |done| && done[i] == x;
      var j :| 0 <= j < |groups| && groups[j].book == BookKey(done[i]);
    }
    if OfBook(done, book) != [] {
      assert OfBook(done, book)[0] in OfBook(done, book);
    }
  }

  /** Adding a lesson of a known book appends it to that book's group. */
  lemma KnownBookStep(groups: seq<Group>, sopanas: seq<Sopana>, k: nat, j: nat)
    requires k < |sopanas| && Grouped(groups, sopanas[..k])
    requires j < |groups| && groups[j].book == BookKey(sopanas[k])
    ensures Grouped(groups[j := Group(BookKey(sopanas[k]), groups[j].items + [sopanas[k]])], sopanas[..k + 1])
  {
    assert sopanas[..k + 1] == sopanas[..k] + [sopanas[k]];
    KnownBookGrouped(groups, sopanas[..k], sopanas[k], j);
  }

  lemma KnownBookGrouped(groups: seq<Group>, done: seq<Sopana>, curr: Sopana, j: nat)
    requires Grouped(groups, done)
    requires j < |groups| && groups[j].book == BookKey(curr)
    ensures Grouped(groups[j := Group(BookKey(curr), groups[j].items + [curr])], done + [curr])
  {
    var g0 := Group(BookKey(curr), groups[j].items + [curr]);
    var g := groups[j := g0];
    KnownBookItems(groups, done, curr, j);
    TotalSizeUpdate(groups, j, g0);
    assert g[j].book == BookKey(curr);
    CoverageStep(groups, g, done, curr);
    assert DistinctBooks(g) by {
      forall l, m | 0 <= l < m < |g| ensures g[l].book != g[m].book {
        assert g[l].book == groups[l].book && g[m].book == groups[m].book;
      }
    }
    assert NoEmptyGroup(g) by {
      forall l | 0 <= l < |g| ensures g[l].items != [] {
        if l != j {
          assert g[l] == groups[l];
        }
      }
    }
  }

  lemma KnownBookItems(groups: seq<Group>, done: seq<Sopana>, curr: Sopana, j: nat)
    requires ItemsMatch(groups, done) && DistinctBooks(groups)
    requires j < |groups| && groups[j].book == BookKey(curr)
    ensures ItemsMatch(groups[j := Group(BookKey(curr), groups[j].items + [curr])], done + [curr])
  {
    var g := groups[j := Group(BookKey(curr), groups[j].items + [curr])];
    forall l | 0 <= l < |g|
      ensures g[l].items == OfBook(done + [curr], g[l].book)
    {
      OfBookAppend(done, curr, g[l].book);
      if l != j {
        assert g[l] == groups[l];
        assert groups[l].book != groups[j].book;
      }
    }
  }

  /** Coverage carries over when every old book keeps its place and the new
      lesson's book has a group. */
  lemma CoverageStep(groups: seq<Group>, g: seq<Group>, done: seq<Sopana>, curr: Sopana)
    requires Covers(groups, done)
    requires |groups| <= |g| && forall j :: 0 <= j < |groups| ==> g[j].book == groups[j].book
    requires exists j :: 0 <= j < |g| && g[j].book == BookKey(curr)
    ensures Covers(g, done + [curr])
  {
    forall i | 0 <= i < |done + [curr]|
      ensures exists j :: 0 <= j < |g| && g[j].book == BookKey((done + [curr])[i])
    {
      if i < |done| {
        var j :| 0 <= j < |groups| && groups[j].book == BookKey(done[i]);
        assert g[j].book == BookKey((done + [curr])[i]);
      }
    }
  }

  /** Every lesson sits in exactly one group: the one for its book. */
  lemma EachLessonInOneGroup(sopanas: seq<Sopana>, groups: seq<Group>, i: nat)
    requires Grouped(groups, sopanas) && i < |sopanas|
    ensures exists j :: 0 <= j < |groups| && sopanas[i] in groups[j].items
    ensures forall j, k :: 0 <= j < k < |groups| ==>
      !(sopanas[i] in groups[j].items && sopanas[i] in groups[k].items)
  {
    var j :| 0 <= j < |groups| && groups[j].book == BookKey(sopanas[i]);
    assert sopanas[i] in groups[j].items;
  }
}
