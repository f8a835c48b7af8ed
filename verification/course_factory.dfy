/** The course factory's review table: generated lessons are edited one row
    at a time or removed before the batch is saved, each row numbered by its
    position and labelled with the book's name. */
module CourseFactory {
  import opened Common
  import opened Types

  // ---------------------------------------------------------------------------
  // The edit/remove state
  // ---------------------------------------------------------------------------

  /** The part of the component's state the row editor touches. */
  datatype EditState = EditState(
    sopanas: seq<Sopana>,
    editingIndex: Option<int>,
    editSopana: Option<Sopana>)

  /** A row being edited has a draft, and its index names an existing row
      whenever there are rows. Cancelling leaves the draft behind without an
      index, and a saved batch leaves the index behind without rows. */
  predicate ValidEdit(st: EditState)
  {
    st.editingIndex.Some? ==>
      st.editSopana.Some? && 0 <= st.editingIndex.value &&
      (st.sopanas != [] ==> st.editingIndex.value < |st.sopanas|)
  }

  /** The editor is on screen: its index names an existing row. Only then
      are its buttons there to be clicked. */
  predicate EditorShown(st: EditState)
  {
    st.editingIndex.Some? ==> st.editingIndex.value < |st.sopanas|
  }

  /** JavaScript's `a[idx] = v` on a copy, for an index at most one past
      the end: inside the array it overwrites, at the end it appends. */
  function AssignAt(s: seq<Sopana>, idx: nat, v: Sopana): (r: seq<Sopana>)
    requires idx <= |s|
    ensures |r| == if idx < |s| then |s| else |s| + 1
    ensures r[idx] == v
    ensures forall i :: 0 <= i < |s| && i != idx ==> r[i] == s[i]
  {
    if idx < |s| then s[idx := v] else s + [v]
  }

  /** `handleEdit(index)`: open the row's draft. */
  function EditStep(st: EditState, index: int): (r: EditState)
    requires 0 <= index < |st.sopanas|
    ensures ValidEdit(r) && r.sopanas == st.sopanas
    ensures r.editingIndex == Some(index) && r.editSopana == Some(st.sopanas[index])
  {
    EditState(st.sopanas, Some(index), Some(st.sopanas[index]))
  }

  /** The editor's cancel button: the editor closes and the draft stays
      behind, so a later save writes nothing. */
  function CancelStep(st: EditState): (r: EditState)
    requires ValidEdit(st)
    ensures ValidEdit(r) && r.sopanas == st.sopanas && r.editSopana == st.editSopana
    ensures r.editingIndex.None?
    ensures SaveEditStep(r) == r
  {
    EditState(st.sopanas, None, st.editSopana)
  }

  /** `handleSaveEdit`: write the draft into its row and close the editor;
      without an open draft nothing changes. The index may be one past the
      end only in the state the as-written removal leaves behind. */
  function SaveEditStep(st: EditState): (r: EditState)
    requires st.editingIndex.Some? ==> 0 <= st.editingIndex.value <= |st.sopanas|
    ensures st.editingIndex.None? || st.editSopana.None? ==> r == st
    ensures st.editingIndex.Some? && st.editSopana.Some? ==>
      r == EditState(AssignAt(st.sopanas, st.editingIndex.value, st.editSopana.value), None, None)
  {
    match (st.editingIndex, st.editSopana)
    case (Some(i), Some(e)) => EditState(AssignAt(st.sopanas, i, e), None, None)
    case _ => st
  }

  /** `handleRemove(index)` as written: the row is dropped but the editor
      keeps its index, which then names a different row (or the end). */
  function RemoveStepAsWritten(st: EditState, index: int): (r: EditState)
    ensures r.sopanas == RemoveAt(st.sopanas, index)
    ensures r.editingIndex == st.editingIndex && r.editSopana == st.editSopana
  {
    EditState(RemoveAt(st.sopanas, index), st.editingIndex, st.editSopana)
  }

  /** `handleRemove(index)` as evidently intended: the row is dropped and the
      editor follows its row, closing if that row was the one removed; a
      closed editor keeps whatever draft it left behind. */
  function RemoveStep(st: EditState, index: int): (r: EditState)
    requires ValidEdit(st)
    ensures ValidEdit(r)
    ensures EditorShown(st) ==> EditorShown(r)
    ensures r.sopanas == RemoveAt(st.sopanas, index)
    ensures st.editingIndex.Some? && st.editingIndex.value != index && st.editingIndex.value < |st.sopanas| ==>
      r.editingIndex.Some? && r.editSopana == st.editSopana &&
      r.sopanas[r.editingIndex.value] == st.sopanas[st.editingIndex.value]
    ensures st.editingIndex == Some(index) ==> r.editingIndex.None? && r.editSopana.None?
    ensures st.editingIndex.None? ==> r.editingIndex.None? && r.editSopana == st.editSopana
  {
    var s := RemoveAt(st.sopanas, index);
    match st.editingIndex
    case None => EditState(s, None, st.editSopana)
    case Some(e) =>
      RemoveAtFollows(st.sopanas, index, e);
      if e == index then EditState(s, None, None)
      else if 0 <= index < e then EditState(s, Some(e - 1), st.editSopana)
      else EditState(s, Some(e), st.editSopana)
  }

  /** Dropping another row moves row `e` one place up when the dropped row
      was before it, and leaves it in place otherwise. */
  lemma RemoveAtFollows(s: seq<Sopana>, index: int, e: int)
    ensures |RemoveAt(s, index)| == if 0 <= index < |s| then |s| - 1 else |s|
    ensures 0 <= e < |s| && e != index ==>
      var f := if 0 <= index < e then e - 1 else e;
      0 <= f < |RemoveAt(s, index)| && RemoveAt(s, index)[f] == s[e]
  {
  }

  /** With the corrected removal, removing another row and saving the open
      draft give the same lessons in either order. */
  lemma RemoveCommutesWithSave(st: EditState, index: int)
    requires ValidEdit(st) && EditorShown(st)
    requires st.editingIndex.Some? ==> st.editingIndex.value != index
    ensures SaveEditStep(RemoveStep(st, index)).sopanas == RemoveStep(SaveEditStep(st), index).sopanas
  {
    if st.editingIndex.Some? {
      var e := st.editingIndex.value;
      var v := st.editSopana.value;
      assert SaveEditStep(st).sopanas == st.sopanas[e := v];
      if 0 <= index < |st.sopanas| {
        RemoveThenAssign(st.sopanas, index, e, v);
      } else {
        assert RemoveStep(st, index).sopanas == st.sopanas;
      }
    }
  }

  /** Dropping row `index` and then writing row `e` at its shifted position
      is writing row `e` and then dropping row `index`. */
  lemma RemoveThenAssign(s: seq<Sopana>, index: int, e: int, v: Sopana)
    requires 0 <= index < |s| && 0 <= e < |s| && e != index
    ensures AssignAt(RemoveAt(s, index), if index < e then e - 1 else e, v) == RemoveAt(s[e := v], index)
  {
    var r := s[..index] + s[index + 1..];
    var saved := s[e := v];
    var b := saved[..index] + saved[index + 1..];
    var f := if index < e then e - 1 else e;
    assert |r| == |b| && 0 <= f < |r|;
    forall i | 0 <= i < |r| ensures r[f := v][i] == b[i] {
      if i < index {
        assert r[i] == s[i] && b[i] == saved[i];
      } else {
        assert r[i] == s[i + 1] && b[i] == saved[i + 1];
      }
    }
    assert r[f := v] == b;
  }

  /** The as-written removal breaks that: three lessons `a, b, c`, the draft
      `x` open on `b`, the first row removed, then saved — `c` is overwritten
      and `b` stays, where removing after saving keeps `x, c`. */
  lemma StaleEditIndexOverwritesWrongRow(a: Sopana, b: Sopana, c: Sopana, x: Sopana)
    requires a != b && b != c && c != x && b != x
    ensures var st := EditState([a, b, c], Some(1), Some(x));
      SaveEditStep(RemoveStepAsWritten(st, 0)).sopanas == [b, x] &&
      RemoveStep(SaveEditStep(st), 0).sopanas == [x, c] &&
      SaveEditStep(RemoveStep(st, 0)).sopanas == [x, c]
  {
    var st := EditState([a, b, c], Some(1), Some(x));
    assert RemoveAt([a, b, c], 0) == [b, c];
    assert RemoveAt([a, x, c], 0) == [x, c];
  }

  /** Editing the last of three rows and removing the first, as written,
      leaves an index that names no row: the editor and its save button
      disappear, while the stale index and draft stay behind for whatever
      rows come next. */
  lemma StaleEditIndexHidesEditor(a: Sopana, b: Sopana, c: Sopana, x: Sopana)
    ensures var st := RemoveStepAsWritten(EditState([a, b, c], Some(2), Some(x)), 0);
      st.sopanas == [b, c] && !EditorShown(st) &&
      st.editingIndex == Some(2) && st.editSopana == Some(x)
  {
    assert RemoveAt([a, b, c], 0) == [b, c];
  }

  // ---------------------------------------------------------------------------
  // Saving the batch
  // ---------------------------------------------------------------------------

  /** `name.replace(pat, '')` with a string pattern: the first occurrence is
      removed. */
  function RemoveFirst(s: string, pat: string): (r: string)
    requires pat != ""
    ensures !Contains(s, pat) ==> r == s
    ensures Contains(s, pat) ==> |r| == |s| - |pat|
    ensures Contains(s, pat) ==>
      exists i :: FirstOccurrence(s, pat, i) && r == s[..i] + s[i + |pat|..]
    decreases |s|
  {
    if |s| < |pat| then s
    else if s[..|pat|] == pat then
      assert FirstOccurrence(s, pat, 0);
      assert s[..0] + s[|pat|..] == s[|pat|..];
      s[|pat|..]
    else
      var rest := RemoveFirst(s[1..], pat);
      ContainsStep(s, pat);
      FirstOccurrenceStep(s, pat, rest);
      [s[0]] + rest
  }

  /** `pat` occurs at `i` and at no earlier position. */
  predicate FirstOccurrence(s: string, pat: string, i: int)
  {
    OccursAt(s, pat, i) && forall j :: 0 <= j < i ==> !OccursAt(s, pat, j)
  }

  /** When `s` does not start with `pat`, its first occurrence is one past
      the first occurrence in its tail, and cutting it out commutes with
      keeping the first character. */
  lemma FirstOccurrenceStep(s: string, pat: string, rest: string)
    requires |s| >= |pat| > 0 && s[..|pat|] != pat
    requires Contains(s[1..], pat) ==>
      exists k :: FirstOccurrence(s[1..], pat, k) && rest == s[1..][..k] + s[1..][k + |pat|..]
    ensures Contains(s, pat) ==>
      exists i :: FirstOccurrence(s, pat, i) && [s[0]] + rest == s[..i] + s[i + |pat|..]
  {
    if Contains(s, pat) {
      ContainsStep(s, pat);
      var k :| FirstOccurrence(s[1..], pat, k) && rest == s[1..][..k] + s[1..][k + |pat|..];
      FirstOccurrenceShift(s, pat, k);
      CutAfterFirst(s, k, |pat|);
    }
  }

  lemma FirstOccurrenceShift(s: string, pat: string, k: int)
    requires |s| >= |pat| > 0 && s[..|pat|] != pat
    requires FirstOccurrence(s[1..], pat, k)
    ensures FirstOccurrence(s, pat, k + 1)
  {
    ShiftOccurs(s, pat, k + 1);
    forall j | 0 < j < k + 1 ensures !OccursAt(s, pat, j) {
      ShiftOccurs(s, pat, j);
    }
    assert s[0..|pat|] == s[..|pat|];
  }

  /** An occurrence past the first character is an occurrence in the tail,
      one position earlier. */
  lemma ShiftOccurs(s: string, pat: string, j: int)
    requires 0 < j && s != []
    ensures OccursAt(s, pat, j) <==> OccursAt(s[1..], pat, j - 1)
  {
    if j <= |s| - |pat| {
      assert s[j..j + |pat|] == s[1..][j - 1..j - 1 + |pat|];
    }
  }

  lemma FirstOccurrenceUnique(s: string, pat: string, i: int, j: int)
    requires FirstOccurrence(s, pat, i) && FirstOccurrence(s, pat, j)
    ensures i == j
  {
  }

  lemma CutAfterFirst(s: string, k: int, n: int)
    requires 0 <= k && 0 <= n && k + 1 + n <= |s|
    ensures [s[0]] + (s[1..][..k] + s[1..][k + n..]) == s[..k + 1] + s[k + 1 + n..]
  {
    assert s[..k + 1] == [s[0]] + s[1..][..k];
    assert s[k + 1 + n..] == s[1..][k + n..];
  }

  /** Removing cuts out exactly the first occurrence. */
  lemma RemoveFirstAt(s: string, pat: string, i: int)
    requires pat != "" && FirstOccurrence(s, pat, i)
    ensures RemoveFirst(s, pat) == s[..i] + s[i + |pat|..]
  {
    var r := RemoveFirst(s, pat);
    assert Contains(s, pat) by {
      assert OccursAt(s, pat, i);
    }
    var j :| FirstOccurrence(s, pat, j) && r == s[..j] + s[j + |pat|..];
    FirstOccurrenceUnique(s, pat, i, j);
  }

  /** `s` contains `pat` not at its start exactly when its tail does. */
  lemma ContainsStep(s: string, pat: string)
    requires |s| >= |pat| > 0 && s[..|pat|] != pat
    ensures Contains(s, pat) <==> Contains(s[1..], pat)
  {
    if Contains(s, pat) {
      var i :| 0 <= i <= |s| - |pat| && OccursAt(s, pat, i);
      assert i != 0;
      assert s[1..][i - 1..i - 1 + |pat|] == s[i..i + |pat|];
      assert OccursAt(s[1..], pat, i - 1);
    }
    if Contains(s[1..], pat) {
      var i :| 0 <= i <= |s[1..]| - |pat| && OccursAt(s[1..], pat, i);
      assert s[i + 1..i + 1 + |pat|] == s[1..][i..i + |pat|];
      assert OccursAt(s, pat, i + 1);
    }
  }

  lemma RemoveFirstExample(name: string)
    requires name == "gita.pdf"
    ensures RemoveFirst(name, ".pdf") == "gita"
  {
    var pat := ".pdf";
    assert name[4..8] == pat;
    forall j | 0 <= j < 4 ensures !OccursAt(name, pat, j) {
      assert name[j..j + 4][0] == name[j] != '.';
    }
    assert FirstOccurrence(name, pat, 4);
    RemoveFirstAt(name, pat, 4);
    assert name[..4] + name[8..] == "gita";
  }

  /** The `book_name` saved with every row: the entered name, else the file
      name without its first ".pdf", else "Manual Upload". */
  function SavedBookName(bookName: string, fileName: Option<string>): (name: string)
    ensures name != ""
    ensures bookName != "" ==> name == bookName
    ensures bookName == "" && (fileName.None? || RemoveFirst(fileName.value, ".pdf") == "") ==>
      name == "Manual Upload"
    ensures bookName == "" && fileName.Some? && RemoveFirst(fileName.value, ".pdf") != "" ==>
      name == RemoveFirst(fileName.value, ".pdf")
  {
    if bookName != "" then bookName
    else if fileName.Some? && RemoveFirst(fileName.value, ".pdf") != "" then RemoveFirst(fileName.value, ".pdf")
    else "Manual Upload"
  }

  /** One inserted row. */
  datatype Row = Row(
    bookName: string,
    bookOrder: int,
    title: string,
    readingText: string,
    revisionNotes: Option<seq<string>>,
    quiz: Option<seq<QuizQuestion>>)

  /** The rows inserted for the batch. */
  function SaveRows(sopanas: seq<Sopana>, bookName: string, fileName: Option<string>): (rows: seq<Row>)
    ensures |rows| == |sopanas|
    ensures forall i :: 0 <= i < |rows| ==>
      rows[i].bookOrder == i &&
      rows[i].bookName == SavedBookName(bookName, fileName) &&
      rows[i].title == sopanas[i].title &&
      rows[i].readingText == sopanas[i].readingText &&
      rows[i].revisionNotes == sopanas[i].revisionNotes &&
      rows[i].quiz == sopanas[i].quiz
  {
    var name := SavedBookName(bookName, fileName);
    seq(|sopanas|, i requires 0 <= i < |sopanas| =>
      Row(name, i, sopanas[i].title, sopanas[i].readingText, sopanas[i].revisionNotes, sopanas[i].quiz))
  }

  /** The saved rows are numbered 0, 1, 2, … without gaps or repeats. */
  lemma SavedOrdersDistinct(sopanas: seq<Sopana>, bookName: string, fileName: Option<string>)
    ensures var rows := SaveRows(sopanas, bookName, fileName);
      forall i, j :: 0 <= i < j < |rows| ==> rows[i].bookOrder < rows[j].bookOrder
  {
  }

  // ---------------------------------------------------------------------------
  // The component
  // ---------------------------------------------------------------------------

  class Factory {
    var sopanas: seq<Sopana>
    var editingIndex: Option<int>
    var editSopana: Option<Sopana>
    var deletingIndex: Option<int>
    var bookName: string
    var fileName: Option<string>

    function State(): EditState
      reads this
    {
      EditState(sopanas, editingIndex, editSopana)
    }

    constructor(sopanas: seq<Sopana>, bookName: string, fileName: Option<string>)
      ensures this.sopanas == sopanas && this.bookName == bookName && this.fileName == fileName
      ensures editingIndex.None? && editSopana.None? && deletingIndex.None?
      ensures ValidEdit(State())
    {
      this.sopanas := sopanas;
      this.bookName := bookName;
      this.fileName := fileName;
      editingIndex := None;
      editSopana := None;
      deletingIndex := None;
    }

    /** `handleEdit`. */
    method HandleEdit(index: int)
      requires 0 <= index < |sopanas|
      modifies this
      ensures State() == EditStep(old(State()), index)
      ensures deletingIndex == old(deletingIndex) && bookName == old(bookName) && fileName == old(fileName)
    {
      editingIndex := Some(index);
      editSopana := Some(sopanas[index]);
    }

    /** The editor's cancel button. */
    method CancelEdit()
      requires ValidEdit(State())
      modifies this
      ensures State() == CancelStep(old(State()))
      ensures deletingIndex == old(deletingIndex) && bookName == old(bookName) && fileName == old(fileName)
    {
      editingIndex := None;
    }

    /** `handleSaveEdit`: copy the rows, overwrite the edited one in the
        copy, and install the copy. Its button sits in the edited row, so the
        editor is on screen. */
    method HandleSaveEdit()
      requires ValidEdit(State()) && EditorShown(State())
      modifies this
      ensures State() == SaveEditStep(old(State()))
      ensures ValidEdit(State()) && EditorShown(State())
      ensures deletingIndex == old(deletingIndex) && bookName == old(bookName) && fileName == old(fileName)
    {
      if editingIndex.Some? && editSopana.Some? {
        var copy := new Sopana[|sopanas|](i requires 0 <= i < |sopanas| reads this => sopanas[i]);
        copy[editingIndex.value] := editSopana.value;
        sopanas := copy[..];
        editingIndex := None;
        editSopana := None;
      }
    }

    /** `handleRemove`, with the editor following its row. */
    method HandleRemove(index: int)
      requires ValidEdit(State())
      modifies this
      ensures State() == RemoveStep(old(State()), index)
      ensures ValidEdit(State())
      ensures old(EditorShown(State())) ==> EditorShown(State())
      ensures deletingIndex.None? && bookName == old(bookName) && fileName == old(fileName)
    {
      var e := editingIndex;
      sopanas := RemoveAt(sopanas, index);
      deletingIndex := None;
      if e.Some? {
        if e.value == index {
          editingIndex := None;
          editSopana := None;
        } else if 0 <= index < e.value {
          editingIndex := Some(e.value - 1);
        }
      }
    }

    /** `handleSaveToDatabase`, given whether the insert succeeded: an empty
        batch does nothing; otherwise the rows are sent and, on success, the
        table is cleared. The editor's index and draft are left as they
        were. */
    method HandleSaveToDatabase(insertSucceeds: bool) returns (sent: Option<seq<Row>>)
      requires ValidEdit(State())
      modifies this
      ensures ValidEdit(State())
      ensures old(sopanas) == [] ==> sent.None? && sopanas == []
      ensures old(sopanas) != [] ==> sent == Some(SaveRows(old(sopanas), bookName, old(fileName)))
      ensures old(sopanas) != [] ==>
        if insertSucceeds then sopanas == [] && fileName.None? else sopanas == old(sopanas) && fileName == old(fileName)
      ensures old(sopanas) == [] ==> fileName == old(fileName)
      ensures editingIndex == old(editingIndex) && editSopana == old(editSopana)
      ensures deletingIndex == old(deletingIndex) && bookName == old(bookName)
    {
      if |sopanas| == 0 {
        return None;
      }
      sent := Some(SaveRows(sopanas, bookName, fileName));
      if insertSucceeds {
        sopanas := [];
        fileName := None;
      }
    }
  }
}
