/** The festival publishing form: seva tasks are added to and removed from a
    draft list, and after the festival is published every field is reset. */
module FestivalManager {
  import opened Common

  /** A task on the draft list: its description and its point value. */
  datatype FormTask = FormTask(desc: string, points: int)

  /** The fasting kinds the form offers. */
  datatype FastType = NoFast | Partial | Grains | Waterless

  /** The row sent for each task once the festival exists. */
  datatype TaskRow = TaskRow(festivalId: string, taskDescription: string, pointValue: int)

  /** The points a new task starts with. */
  const DefaultPoints := 10

  /** The task list after adding: unchanged for a blank description, else
      one more task at the end. */
  function TasksAfterAdd(tasks: seq<FormTask>, desc: string, points: int): (r: seq<FormTask>)
    ensures IsBlank(desc) ==> r == tasks
    ensures !IsBlank(desc) ==> |r| == |tasks| + 1 && r[..|tasks|] == tasks && r[|tasks|] == FormTask(desc, points)
  {
    TrimEmptyIffBlank(desc);
    if Trim(desc) == "" then tasks else tasks + [FormTask(desc, points)]
  }

  /** Removing the task just added gives the list back. */
  lemma RemoveUndoesAdd(tasks: seq<FormTask>, desc: string, points: int)
    requires !IsBlank(desc)
    ensures RemoveAt(TasksAfterAdd(tasks, desc, points), |tasks|) == tasks
  {
    var r := TasksAfterAdd(tasks, desc, points);
    assert r[..|tasks|] == tasks;
  }

  /** Removing keeps every other task, in order, and shortens the list by
      one exactly when the index names a task. */
  lemma RemoveKeepsOthers(tasks: seq<FormTask>, index: int)
    ensures var r := RemoveAt(tasks, index);
      (0 <= index < |tasks| ==> (|r| == |tasks| - 1 &&
        (forall i :: 0 <= i < index ==> r[i] == tasks[i]) &&
        (forall i :: index < i < |tasks| ==> r[i - 1] == tasks[i]))) &&
      (!(0 <= index < |tasks|) ==> r == tasks)
  {
  }

  /** The rows inserted for the tasks of a published festival. */
  function TaskRows(festivalId: string, tasks: seq<FormTask>): (rows: seq<TaskRow>)
    ensures |rows| == |tasks|
    ensures forall i :: 0 <= i < |rows| ==>
      rows[i] == TaskRow(festivalId, tasks[i].desc, tasks[i].points)
  {
    if tasks == [] then []
    else [TaskRow(festivalId, tasks[0].desc, tasks[0].points)] + TaskRows(festivalId, tasks[1..])
  }

  class Form {
    var showForm: bool
    var name: string
    var date: string
    var description: string
    var significance: string
    var fastType: FastType
    var tasks: seq<FormTask>
    var newTaskDesc: string
    var newTaskPoints: int

    /** The form fields as they are before anything is entered. */
    predicate IsReset()
      reads this
    {
      name == "" && date == "" && description == "" && significance == "" &&
      fastType == NoFast && tasks == []
    }

    constructor()
      ensures IsReset() && !showForm
      ensures newTaskDesc == "" && newTaskPoints == DefaultPoints
    {
      showForm := false;
      name := "";
      date := "";
      description := "";
      significance := "";
      fastType := NoFast;
      tasks := [];
      newTaskDesc := "";
      newTaskPoints := DefaultPoints;
    }

    /** `handleAddTaskToForm`: a blank description changes nothing;
        otherwise the task is appended and the task inputs are reset. */
    method AddTask()
      modifies this
      ensures tasks == TasksAfterAdd(old(tasks), old(newTaskDesc), old(newTaskPoints))
      ensures IsBlank(old(newTaskDesc)) ==>
        newTaskDesc == old(newTaskDesc) && newTaskPoints == old(newTaskPoints)
      ensures !IsBlank(old(newTaskDesc)) ==> newTaskDesc == "" && newTaskPoints == DefaultPoints
      ensures showForm == old(showForm) && name == old(name) && date == old(date)
      ensures description == old(description) && significance == old(significance)
      ensures fastType == old(fastType)
    {
      TrimEmptyIffBlank(newTaskDesc);
      if Trim(newTaskDesc) == "" {
        return;
      }
      tasks := tasks + [FormTask(newTaskDesc, newTaskPoints)];
      newTaskDesc := "";
      newTaskPoints := DefaultPoints;
    }

    /** `handleRemoveTaskFromForm`. */
    method RemoveTask(index: int)
      modifies this
      ensures tasks == RemoveAt(old(tasks), index)
      ensures newTaskDesc == old(newTaskDesc) && newTaskPoints == old(newTaskPoints)
      ensures showForm == old(showForm) && name == old(name) && date == old(date)
      ensures description == old(description) && significance == old(significance)
      ensures fastType == old(fastType)
    {
      tasks := RemoveAt(tasks, index);
    }

    /** `handleSubmit`, given the id the created festival receives (none
        when creation fails) and whether every task insert succeeds: the
        task rows are sent when the festival exists, and the form closes and
        every field is reset only when the festival was created and its
        tasks, if any, were all saved. A failure anywhere leaves the form as
        it was. The task inputs are not reset by a publish. */
    method Submit(createdId: Option<string>, tasksSaved: bool) returns (sent: seq<TaskRow>)
      modifies this
      ensures createdId.Some? ==> sent == TaskRows(createdId.value, old(tasks))
      ensures createdId.None? ==> sent == []
      ensures createdId.Some? && (old(tasks) == [] || tasksSaved) ==> IsReset() && !showForm
      ensures createdId.None? || (old(tasks) != [] && !tasksSaved) ==>
        showForm == old(showForm) && name == old(name) && date == old(date) &&
        description == old(description) && significance == old(significance) &&
        fastType == old(fastType) && tasks == old(tasks)
      ensures newTaskDesc == old(newTaskDesc) && newTaskPoints == old(newTaskPoints)
    {
      if createdId.None? {
        return [];
      }
      sent := if |tasks| > 0 then TaskRows(createdId.value, tasks) else [];
      if |tasks| > 0 && !tasksSaved {
        return;
      }
      showForm := false;
      name := "";
      date := "";
      description := "";
      significance := "";
      fastType := NoFast;
      tasks := [];
    }
  }
}
