/** The course journey map: each lesson ("sopana") is completed, the current
    one, or locked, and only unlocked nodes open their lesson. */
module JourneyMap {
  import opened Common
  import opened Types

  /** A progress row: which lesson it is about and its status text. */
  datatype SopanaProgress = SopanaProgress(sopanaId: string, status: string)

  datatype NodeStatus = Completed | Current | Locked

  /** The first progress row about lesson `id`. */
  function ProgressFor(progress: seq<SopanaProgress>, id: string): (r: Option<SopanaProgress>)
    ensures r.Some? ==> r.value in progress && r.value.sopanaId == id
    ensures r.None? <==> forall p :: p in progress ==> p.sopanaId != id
  {
    Find(progress, (p: SopanaProgress) => p.sopanaId == id)
  }

  /** A lesson counts as completed when its first progress row says so. */
  predicate IsCompleted(progress: seq<SopanaProgress>, id: string)
  {
    var p := ProgressFor(progress, id);
    p.Some? && p.value.status == "completed"
  }

  /** `getStatus` for the lesson at `index` of the course. */
  function GetStatus(sopanas: seq<Sopana>, index: nat, progress: seq<SopanaProgress>): (r: NodeStatus)
    requires index < |sopanas|
    ensures r == Completed <==> IsCompleted(progress, sopanas[index].id)
    ensures r == Current <==>
      !IsCompleted(progress, sopanas[index].id) &&
      (index == 0 || IsCompleted(progress, sopanas[index - 1].id))
  {
    if IsCompleted(progress, sopanas[index].id) then Completed
    else if index == 0 then Current
    else if IsCompleted(progress, sopanas[index - 1].id) then Current
    else Locked
  }

  /** Clicking a node opens its lesson unless the node is locked. */
  function NodeClick(sopanas: seq<Sopana>, index: nat, progress: seq<SopanaProgress>): (chosen: Option<Sopana>)
    requires index < |sopanas|
    ensures chosen.Some? <==> GetStatus(sopanas, index, progress) != Locked
    ensures chosen.Some? ==> chosen.value == sopanas[index]
  {
    if GetStatus(sopanas, index, progress) != Locked then Some(sopanas[index]) else None
  }

  /** The first lesson is never locked. */
  lemma FirstNeverLocked(sopanas: seq<Sopana>, progress: seq<SopanaProgress>)
    requires |sopanas| > 0
    ensures GetStatus(sopanas, 0, progress) != Locked
    ensures NodeClick(sopanas, 0, progress) == Some(sopanas[0])
  {
  }

  /** A lesson is locked exactly when neither it nor the lesson before it is
      completed. */
  lemma LockedIffPreviousIncomplete(sopanas: seq<Sopana>, index: nat, progress: seq<SopanaProgress>)
    requires 0 < index < |sopanas|
    ensures GetStatus(sopanas, index, progress) == Locked <==>
      !IsCompleted(progress, sopanas[index].id) && !IsCompleted(progress, sopanas[index - 1].id)
  {
  }

  /** When the completed lessons are exactly the first `k`, the map shows
      them completed, lesson `k` current and every later lesson locked: the
      learner can open lessons `0..k` and nothing beyond. */
  lemma PrefixProgressShape(sopanas: seq<Sopana>, progress: seq<SopanaProgress>, k: nat)
    requires forall j :: 0 <= j < |sopanas| ==> (IsCompleted(progress, sopanas[j].id) <==> j < k)
    ensures forall i :: 0 <= i < |sopanas| ==>
      GetStatus(sopanas, i, progress) ==
        (if i < k then Completed else if i == k then Current else Locked)
    ensures forall i :: 0 <= i < |sopanas| ==> (NodeClick(sopanas, i, progress).Some? <==> i <= k)
  {
    forall i | 0 <= i < |sopanas|
      ensures GetStatus(sopanas, i, progress) ==
        (if i < k then Completed else if i == k then Current else Locked)
    {
      if i > 0 {
        assert IsCompleted(progress, sopanas[i - 1].id) <==> i - 1 < k;
      }
    }
  }

  /** With no progress rows, only the first lesson is open. */
  lemma NoProgressOnlyFirstOpen(sopanas: seq<Sopana>, i: nat)
    requires i < |sopanas|
    ensures GetStatus(sopanas, i, []) == (if i == 0 then Current else Locked)
  {
  }

  /** Only the first row about a lesson is read: a later "completed" row
      does not override an earlier one. */
  lemma FirstRowWins(sopanas: seq<Sopana>, index: nat, rest: seq<SopanaProgress>)
    requires index < |sopanas|
    ensures var progress := [SopanaProgress(sopanas[index].id, "in_progress")] + rest;
      GetStatus(sopanas, index, progress) != Completed
  {
  }
}
