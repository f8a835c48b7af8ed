/** The festival proximity check: which festivals fall today or in the
    next two days. */
module FestivalService {
  import opened Common
  import opened Types

  /** A festival is near when it is 0, 1 or 2 calendar days from today. */
  predicate IsNear(f: Festival, today: Day)
  {
    0 <= f.date - today <= 2
  }

  /** `checkUpcomingEvents`, with the current day passed in. */
  function CheckUpcomingEvents(festivals: seq<Festival>, today: Day): (near: seq<Festival>)
    ensures forall f :: f in near <==> f in festivals && IsNear(f, today)
  {
    Filter(festivals, f => IsNear(f, today))
  }

  /** The near festivals keep the order of the input: the result is a
      subsequence of it. */
  lemma UpcomingIsSubsequence(festivals: seq<Festival>, today: Day)
    ensures IsSubsequence(CheckUpcomingEvents(festivals, today), festivals)
  {
    FilterIsSubsequence(festivals, f => IsNear(f, today));
  }

  /** Checking the near festivals again changes nothing. */
  lemma UpcomingIdempotent(festivals: seq<Festival>, today: Day)
    ensures CheckUpcomingEvents(CheckUpcomingEvents(festivals, today), today) ==
      CheckUpcomingEvents(festivals, today)
  {
    FilterIdempotent(festivals, f => IsNear(f, today));
  }

  /** Past festivals and festivals three or more days away are dropped. */
  lemma FarOrPastDropped(festivals: seq<Festival>, today: Day, f: Festival)
    requires f.date < today || f.date >= today + 3
    ensures f !in CheckUpcomingEvents(festivals, today)
  {
  }
}
