/** The course completion percentage. */
module CourseService {
  import opened Common

  /** `calculateCompletion`: 0 for a course without lessons, else the
      completed share rounded to the nearest percent, halves up, and capped
      at 100. */
  function CalculateCompletion(totalSopanas: nat, completedCount: nat): (r: int)
    ensures totalSopanas == 0 ==> r == 0
    ensures 0 <= r <= 100
    ensures totalSopanas > 0 && r < 100 ==>
      totalSopanas * (2 * r - 1) <= 200 * completedCount < totalSopanas * (2 * r + 1)
    ensures totalSopanas > 0 && r == 100 ==> 199 * totalSopanas <= 200 * completedCount
  {
    if totalSopanas == 0 then 0
    else
      var pct := RoundDiv(100 * completedCount, totalSopanas);
      if pct < 100 then pct
      else
        MultiplyAtLeast(totalSopanas, 199, 2 * pct - 1);
        100
  }

  /** Multiplying by a positive factor keeps `<=`. */
  lemma MultiplyAtLeast(t: int, a: int, b: int)
    requires t > 0 && a <= b
    ensures t * a <= t * b
  {
    assert t * b - t * a == t * (b - a);
  }

  /** The percentage is fixed by its contract: two values that both meet
      it are equal. */
  lemma CompletionDetermined(total: nat, completed: nat, r: int)
    requires total > 0 && 0 <= r <= 100
    requires r < 100 ==> total * (2 * r - 1) <= 200 * completed < total * (2 * r + 1)
    requires r == 100 ==> 199 * total <= 200 * completed
    ensures r == CalculateCompletion(total, completed)
  {
    var c := CalculateCompletion(total, completed);
    if r < c {
      if c < 100 {
        CancelLess(total, 2 * r - 1, 2 * c + 1);
        CancelLess(total, 2 * c - 1, 2 * r + 1);
      } else {
        CancelLess(total, 199, 2 * r + 1);
      }
    } else if c < r {
      if r < 100 {
        CancelLess(total, 2 * c - 1, 2 * r + 1);
        CancelLess(total, 2 * r - 1, 2 * c + 1);
      } else {
        CancelLess(total, 199, 2 * c + 1);
      }
    }
  }

  /** Cancelling a positive factor on both sides of `<`. */
  lemma CancelLess(t: int, a: int, b: int)
    requires t > 0 && t * a < t * b
    ensures a < b
  {
    assert t * (b - a) > 0;
  }

  /** All lessons done gives exactly 100, and so does any count beyond. */
  lemma CompleteIsHundred(total: nat, completed: nat)
    requires total > 0 && completed >= total
    ensures CalculateCompletion(total, completed) == 100
  {
    var pct := RoundDiv(100 * completed, total);
    CancelLess(total, 200, 2 * pct + 1);
  }

  /** One more completed lesson never lowers the percentage. */
  lemma CompletionMonotone(total: nat, completed: nat)
    ensures CalculateCompletion(total, completed) <= CalculateCompletion(total, completed + 1)
  {
    if total > 0 {
      var a := RoundDiv(100 * completed, total);
      var b := RoundDiv(100 * (completed + 1), total);
      CancelLess(total, 2 * a - 1, 2 * b + 1);
    }
  }

  lemma CompletionExamples()
    ensures CalculateCompletion(0, 5) == 0
    ensures CalculateCompletion(8, 1) == 13
    ensures CalculateCompletion(3, 1) == 33
    ensures CalculateCompletion(3, 2) == 67
    ensures CalculateCompletion(4, 9) == 100
  {
  }
}
