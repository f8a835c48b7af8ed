/** The 30-day reward card: progress towards the goal, the unlock, the days
    still needed, the level badge, and the one-time celebration. */
module StreakTracker {
  import opened Common

  const Goal := 30

  /** `min(streak / GOAL * 100, 100)`. */
  function Progress(currentStreak: int): (p: real)
    ensures p <= 100.0
    ensures p == 100.0 <==> currentStreak >= Goal
    ensures 0 <= currentStreak < Goal ==> 0.0 <= p < 100.0
    ensures currentStreak < Goal ==> p * (Goal as real) == currentStreak as real * 100.0
  {
    var x := (currentStreak as real / Goal as real) * 100.0;
    if x < 100.0 then x else 100.0
  }

  /** Progress grows with the streak. */
  lemma ProgressMonotone(s: int, t: int)
    requires s <= t
    ensures Progress(s) <= Progress(t)
  {
  }

  predicate IsUnlocked(currentStreak: int)
  {
    currentStreak >= Goal
  }

  /** The "only N more days" figure, shown while the reward is locked. */
  function RemainingDays(currentStreak: int): (n: Option<int>)
    ensures n.Some? <==> !IsUnlocked(currentStreak)
    ensures n.Some? ==> n.value >= 1 && currentStreak + n.value == Goal
  {
    if IsUnlocked(currentStreak) then None else Some(Goal - currentStreak)
  }

  /** The badge moves up by one every seven days. */
  lemma BadgeSteps(streak: nat)
    ensures LevelBadge(0) == 1 && LevelBadge(6) == 1 && LevelBadge(7) == 2
    ensures LevelBadge(streak + 7) == LevelBadge(streak) + 1
    ensures LevelBadge(streak) <= LevelBadge(streak + 1) <= LevelBadge(streak) + 1
  {
  }

  /** The card's one piece of state: whether the celebration has run. */
  class RewardCard {
    var showCelebration: bool

    constructor()
      ensures !showCelebration
    {
      showCelebration := false;
    }

    /** The effect run when the unlock flag changes: the first time the card
        sees the reward unlocked it fires the confetti (the result) and
        remembers it; later runs fire nothing. */
    method OnUnlockChange(currentStreak: int) returns (celebrate: bool)
      modifies this
      ensures celebrate <==> IsUnlocked(currentStreak) && !old(showCelebration)
      ensures showCelebration <==> old(showCelebration) || IsUnlocked(currentStreak)
    {
      celebrate := false;
      if IsUnlocked(currentStreak) && !showCelebration {
        celebrate := true;
        showCelebration := true;
      }
    }
  }
}
