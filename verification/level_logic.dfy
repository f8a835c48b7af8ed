/** Level progression: a streak is placed on an ordered ladder of levels,
    with percent progress and days remaining towards the next rung, and a
    check that reports forward crossings only. The ladder is a parameter. */
module LevelLogic {
  import opened Common

  datatype Level = Level(id: int, title: string, minStreak: int)

  /** The level a user holds before reaching the first rung. */
  const Novice := Level(0, "Novice", 0)

  datatype LevelInfo = LevelInfo(
    currentLevel: Level,
    nextLevel: Option<Level>,
    progress: real,
    daysRemaining: int)

  /** Rungs listed by non-decreasing threshold. */
  predicate Sorted(table: seq<Level>)
  {
    forall i, j :: 0 <= i < j < |table| ==> table[i].minStreak <= table[j].minStreak
  }

  /** Rung ids rise along the ladder and start above the Novice id. */
  predicate IdsAscend(table: seq<Level>)
  {
    (forall i, j :: 0 <= i < j < |table| ==> table[i].id < table[j].id) &&
    (forall i :: 0 <= i < |table| ==> table[i].id > Novice.id)
  }

  /** How many leading rungs the scan accepts before its first rejection:
      the index at which `getCurrentLevelInfo`'s loop stops. */
  function Reached(streak: int, table: seq<Level>): (k: nat)
    ensures k <= |table|
    ensures forall i :: 0 <= i < k ==> table[i].minStreak <= streak
    ensures k < |table| ==> streak < table[k].minStreak
  {
    if table == [] || streak < table[0].minStreak then 0
    else
      var k := Reached(streak, table[1..]);
      assert forall i :: 1 <= i < 1 + k ==> table[i] == table[1..][i - 1];
      1 + k
  }

  /** The stopping index is fixed by the rungs before it and the rung at it. */
  lemma ReachedIs(streak: int, table: seq<Level>, k: nat)
    requires k <= |table|
    requires forall i :: 0 <= i < k ==> table[i].minStreak <= streak
    requires k < |table| ==> streak < table[k].minStreak
    ensures Reached(streak, table) == k
  {
  }

  /** Rungs that all qualify are all reached. */
  lemma {:induction false} ReachedAtLeast(streak: int, table: seq<Level>, m: nat)
    requires m <= |table|
    requires forall j :: 0 <= j < m ==> table[j].minStreak <= streak
    ensures m <= Reached(streak, table)
  {
    if m > 0 {
      ReachedAtLeast(streak, table[1..], m - 1);
    }
  }

  function CurrentLevel(streak: int, table: seq<Level>): Level
  {
    var k := Reached(streak, table);
    if k == 0 then Novice else table[k - 1]
  }

  function NextLevel(streak: int, table: seq<Level>): Option<Level>
  {
    var k := Reached(streak, table);
    if k < |table| then Some(table[k]) else None
  }

  /** `min(100, max(0, x))`. */
  function Clamp(x: real): (r: real)
    ensures 0.0 <= r <= 100.0
    ensures 0.0 <= x <= 100.0 ==> r == x
  {
    if x > 100.0 then 100.0 else if x < 0.0 then 0.0 else x
  }

  /** The value `getCurrentLevelInfo` returns. */
  function LevelInfoOf(streak: nat, table: seq<Level>): (info: LevelInfo)
    ensures info.currentLevel == CurrentLevel(streak, table)
    ensures info.nextLevel == NextLevel(streak, table)
    ensures 0.0 <= info.progress <= 100.0
    ensures info.nextLevel.None? ==> info.progress == 100.0 && info.daysRemaining == 0
    ensures info.nextLevel.Some? ==>
      info.daysRemaining == info.nextLevel.value.minStreak - streak >= 1
  {
    var current := CurrentLevel(streak, table);
    var next := NextLevel(streak, table);
    match next
    case None => LevelInfo(current, next, 100.0, 0)
    case Some(n) =>
      var range := n.minStreak - current.minStreak;
      var currentProgress := streak - current.minStreak;
      LevelInfo(current, next,
        Clamp((currentProgress as real / range as real) * 100.0),
        n.minStreak - streak)
  }

  /** Below the next rung, the unclamped ratio already lies in [0, 100). */
  lemma ProgressUnclamped(streak: nat, table: seq<Level>)
    requires NextLevel(streak, table).Some?
    ensures var c := CurrentLevel(streak, table);
      var n := NextLevel(streak, table).value;
      var x := ((streak - c.minStreak) as real / (n.minStreak - c.minStreak) as real) * 100.0;
      0.0 <= x < 100.0 && LevelInfoOf(streak, table).progress == x
  {
    var c := CurrentLevel(streak, table);
    var n := NextLevel(streak, table).value;
    var range := (n.minStreak - c.minStreak) as real;
    var done := (streak - c.minStreak) as real;
    assert 0.0 <= done < range;
    RatioBelowOne(done, range);
  }

  lemma RatioBelowOne(a: real, b: real)
    requires 0.0 <= a < b
    ensures 0.0 <= a / b < 1.0
  {
    var q := a / b;
    assert q * b == a;
    assert (1.0 - q) * b == b - a;
  }

  /** `getCurrentLevelInfo`: the scan over the ladder with its early exit. */
  method GetCurrentLevelInfo(streak: nat, table: seq<Level>) returns (info: LevelInfo)
    ensures info == LevelInfoOf(streak, table)
  {
    var currentLevel := Novice;
    var nextLevel: Option<Level> := if |table| > 0 then Some(table[0]) else None;
    var i := 0;
    while i < |table|
      invariant 0 <= i <= |table|
      invariant forall j :: 0 <= j < i ==> table[j].minStreak <= streak
      invariant currentLevel == if i == 0 then Novice else table[i - 1]
      invariant nextLevel == if i < |table| then Some(table[i]) else None
    {
      if streak >= table[i].minStreak {
        currentLevel := table[i];
        nextLevel := if i + 1 < |table| then Some(table[i + 1]) else None;
      } else {
        nextLevel := Some(table[i]);
        break;
      }
      i := i + 1;
    }
    ReachedIs(streak, table, i);

    var progress := 0.0;
    var daysRemaining := 0;
    if nextLevel.Some? {
      var range := nextLevel.value.minStreak - currentLevel.minStreak;
      var currentProgress := streak - currentLevel.minStreak;
      progress := Clamp((currentProgress as real / range as real) * 100.0);
      daysRemaining := nextLevel.value.minStreak - streak;
    } else {
      progress := 100.0;
      daysRemaining := 0;
    }
    info := LevelInfo(currentLevel, nextLevel, progress, daysRemaining);
  }

  /** When the streak meets no threshold the current level is Novice. */
  lemma NoRungIsNovice(streak: int, table: seq<Level>)
    requires forall i :: 0 <= i < |table| ==> streak < table[i].minStreak
    ensures CurrentLevel(streak, table) == Novice
    ensures NextLevel(streak, table) == if |table| == 0 then None else Some(table[0])
  {
  }

  /** On a sorted ladder the current level is the last rung whose threshold
      the streak meets. */
  lemma CurrentIsLastQualifying(streak: int, table: seq<Level>, i: int)
    requires Sorted(table)
    requires 0 <= i < |table| && table[i].minStreak <= streak
    requires forall j :: i < j < |table| ==> streak < table[j].minStreak
    ensures CurrentLevel(streak, table) == table[i]
  {
    forall j | 0 <= j < i + 1
      ensures table[j].minStreak <= streak
    {
      if j < i {
        assert table[j].minStreak <= table[i].minStreak;
      }
    }
    ReachedIs(streak, table, i + 1);
  }

  /** The next level is the first rung above the streak. */
  lemma NextIsFirstAbove(streak: int, table: seq<Level>, i: int)
    requires 0 <= i < |table| && streak < table[i].minStreak
    requires forall j :: 0 <= j < i ==> table[j].minStreak <= streak
    ensures NextLevel(streak, table) == Some(table[i])
  {
    ReachedIs(streak, table, i);
  }

  /** There is no next level exactly when every threshold is met. */
  lemma NoNextIffAllMet(streak: int, table: seq<Level>)
    ensures NextLevel(streak, table).None? <==>
      forall i :: 0 <= i < |table| ==> table[i].minStreak <= streak
  {
  }

  /** A longer streak never reaches fewer rungs. */
  lemma {:induction false} ReachedMonotone(s: int, t: int, table: seq<Level>)
    requires s <= t
    ensures Reached(s, table) <= Reached(t, table)
  {
    if table != [] && s >= table[0].minStreak {
      ReachedMonotone(s, t, table[1..]);
    }
  }

  /** With ids rising along the ladder, the current level's id only moves
      forward as the streak grows. */
  lemma LevelIdMonotone(s: int, t: int, table: seq<Level>)
    requires IdsAscend(table)
    requires s <= t
    ensures CurrentLevel(s, table).id <= CurrentLevel(t, table).id
  {
    ReachedMonotone(s, t, table);
  }

  /** `checkLevelUp`: the level reached by the new streak, when the streak
      grew and the level id rose. */
  function CheckLevelUp(oldStreak: int, newStreak: int, table: seq<Level>): (r: Option<Level>)
    ensures newStreak <= oldStreak ==> r.None?
    ensures r.Some? ==>
      r.value == CurrentLevel(newStreak, table) && r.value.id > CurrentLevel(oldStreak, table).id
    ensures newStreak > oldStreak && CurrentLevel(newStreak, table).id > CurrentLevel(oldStreak, table).id ==>
      r.Some?
  {
    if newStreak <= oldStreak then None
    else
      var newLevel := CurrentLevel(newStreak, table);
      var oldLevel := CurrentLevel(oldStreak, table);
      if newLevel.id > oldLevel.id then Some(newLevel) else None
  }

  /** On a sorted ladder with rising ids, a level-up is reported exactly
      when the streak grows past some rung's threshold, and the rung reported
      is the highest one reached, however many were crossed. */
  lemma LevelUpIffThresholdCrossed(oldStreak: int, newStreak: int, table: seq<Level>)
    requires Sorted(table) && IdsAscend(table)
    ensures CheckLevelUp(oldStreak, newStreak, table).Some? <==>
      exists i :: 0 <= i < |table| && oldStreak < table[i].minStreak <= newStreak
    ensures CheckLevelUp(oldStreak, newStreak, table).Some? ==>
      CheckLevelUp(oldStreak, newStreak, table).value == table[Reached(newStreak, table) - 1]
  {
    if exists i :: 0 <= i < |table| && oldStreak < table[i].minStreak <= newStreak {
      var i :| 0 <= i < |table| && oldStreak < table[i].minStreak <= newStreak;
      CrossingGivesLevelUp(oldStreak, newStreak, table, i);
    }
    if CheckLevelUp(oldStreak, newStreak, table).Some? {
      LevelUpCrossesRung(oldStreak, newStreak, table);
    }
  }

  /** A crossed threshold is reported as a level-up. */
  lemma CrossingGivesLevelUp(oldStreak: int, newStreak: int, table: seq<Level>, i: int)
    requires Sorted(table) && IdsAscend(table)
    requires 0 <= i < |table| && oldStreak < table[i].minStreak <= newStreak
    ensures CheckLevelUp(oldStreak, newStreak, table).Some?
  {
    var ko := Reached(oldStreak, table);
    var kn := Reached(newStreak, table);
    CrossingReachesMore(oldStreak, newStreak, table, i);
    if ko > 0 {
      assert table[ko - 1].id < table[kn - 1].id;
    }
  }

  /** A reported level-up is the rung the new streak reaches, and the first
      rung the old streak missed lies in (old, new]. */
  lemma LevelUpCrossesRung(oldStreak: int, newStreak: int, table: seq<Level>)
    requires IdsAscend(table)
    requires CheckLevelUp(oldStreak, newStreak, table).Some?
    ensures var ko := Reached(oldStreak, table);
      ko < |table| && oldStreak < table[ko].minStreak <= newStreak
    ensures Reached(newStreak, table) > 0
    ensures CheckLevelUp(oldStreak, newStreak, table).value == table[Reached(newStreak, table) - 1]
  {
    var ko := Reached(oldStreak, table);
    var kn := Reached(newStreak, table);
    ReachedMonotone(oldStreak, newStreak, table);
    assert ko != kn;
    assert kn > 0;
  }

  /** A rung whose threshold lies in (old, new] separates the rungs the two
      streaks reach. */
  lemma CrossingReachesMore(oldStreak: int, newStreak: int, table: seq<Level>, i: int)
    requires Sorted(table)
    requires 0 <= i < |table| && oldStreak < table[i].minStreak <= newStreak
    ensures Reached(oldStreak, table) <= i < Reached(newStreak, table)
  {
    ReachedAtLeast(newStreak, table, i + 1);
  }

  /** A ladder shaped like the one the in-file checks assume: Seeker at 7,
      the next rung at 15, the last rung at or below 65. */
  const ExampleLadder := [
    Level(1, "Seeker", 7),
    Level(2, "Sadhaka", 15),
    Level(3, "Bhakta", 30),
    Level(4, "Devoted Seeker", 60)]

  /** The in-file level checks: streak 5 is Novice, streak 7 is Seeker, and
      6 to 7 is a level-up to Seeker. */
  lemma ExampleLadderLevels()
    ensures LevelInfoOf(5, ExampleLadder).currentLevel == Novice
    ensures LevelInfoOf(7, ExampleLadder).currentLevel.title == "Seeker"
    ensures CheckLevelUp(6, 7, ExampleLadder) == Some(ExampleLadder[0])
  {
    ReachedIs(5, ExampleLadder, 0);
    ReachedIs(6, ExampleLadder, 0);
    ReachedIs(7, ExampleLadder, 1);
  }

  /** The in-file progress checks: streak 3 is 3/7 of the way to Seeker,
      streak 11 is halfway from 7 to 15, and streak 65 is past the last
      rung. */
  lemma ExampleLadderProgress()
    ensures LevelInfoOf(3, ExampleLadder).progress == 300.0 / 7.0
    ensures LevelInfoOf(11, ExampleLadder).progress == 50.0
    ensures LevelInfoOf(11, ExampleLadder).daysRemaining == 4
    ensures LevelInfoOf(65, ExampleLadder) ==
      LevelInfo(ExampleLadder[3], None, 100.0, 0)
  {
    ReachedIs(3, ExampleLadder, 0);
    ReachedIs(11, ExampleLadder, 1);
    ReachedIs(65, ExampleLadder, 4);
  }

  /** A ladder whose first rung starts at 0, so Novice is never shown. */
  const BaseLadder := [
    Level(1, "Seeker", 0),
    Level(2, "Devotee", 7),
    Level(3, "Sage", 30)]

  lemma BaseLadderChecks()
    ensures LevelInfoOf(3, BaseLadder).currentLevel.id == 1
    ensures LevelInfoOf(3, BaseLadder).nextLevel == Some(BaseLadder[1])
    ensures LevelInfoOf(3, BaseLadder).progress == 300.0 / 7.0
    ensures LevelInfoOf(3, BaseLadder).daysRemaining == 4
    ensures CheckLevelUp(6, 7, BaseLadder) == Some(BaseLadder[1])
    ensures CheckLevelUp(10, 5, BaseLadder) == None
  {
    ReachedIs(3, BaseLadder, 1);
    ReachedIs(6, BaseLadder, 1);
    ReachedIs(7, BaseLadder, 2);
  }
}
