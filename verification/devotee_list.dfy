/** The admin's devotee table: the search filter, the admin-role toggle and
    the level shown for each devotee. */
module DevoteeList {
  import opened Common
  import opened Types

  /** The search test: the lowercased term occurs in the lowercased name or
      in the lowercased email, when there is one. */
  predicate Matches(u: User, term: string)
  {
    var t := ToLower(term);
    Contains(ToLower(u.name), t) || (u.email.Some? && Contains(ToLower(u.email.value), t))
  }

  /** `filteredUsers`. */
  function FilterUsers(users: seq<User>, term: string): (r: seq<User>)
    ensures forall u :: u in r <==> u in users && Matches(u, term)
  {
    Filter(users, (u: User) => Matches(u, term))
  }

  /** The result keeps the table's order. */
  lemma FilterUsersIsSubsequence(users: seq<User>, term: string)
    ensures IsSubsequence(FilterUsers(users, term), users)
  {
    FilterIsSubsequence(users, (u: User) => Matches(u, term));
  }

  /** An empty search box shows everyone. */
  lemma EmptyTermKeepsAll(users: seq<User>)
    ensures FilterUsers(users, "") == users
  {
    forall i | 0 <= i < |users| ensures Matches(users[i], "") {
      ContainsEmpty(ToLower(users[i].name));
    }
    FilterKeepsAll(users, (u: User) => Matches(u, ""));
  }

  /** Searching for a devotee's full name, in any letter case, finds them. */
  lemma FullNameFound(users: seq<User>, u: User, term: string)
    requires u in users && ToLower(term) == ToLower(u.name)
    ensures u in FilterUsers(users, term)
  {
    assert OccursAt(ToLower(u.name), ToLower(term), 0);
  }

  /** The new role: an admin becomes a user, anyone else an admin. */
  function ToggleRole(currentRole: Option<string>): (r: string)
    ensures r == "user" <==> currentRole == Some("admin")
    ensures r == "admin" <==> currentRole != Some("admin")
  {
    if currentRole == Some("admin") then "user" else "admin"
  }

  /** The confirmation asks to revoke exactly when the toggle takes admin
      rights away. */
  function ConfirmVerb(currentRole: Option<string>): (verb: string)
    ensures verb == "revoke" <==> ToggleRole(currentRole) == "user"
    ensures verb == "grant" <==> ToggleRole(currentRole) == "admin"
  {
    if currentRole == Some("admin") then "revoke" else "grant"
  }

  /** Toggling twice restores the role of an admin or a user. */
  lemma ToggleTwice(role: string)
    requires role == "admin" || role == "user"
    ensures ToggleRole(Some(ToggleRole(Some(role)))) == role
  {
  }

  /** The level label: one more than the whole weeks in the longest streak,
      a missing longest streak counting as 0. */
  function DevoteeLevel(u: User): (lvl: int)
    ensures var longest := u.longestStreak.GetOr(0);
      7 * (lvl - 1) <= longest < 7 * lvl
  {
    LevelBadge(u.longestStreak.GetOr(0))
  }

  /** A devotee without a recorded longest streak, or one below a week, is
      level 1. */
  lemma NewDevoteeIsLevelOne(u: User)
    requires u.longestStreak.None? || 0 <= u.longestStreak.value < 7
    ensures DevoteeLevel(u) == 1
  {
  }
}
