/** Small value types and sequence/string helpers shared by the components:
    JavaScript's `filter`, `split`, `trim`, `Math.round` and the ASCII case
    mappings, each defined once and specified by what it computes. */
module Common {

  datatype Option<T> = None | Some(value: T) {
    /** `x || d` / `x ?? d` for an optional value. */
    function GetOr(default: T): T {
      if Some? then value else default
    }
  }

  // ---------------------------------------------------------------------------
  // Sequences
  // ---------------------------------------------------------------------------

  /** `sub` is obtained from `s` by deleting elements, keeping the order. */
  predicate IsSubsequence<T(==)>(sub: seq<T>, s: seq<T>)
    decreases |s|
  {
    if sub == [] then true
    else if s == [] then false
    else if sub[0] == s[0] then IsSubsequence(sub[1..], s[1..])
    else IsSubsequence(sub, s[1..])
  }

  /** `Array.prototype.filter`. */
  function Filter<T>(s: seq<T>, p: T -> bool): (r: seq<T>)
    ensures |r| <= |s|
    ensures forall i :: 0 <= i < |r| ==> p(r[i])
    ensures forall i :: 0 <= i < |s| && p(s[i]) ==> s[i] in r
    ensures forall x :: x in r ==> x in s
  {
    if s == [] then [] else (if p(s[0]) then [s[0]] else []) + Filter(s[1..], p)
  }

  lemma {:induction false} FilterIsSubsequence<T>(s: seq<T>, p: T -> bool)
    ensures IsSubsequence(Filter(s, p), s)
  {
    if s != [] {
      FilterIsSubsequence(s[1..], p);
      if p(s[0]) {
        assert Filter(s, p) == [s[0]] + Filter(s[1..], p);
        assert Filter(s, p)[1..] == Filter(s[1..], p);
      } else {
        assert Filter(s, p) == Filter(s[1..], p);
        SkipHead(Filter(s, p), s);
      }
    }
  }

  /** Dropping the head of the longer sequence keeps a subsequence a subsequence. */
  lemma {:induction false} SkipHead<T>(sub: seq<T>, s: seq<T>)
    requires s != [] && IsSubsequence(sub, s[1..])
    ensures IsSubsequence(sub, s)
    decreases |s|, 0
  {
    if sub != [] && sub[0] == s[0] {
      SubsequenceTail(sub, s[1..]);
    }
  }

  lemma {:induction false} SubsequenceTail<T>(sub: seq<T>, s: seq<T>)
    requires sub != [] && IsSubsequence(sub, s)
    ensures IsSubsequence(sub[1..], s)
    decreases |s|, 1
  {
    if sub[0] == s[0] {
      if sub[1..] != [] {
        SkipHead(sub[1..], s);
      }
    } else {
      SubsequenceTail(sub, s[1..]);
      if sub[1..] != [] {
        SkipHead(sub[1..], s);
      }
    }
  }

  /** Filtering twice with the same predicate is filtering once. */
  lemma {:induction false} FilterIdempotent<T>(s: seq<T>, p: T -> bool)
    ensures Filter(Filter(s, p), p) == Filter(s, p)
  {
    if s != [] {
      FilterIdempotent(s[1..], p);
      if p(s[0]) {
        assert Filter(s, p) == [s[0]] + Filter(s[1..], p);
        assert Filter(s, p)[1..] == Filter(s[1..], p);
      } else {
        assert Filter(s, p) == Filter(s[1..], p);
      }
    }
  }

  /** Filtering a longer sequence extends the earlier result. */
  lemma {:induction false} FilterAppend<T>(s: seq<T>, x: T, p: T -> bool)
    ensures Filter(s + [x], p) == Filter(s, p) + (if p(x) then [x] else [])
  {
    if s != [] {
      assert (s + [x])[1..] == s[1..] + [x];
      FilterAppend(s[1..], x, p);
    }
  }

  /** A predicate that holds everywhere keeps the whole sequence. */
  lemma {:induction false} FilterKeepsAll<T>(s: seq<T>, p: T -> bool)
    requires forall i :: 0 <= i < |s| ==> p(s[i])
    ensures Filter(s, p) == s
  {
    if s != [] {
      FilterKeepsAll(s[1..], p);
    }
  }

  /** `Array.prototype.find`: the first element satisfying `p`, if any. */
  function Find<T>(s: seq<T>, p: T -> bool): (r: Option<T>)
    ensures r.None? <==> forall i :: 0 <= i < |s| ==> !p(s[i])
    ensures r.Some? ==> exists i :: (0 <= i < |s| && s[i] == r.value && p(s[i]) &&
      forall j :: 0 <= j < i ==> !p(s[j]))
  {
    if s == [] then None
    else if p(s[0]) then Some(s[0])
    else
      var r := Find(s[1..], p);
      assert r.Some? ==> exists i :: (1 <= i < |s| && s[i] == r.value && p(s[i]) &&
        forall j :: 1 <= j < i ==> !p(s[j])) by {
        if r.Some? {
          var i :| 0 <= i < |s[1..]| && s[1..][i] == r.value && p(s[1..][i]) &&
            forall j :: 0 <= j < i ==> !p(s[1..][j]);
          assert forall j :: 1 <= j < i + 1 ==> s[j] == s[1..][j - 1];
        }
      }
      r
  }

  /** `s.filter((_, i) => i !== idx)`: drops the element at `idx`, if any. */
  function RemoveAt<T>(s: seq<T>, idx: int): (r: seq<T>)
    ensures r == if 0 <= idx < |s| then s[..idx] + s[idx + 1..] else s
  {
    if s == [] then []
    else (if idx == 0 then [] else [s[0]]) + RemoveAt(s[1..], idx - 1)
  }

  /** Number of elements of `s` satisfying `p`. */
  function Count<T>(s: seq<T>, p: T -> bool): nat
  {
    if s == [] then 0 else (if p(s[0]) then 1 else 0) + Count(s[1..], p)
  }

  lemma {:induction false} FilterLength<T>(s: seq<T>, p: T -> bool)
    ensures |Filter(s, p)| == Count(s, p)
  {
    if s != [] {
      FilterLength(s[1..], p);
    }
  }

  // ---------------------------------------------------------------------------
  // Strings
  // ---------------------------------------------------------------------------

  /** The longest prefix of `s` without a character of `stops`. */
  function TakeUntil(s: string, stops: set<char>): (r: string)
    ensures r <= s
    ensures forall i :: 0 <= i < |r| ==> r[i] !in stops
    ensures |r| < |s| ==> s[|r|] in stops
  {
    if s == [] || s[0] in stops then [] else [s[0]] + TakeUntil(s[1..], stops)
  }

  /** `s.split(sep)` where `sep` matches any one character of `seps`
      (a string separator of length one, or a character-class regex). */
  function Split(s: string, seps: set<char>): (parts: seq<string>)
    ensures |parts| >= 1
    ensures parts[0] == TakeUntil(s, seps)
    ensures forall k :: 0 <= k < |parts| ==> NoneOf(parts[k], seps)
    decreases |s|
  {
    var head := TakeUntil(s, seps);
    if |head| == |s| then [s] else [head] + Split(s[|head| + 1..], seps)
  }

  predicate NoneOf(s: string, cs: set<char>)
  {
    forall i :: 0 <= i < |s| ==> s[i] !in cs
  }

  /** `parts.join(sep)`. */
  function Join(parts: seq<string>, sep: char): string
  {
    if parts == [] then ""
    else if |parts| == 1 then parts[0]
    else parts[0] + [sep] + Join(parts[1..], sep)
  }

  /** Splitting on one character and joining with it gives back the string. */
  lemma {:induction false} JoinSplit(s: string, sep: char)
    ensures Join(Split(s, {sep}), sep) == s
    decreases |s|
  {
    var head := TakeUntil(s, {sep});
    if |head| < |s| {
      var rest := s[|head| + 1..];
      var tail := Split(rest, {sep});
      JoinSplit(rest, sep);
      assert Split(s, {sep}) == [head] + tail;
      assert ([head] + tail)[1..] == tail;
      assert Join([head] + tail, sep) == head + [sep] + Join(tail, sep);
      assert s == head + [sep] + rest by {
        assert s[..|head|] == head;
        assert s == s[..|head|] + [s[|head|]] + rest;
      }
    }
  }

  /** A string free of the separator splits into itself. */
  lemma SplitNoSeparator(s: string, seps: set<char>)
    requires NoneOf(s, seps)
    ensures Split(s, seps) == [s]
  {
    assert |TakeUntil(s, seps)| == |s|;
  }

  /** The first separator ends the first part and the rest is split on its own. */
  lemma {:induction false} SplitAtSeparator(a: string, c: char, b: string, seps: set<char>)
    requires NoneOf(a, seps) && c in seps
    ensures Split(a + [c] + b, seps) == [a] + Split(b, seps)
  {
    var s := a + [c] + b;
    TakeUntilFree(a, c, b, seps);
    assert s[|a| + 1..] == b;
  }

  lemma {:induction false} TakeUntilFree(a: string, c: char, b: string, seps: set<char>)
    requires NoneOf(a, seps) && c in seps
    ensures TakeUntil(a + [c] + b, seps) == a
  {
    if a != [] {
      TakeUntilFree(a[1..], c, b, seps);
      assert (a + [c] + b)[1..] == a[1..] + [c] + b;
    }
  }

  /** Splitting adds no character: when `s` avoids `bad`, so does every part. */
  lemma {:induction false} SplitKeepsNoneOf(s: string, seps: set<char>, bad: set<char>)
    requires NoneOf(s, bad)
    ensures forall k :: 0 <= k < |Split(s, seps)| ==> NoneOf(Split(s, seps)[k], bad)
    decreases |s|
  {
    var head := TakeUntil(s, seps);
    if |head| < |s| {
      var rest := s[|head| + 1..];
      SplitKeepsNoneOf(rest, seps, bad);
      assert Split(s, seps) == [head] + Split(rest, seps);
    }
  }

  /** Joining adds only the separator. */
  lemma {:induction false} JoinKeepsNoneOf(parts: seq<string>, sep: char, bad: set<char>)
    requires forall k :: 0 <= k < |parts| ==> NoneOf(parts[k], bad)
    requires sep !in bad
    ensures NoneOf(Join(parts, sep), bad)
  {
    if |parts| > 1 {
      JoinKeepsNoneOf(parts[1..], sep, bad);
      var j := parts[0] + [sep] + Join(parts[1..], sep);
      forall i | 0 <= i < |j| ensures j[i] !in bad {
        if i < |parts[0]| {
          assert j[i] == parts[0][i];
        } else if i > |parts[0]| {
          assert j[i] == Join(parts[1..], sep)[i - |parts[0]| - 1];
        }
      }
    }
  }

  // JavaScript's WhiteSpace and LineTerminator characters, the set that
  // `String.prototype.trim` removes.
  predicate IsWhitespace(c: char)
  {
    c == '\t' || c == '\n' || c == '\U{000B}' || c == '\U{000C}' || c == '\r' || c == ' '
    || c == '\U{00A0}' || c == '\U{1680}' || ('\U{2000}' <= c <= '\U{200A}')
    || c == '\U{2028}' || c == '\U{2029}' || c == '\U{202F}' || c == '\U{205F}'
    || c == '\U{3000}' || c == '\U{FEFF}'
  }

  predicate IsBlank(s: string)
  {
    forall i :: 0 <= i < |s| ==> IsWhitespace(s[i])
  }

  /** How many whitespace characters `trim` cuts off the front. */
  function LeadingBlanks(s: string): (n: nat)
    ensures n <= |s|
    ensures forall i :: 0 <= i < n ==> IsWhitespace(s[i])
    ensures n < |s| ==> !IsWhitespace(s[n])
  {
    if s == [] || !IsWhitespace(s[0]) then 0 else 1 + LeadingBlanks(s[1..])
  }

  /** Where the text of `s[lo..]` ends once trailing whitespace is cut off,
      searching down from `hi`. */
  function TextEnd(s: string, lo: nat, hi: nat): (e: nat)
    requires lo <= hi <= |s|
    requires forall i :: hi <= i < |s| ==> IsWhitespace(s[i])
    ensures lo <= e <= hi
    ensures forall i :: e <= i < |s| ==> IsWhitespace(s[i])
    ensures e > lo ==> !IsWhitespace(s[e - 1])
    decreases hi
  {
    if hi > lo && IsWhitespace(s[hi - 1]) then TextEnd(s, lo, hi - 1) else hi
  }

  /** `String.prototype.trim`: the slice of `s` left once the whitespace at
      either end is cut off, with no whitespace at either end. */
  function Trim(s: string): (r: string)
    ensures LeadingBlanks(s) + |r| <= |s|
    ensures r == s[LeadingBlanks(s)..LeadingBlanks(s) + |r|]
    ensures r != [] ==> !IsWhitespace(r[0]) && !IsWhitespace(r[|r| - 1])
  {
    var lo := LeadingBlanks(s);
    s[lo..TextEnd(s, lo, |s|)]
  }

  /** What `trim` cuts off at either end is whitespace. */
  lemma TrimCutsBlanks(s: string)
    ensures IsBlank(s[..LeadingBlanks(s)])
    ensures IsBlank(s[LeadingBlanks(s) + |Trim(s)|..])
  {
  }

  /** Trimming adds no character. */
  lemma TrimKeepsNoneOf(s: string, bad: set<char>)
    requires NoneOf(s, bad)
    ensures NoneOf(Trim(s), bad)
  {
    var r := Trim(s);
    var lo := LeadingBlanks(s);
    forall i | 0 <= i < |r| ensures r[i] !in bad {
      assert r[i] == s[lo + i];
    }
  }

  /** A string without whitespace at its ends is its own trim. */
  lemma TrimUnchanged(s: string)
    requires s != [] && !IsWhitespace(s[0]) && !IsWhitespace(s[|s| - 1])
    ensures Trim(s) == s
  {
  }

  /** `!s.trim()`: the string is empty once trimmed exactly when it is blank. */
  lemma TrimEmptyIffBlank(s: string)
    ensures Trim(s) == "" <==> IsBlank(s)
  {
    var r := Trim(s);
    var lo := LeadingBlanks(s);
    TrimCutsBlanks(s);
    if r == "" {
      forall i | 0 <= i < |s| ensures IsWhitespace(s[i]) {
        assert s == s[..lo] + s[lo..];
        assert s[i] == (s[..lo] + s[lo..])[i];
      }
    } else {
      assert s[lo] == r[0];
    }
  }

  predicate IsUpperAscii(c: char) { 'A' <= c <= 'Z' }
  predicate IsLowerAscii(c: char) { 'a' <= c <= 'z' }

  /** `toLowerCase` on one character, for the ASCII letters. */
  function ToLowerChar(c: char): (r: char)
    ensures !IsUpperAscii(r)
    ensures IsUpperAscii(c) ==> r as int == c as int + 32
    ensures !IsUpperAscii(c) ==> r == c
  {
    if IsUpperAscii(c) then (c as int + 32) as char else c
  }

  /** `toUpperCase` on one character, for the ASCII letters. */
  function ToUpperChar(c: char): (r: char)
    ensures !IsLowerAscii(r)
    ensures IsLowerAscii(c) ==> r as int == c as int - 32
    ensures !IsLowerAscii(c) ==> r == c
  {
    if IsLowerAscii(c) then (c as int - 32) as char else c
  }

  function ToLower(s: string): (r: string)
    ensures |r| == |s|
    ensures forall i :: 0 <= i < |s| ==> r[i] == ToLowerChar(s[i])
  {
    if s == [] then [] else [ToLowerChar(s[0])] + ToLower(s[1..])
  }

  /** The decimal digit character for `n`. */
  function Digit(n: int): (c: char)
    requires 0 <= n < 10
    ensures '0' <= c <= '9'
  {
    (('0' as int) + n) as char
  }

  /** `String(n)` for a non-negative integer: its decimal digits. */
  function NatToString(n: nat): (s: string)
    ensures s != [] && forall i :: 0 <= i < |s| ==> '0' <= s[i] <= '9'
  {
    if n < 10 then [Digit(n)] else NatToString(n / 10) + [Digit(n % 10)]
  }

  /** `s.includes(t)`. */
  predicate Contains(s: string, t: string)
  {
    exists i :: 0 <= i <= |s| - |t| && OccursAt(s, t, i)
  }

  predicate OccursAt(s: string, t: string, i: int)
  {
    0 <= i <= |s| - |t| && s[i..i + |t|] == t
  }

  /** Every string includes the empty string. */
  lemma ContainsEmpty(s: string)
    ensures Contains(s, "")
  {
    assert OccursAt(s, "", 0);
  }

  // ---------------------------------------------------------------------------
  // Numbers
  // ---------------------------------------------------------------------------

  /** `Math.round(num / den)` computed exactly: the nearest integer, halves
      rounded up. */
  function RoundDiv(num: int, den: int): (r: int)
    requires den > 0
    ensures den * (2 * r - 1) <= 2 * num < den * (2 * r + 1)
  {
    (2 * num + den) / (2 * den)
  }

  /** Some element of a non-empty set. */
  lemma Pick<T>(s: set<T>) returns (x: T)
    requires s != {}
    ensures x in s
  {
    x :| x in s;
  }

  /** `Math.floor(streak / 7) + 1`: the level badge shown beside a streak,
      one more for every full week. */
  function LevelBadge(streak: int): (r: int)
    ensures 7 * (r - 1) <= streak < 7 * r
  {
    streak / 7 + 1
  }
}
