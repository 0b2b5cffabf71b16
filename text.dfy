/** The few java.lang.String operations the catalogue relies on, over `seq<char>`. */
module Text {

  predicate StartsWith(s: string, prefix: string) {
    |prefix| <= |s| && s[..|prefix|] == prefix
  }

  predicate EndsWith(s: string, suffix: string) {
    |suffix| <= |s| && s[|s| - |suffix|..] == suffix
  }

  /** `t` occurs in `s` starting at position `i`. */
  predicate OccursAt(s: string, t: string, i: int) {
    0 <= i && i + |t| <= |s| && s[i..i + |t|] == t
  }

  /** `String.lastIndexOf(char)`: the position of the last `c` in `s`, or -1 when there is none. */
  function LastIndexOf(s: string, c: char): (r: int)
    ensures -1 <= r < |s|
    ensures r == -1 <==> c !in s
    ensures 0 <= r ==> s[r] == c && c !in s[r + 1..]
  {
    if s == [] then -1
    else if s[|s| - 1] == c then |s| - 1
    else
      var r := LastIndexOf(s[..|s| - 1], c);
      assert s == s[..|s| - 1] + [s[|s| - 1]];
      assert r >= 0 ==> s[r + 1..] == s[..|s| - 1][r + 1..] + [s[|s| - 1]];
      r
  }

  /** ASCII lower-casing of one character. */
  function LowerChar(c: char): char {
    if 'A' <= c <= 'Z' then (c as int - 'A' as int + 'a' as int) as char else c
  }

  /** `String.toLowerCase()`, restricted to the ASCII letters. */
  function ToLower(s: string): (r: string)
    ensures |r| == |s|
    ensures forall i :: 0 <= i < |s| ==> r[i] == LowerChar(s[i])
  {
    seq(|s|, i requires 0 <= i < |s| => LowerChar(s[i]))
  }

  lemma ToLowerAppend(a: string, b: string)
    ensures ToLower(a + b) == ToLower(a) + ToLower(b)
  {
  }

  /** Lower-casing twice changes nothing more than lower-casing once. */
  lemma ToLowerIdempotent(s: string)
    ensures ToLower(ToLower(s)) == ToLower(s)
  {
  }

  /** A suffix of `s` stays a suffix of any `p + s`. */
  lemma EndsWithAppend(p: string, s: string, suffix: string)
    requires EndsWith(s, suffix)
    ensures EndsWith(p + s, suffix)
  {
    assert (p + s)[|p + s| - |suffix|..] == s[|s| - |suffix|..];
  }

  /** A string ending in `suffix` ends in the same last two characters. */
  lemma EndsWithLastTwo(s: string, suffix: string)
    requires |suffix| >= 2 && EndsWith(s, suffix)
    ensures s[|s| - 1] == suffix[|suffix| - 1] && s[|s| - 2] == suffix[|suffix| - 2]
  {
    assert s[|s| - |suffix|..][|suffix| - 1] == s[|s| - 1];
    assert s[|s| - |suffix|..][|suffix| - 2] == s[|s| - 2];
  }

  /** A suffix that starts with a `.` cannot reach into a prefix that has none. */
  lemma EndsWithDotted(p: string, s: string, suffix: string)
    requires '.' !in p && |suffix| > 0 && suffix[0] == '.'
    ensures EndsWith(p + s, suffix) <==> EndsWith(s, suffix)
  {
    if |suffix| <= |s| {
      assert (p + s)[|p + s| - |suffix|..] == s[|s| - |suffix|..];
    }
  }

  /** Lower-casing creates no `.` that was not there. */
  lemma ToLowerKeepsDots(s: string)
    ensures '.' in ToLower(s) <==> '.' in s
  {
    if '.' in ToLower(s) {
      var i :| 0 <= i < |s| && ToLower(s)[i] == '.';
    }
    if '.' in s {
      var i :| 0 <= i < |s| && s[i] == '.';
      assert ToLower(s)[i] == '.';
    }
  }

  /**
   * `s.replace(t, "")`: every occurrence of `t` is removed, scanning from the left and
   * resuming after each removed occurrence. An empty `t` leaves `s` as it is.
   */
  function RemoveAll(s: string, t: string): (r: string)
    ensures |r| <= |s|
    ensures t == [] ==> r == s
    ensures (forall i :: !OccursAt(s, t, i)) ==> r == s
    ensures |t| > 0 && (exists i :: OccursAt(s, t, i)) ==> |r| <= |s| - |t|
    decreases |s|
  {
    if t == [] || |s| < |t| then s
    else if s[..|t|] == t then
      assert OccursAt(s, t, 0);
      RemoveAll(s[|t|..], t)
    else
      var rest := RemoveAll(s[1..], t);
      assert forall i :: OccursAt(s[1..], t, i) ==> OccursAt(s, t, i + 1) by {
        forall i | OccursAt(s[1..], t, i) ensures OccursAt(s, t, i + 1) {
          assert s[1..][i..i + |t|] == s[i + 1..i + 1 + |t|];
        }
      }
      assert (forall i :: !OccursAt(s, t, i)) ==> rest == s[1..];
      assert (exists i :: OccursAt(s, t, i)) ==> exists i :: OccursAt(s[1..], t, i) by {
        if exists i :: OccursAt(s, t, i) {
          var i :| OccursAt(s, t, i);
          assert i != 0;
          assert s[1..][i - 1..i - 1 + |t|] == s[i..i + |t|];
          assert OccursAt(s[1..], t, i - 1);
        }
      }
      [s[0]] + rest
  }

  /**
   * The scan from the left: everything before the leftmost occurrence of `t` is kept, that
   * occurrence is dropped, and the scan resumes on the text `u` right after it.
   */
  lemma {:induction false} RemoveAllLeftmost(s: string, t: string, i: int, u: string)
    requires |t| > 0 && OccursAt(s, t, i) && u == s[i + |t|..]
    requires forall k :: 0 <= k < i ==> !OccursAt(s, t, k)
    ensures RemoveAll(s, t) == s[..i] + RemoveAll(u, t)
    decreases i
  {
    if i == 0 {
      assert s[..|t|] == t;
    } else {
      assert !OccursAt(s, t, 0);
      RemoveAllSkip(s, t);
      forall k | 0 <= k < i - 1 ensures !OccursAt(s[1..], t, k) {
        OccursShift(s, t, k);
      }
      OccursShift(s, t, i - 1);
      assert s[1..][i - 1 + |t|..] == u;
      RemoveAllLeftmost(s[1..], t, i - 1, u);
      JoinFront(s, i, RemoveAll(u, t));
    }
  }

  /** Re-associating the kept prefix: the first character and the rest of the prefix. */
  lemma JoinFront(s: string, i: int, x: string)
    requires 0 < i <= |s|
    ensures [s[0]] + (s[1..][..i - 1] + x) == s[..i] + x
  {
    assert [s[0]] + s[1..][..i - 1] == s[..i];
  }

  /** Without an occurrence at the front, the first character is kept. */
  lemma RemoveAllSkip(s: string, t: string)
    requires |t| > 0 && |s| > 0 && !OccursAt(s, t, 0)
    ensures RemoveAll(s, t) == [s[0]] + RemoveAll(s[1..], t)
  {
  }

  /** An occurrence in the tail is an occurrence one position further in the whole. */
  lemma OccursShift(s: string, t: string, k: int)
    requires |s| > 0 && 0 <= k
    ensures OccursAt(s[1..], t, k) <==> OccursAt(s, t, k + 1)
  {
    if k + |t| <= |s[1..]| {
      assert s[1..][k..k + |t|] == s[k + 1..k + 1 + |t|];
    }
  }

  /**
   * When the removed text begins with a character that `base` does not contain,
   * `RemoveAll` strips exactly the trailing copy from `base + t`.
   */
  lemma {:induction false} RemoveAllTrailing(base: string, t: string)
    requires |t| > 0 && t[0] !in base
    ensures RemoveAll(base + t, t) == base
    decreases |base|
  {
    var s := base + t;
    if base == [] {
      assert s == t;
      assert s[|t|..] == [];
    } else {
      assert s[0] == base[0] != t[0];
      assert s[..|t|] != t;
      assert s[1..] == base[1..] + t;
      RemoveAllTrailing(base[1..], t);
      assert [base[0]] + base[1..] == base;
    }
  }

  function Digit(d: nat): (c: char)
    requires d < 10
    ensures '0' <= c <= '9' && c as int - '0' as int == d
  {
    ('0' as int + d) as char
  }

  /** The number a string of decimal digits denotes. */
  function DigitsValue(s: string): int {
    if s == [] then 0 else DigitsValue(s[..|s| - 1]) * 10 + (s[|s| - 1] as int - '0' as int)
  }

  /** Java's decimal rendering of a non-negative `int` in string concatenation. */
  function NatToString(n: nat): (s: string)
    ensures |s| >= 1
    ensures forall i :: 0 <= i < |s| ==> '0' <= s[i] <= '9'
    ensures n < 10 <==> |s| == 1
    ensures DigitsValue(s) == n
    ensures n > 0 ==> s[0] != '0'
  {
    if n < 10 then
      assert [Digit(n)][..0] == [];
      [Digit(n)]
    else
      var prefix := NatToString(n / 10);
      var s := prefix + [Digit(n % 10)];
      assert s[..|s| - 1] == prefix;
      s
  }
}
