/**
 * The parts of java.lang.String the editor relies on: `lastIndexOf` of a
 * character, `indexOf(str, fromIndex)` and the decimal rendering of an `int`
 * used when building backup names.
 */
module Strings {

  /** `t` occurs in `s` starting at index `i`. */
  predicate OccursAt(s: string, t: string, i: int)
  {
    0 <= i && i + |t| <= |s| && s[i..i + |t|] == t
  }

  /** `t` occurs somewhere in `s` at or after index `from`. */
  ghost predicate OccursFrom(s: string, t: string, from: int)
  {
    exists i :: from <= i && OccursAt(s, t, i)
  }

  /** `t` occurs somewhere in `s`. */
  ghost predicate Occurs(s: string, t: string)
  {
    OccursFrom(s, t, 0)
  }

  /** `s.lastIndexOf(c)`: the last index holding `c`, or -1 when there is none. */
  function LastIndexOf(s: string, c: char): (r: int)
    ensures -1 <= r < |s|
    ensures r >= 0 ==> s[r] == c
    ensures forall j :: r < j < |s| ==> s[j] != c
  {
    if |s| == 0 then -1
    else if s[|s| - 1] == c then |s| - 1
    else LastIndexOf(s[..|s| - 1], c)
  }

  /**
   * `s.indexOf(t, from)` for a non-empty `t` (every caller in the editor has
   * already rejected an empty search text): a negative `from` searches from 0,
   * and the result is the first occurrence at or after `from`, or -1.
   */
  function IndexOf(s: string, t: string, from: int): (r: int)
    requires |t| > 0
    ensures r == -1 || (r >= from && OccursAt(s, t, r))
    ensures r == -1 ==> !OccursFrom(s, t, from)
    ensures r >= 0 ==> forall i :: from <= i < r ==> !OccursAt(s, t, i)
    decreases |s| - from
  {
    if from < 0 then IndexOf(s, t, 0)
    else if from + |t| > |s| then -1
    else if s[from..from + |t|] == t then from
    else IndexOf(s, t, from + 1)
  }

  /** The character for a decimal digit. */
  function DigitChar(d: nat): (c: char)
    requires d < 10
    ensures c as int - '0' as int == d
  {
    ('0' as int + d) as char
  }

  /** Java's `"" + n` for a non-negative `int`: decimal, no leading zeros. */
  function NatToString(n: nat): (r: string)
    ensures 1 <= |r|
    ensures forall i :: 0 <= i < |r| ==> '0' <= r[i] <= '9'
    ensures n < 10 <==> |r| == 1
  {
    if n < 10 then [DigitChar(n)] else NatToString(n / 10) + [DigitChar(n % 10)]
  }

  /** Different numbers render differently, so numbered names never collide. */
  lemma {:induction false} NatToStringInjective(a: nat, b: nat)
    requires NatToString(a) == NatToString(b)
    ensures a == b
  {
    if a >= 10 && b >= 10 {
      var sa, sb := NatToString(a), NatToString(b);
      assert sa[..|sa| - 1] == NatToString(a / 10);
      assert sb[..|sb| - 1] == NatToString(b / 10);
      NatToStringInjective(a / 10, b / 10);
      assert DigitChar(a % 10) == sa[|sa| - 1] == sb[|sb| - 1] == DigitChar(b % 10);
    }
  }
}
