/**
 * The editor's search commands on its text: counting every occurrence of a
 * search text, finding one from the caret with a wrap-around to the start,
 * replacing one occurrence, and replacing until none is left. The caret
 * position is a parameter.
 */
module FindReplace {
  import opened Wrappers
  import opened Strings

  /** The answer for an empty or missing search text or text. */
  const Rejected := -1

  /**
   * The occurrences a left-to-right scan from `from` picks: the first one,
   * then the first that starts after it ends, and so on.
   */
  function Positions(s: string, t: string, from: int): (ps: seq<nat>)
    requires |t| > 0
    ensures forall k :: 0 <= k < |ps| ==> from <= ps[k] && OccursAt(s, t, ps[k])
    ensures forall k :: 0 <= k < |ps| - 1 ==> ps[k] + |t| <= ps[k + 1]
    decreases |s| - from
  {
    var p := IndexOf(s, t, from);
    if p < 0 then [] else [p] + Positions(s, t, p + |t|)
  }

  /**
   * The scan misses no occurrence: each one at or after `from` is picked or
   * overlaps one that is, the `k`-th picked.
   */
  lemma {:induction false} PositionsMaximal(s: string, t: string, from: int, i: int) returns (k: nat)
    requires |t| > 0 && from <= i && OccursAt(s, t, i)
    ensures k < |Positions(s, t, from)| && Positions(s, t, from)[k] <= i < Positions(s, t, from)[k] + |t|
    decreases |s| - from
  {
    var p := IndexOf(s, t, from);
    var ps := Positions(s, t, from);
    assert p >= 0 && p <= i;
    assert ps == [p] + Positions(s, t, p + |t|);
    if i >= p + |t| {
      var k' := PositionsMaximal(s, t, p + |t|, i);
      k := k' + 1;
    } else {
      k := 0;
    }
  }

  /** Some occurrence is counted exactly when the search text occurs at all. */
  lemma PositionsEmpty(s: string, t: string)
    requires |t| > 0
    ensures |Positions(s, t, 0)| > 0 <==> Occurs(s, t)
  {
    if |Positions(s, t, 0)| > 0 {
      assert OccursAt(s, t, Positions(s, t, 0)[0]);
    }
  }

  /** The find-all loop: the number of occurrences the left-to-right scan picks. */
  method CountAll(s: string, t: string) returns (count: nat)
    requires |t| > 0
    ensures count == |Positions(s, t, 0)|
  {
    var pos := 0;
    count := 0;
    while pos != -1
      invariant -1 <= pos <= |s|
      invariant pos == -1 ==> count == |Positions(s, t, 0)|
      invariant pos >= 0 ==> count + |Positions(s, t, pos)| == |Positions(s, t, 0)|
      decreases if pos < 0 then 0 else |s| + 1 - pos
    {
      pos := IndexOf(s, t, pos);
      if pos != -1 {
        count := count + 1;
        pos := pos + |t|;
      }
    }
  }

  /**
   * `find`: -1 for an empty or missing search text or text; with `findAll`
   * the number of non-overlapping occurrences; otherwise 1 when the search
   * text occurs (from the caret, or else from the start) and 0 when not.
   */
  method Find(content: Option<string>, needle: Option<string>, findAll: bool, caret: int) returns (r: int)
    ensures needle == None || needle == Some("") || content == None || content == Some("") ==> r == Rejected
    ensures needle != None && needle != Some("") && content != None && content != Some("") ==>
      if findAll then r == |Positions(content.value, needle.value, 0)|
      else (r == 1 <==> Occurs(content.value, needle.value)) && (r == 0 <==> !Occurs(content.value, needle.value))
  {
    if needle == None || needle == Some("") {
      return Rejected;
    }
    if content == None || content == Some("") {
      return Rejected;
    }
    var s, t := content.value, needle.value;
    if findAll {
      r := CountAll(s, t);
    } else {
      var pos := IndexOf(s, t, caret);
      if pos >= 0 {
        r := 1;
      } else {
        pos := IndexOf(s, t, 0);
        r := if pos >= 0 then 1 else 0;
      }
    }
  }

  /**
   * Where `replace` acts: the first occurrence at or after the caret, else
   * the first in the text, else -1.
   */
  function ReplacePos(s: string, t: string, caret: int): (p: int)
    requires |t| > 0
    ensures p == -1 <==> !Occurs(s, t)
    ensures p >= 0 ==> OccursAt(s, t, p)
    ensures p >= 0 && OccursFrom(s, t, caret) ==> caret <= p && forall i :: caret <= i < p ==> !OccursAt(s, t, i)
    ensures p >= 0 && !OccursFrom(s, t, caret) ==> forall i :: 0 <= i < p ==> !OccursAt(s, t, i)
  {
    var p := IndexOf(s, t, caret);
    if p >= 0 then p else IndexOf(s, t, 0)
  }

  /** A replace's answer and the text afterwards. */
  datatype Replaced = Replaced(code: int, content: Option<string>)

  /**
   * `replace`: -1 for an empty or missing search text, replacement or text;
   * 0 when the search text does not occur; otherwise 1, with the occurrence
   * `ReplacePos` picks swapped for the replacement and everything around it
   * kept.
   */
  function Replace(content: Option<string>, find: Option<string>, repl: Option<string>, caret: int): (r: Replaced)
    ensures find == None || find == Some("") || repl == None || repl == Some("") || content == None || content == Some("") ==>
      r == Replaced(Rejected, content)
    ensures find != None && find != Some("") && repl != None && repl != Some("") && content != None && content != Some("") ==>
      var s, t, u := content.value, find.value, repl.value;
      (r.code == 0 <==> !Occurs(s, t)) &&
      (r.code == 0 ==> r.content == content) &&
      (r.code != 0 ==>
        var p := ReplacePos(s, t, caret);
        r.code == 1 && r.content != None &&
        |r.content.value| == |s| - |t| + |u| &&
        r.content.value[..p] == s[..p] &&
        r.content.value[p..p + |u|] == u &&
        r.content.value[p + |u|..] == s[p + |t|..])
  {
    if find == None || find == Some("") || repl == None || repl == Some("") || content == None || content == Some("") then
      Replaced(Rejected, content)
    else
      var s, t, u := content.value, find.value, repl.value;
      var p := ReplacePos(s, t, caret);
      if p < 0 then Replaced(0, content)
      else
        var updated := s[..p] + u + (if |s| > p + |t| then s[p + |t|..] else "");
        assert updated[p..p + |u|] == u;
        Replaced(1, Some(updated))
  }

  /** What a run of replaces with a step budget ends in. */
  datatype Run = Stopped(count: nat, content: string) | OutOfFuel

  /**
   * `replaceAll` as written: replace while replace succeeds. `caret(n)` is
   * the caret at the n-th replace. The loop has no bound of its own, so the
   * model carries a budget of `fuel` replaces.
   */
  function ReplaceAllFuel(content: string, find: Option<string>, repl: Option<string>, caret: nat -> int, fuel: nat): (r: Run)
    ensures r.Stopped? ==> r.count < fuel
    decreases fuel
  {
    if fuel == 0 then OutOfFuel
    else
      var step := Replace(Some(content), find, repl, caret(0));
      if step.code <= 0 || step.content == None then Stopped(0, content)
      else
        match ReplaceAllFuel(step.content.value, find, repl, (n: nat) => caret(n + 1), fuel - 1)
        case OutOfFuel => OutOfFuel
        case Stopped(c, s) => Stopped(c + 1, s)
  }

  /** An occurrence inside a piece is an occurrence in any text built around it. */
  lemma OccursInside(a: string, u: string, b: string, t: string)
    requires Occurs(u, t)
    ensures Occurs(a + u + b, t)
  {
    var i :| 0 <= i && OccursAt(u, t, i);
    assert (a + u + b)[|a| + i..|a| + i + |t|] == u[i..i + |t|];
    assert OccursAt(a + u + b, t, |a| + i);
  }

  /**
   * When the replacement contains the search text and the text contains it
   * too, every replace succeeds and leaves the search text behind, so no
   * budget is ever enough: `replaceAll` does not return.
   */
  lemma {:induction false} ReplaceAllDiverges(content: string, f: string, u: string, caret: nat -> int, fuel: nat)
    requires f != "" && Occurs(u, f) && Occurs(content, f)
    ensures ReplaceAllFuel(content, Some(f), Some(u), caret, fuel) == OutOfFuel
    decreases fuel
  {
    if fuel > 0 {
      assert content != "" by {
        var i :| 0 <= i && OccursAt(content, f, i);
      }
      assert u != "" by {
        var i :| 0 <= i && OccursAt(u, f, i);
      }
      var step := Replace(Some(content), Some(f), Some(u), caret(0));
      var p := ReplacePos(content, f, caret(0));
      var s' := step.content.value;
      assert s' == s'[..p] + s'[p..p + |u|] + s'[p + |u|..];
      OccursInside(s'[..p], u, s'[p + |u|..], f);
      ReplaceAllDiverges(s', f, u, (n: nat) => caret(n + 1), fuel - 1);
    }
  }

  /** When the search text does not occur, `replaceAll` stops at once with nothing replaced. */
  lemma ReplaceAllAbsent(content: string, find: Option<string>, repl: Option<string>, caret: nat -> int, fuel: nat)
    requires fuel > 0
    requires find != None && find.value != "" && content != "" && !Occurs(content, find.value)
    ensures ReplaceAllFuel(content, find, repl, caret, fuel) == Stopped(0, content)
  {
  }

  /**
   * Replacing every occurrence once, left to right, in one pass over the
   * original text: the occurrences are those `Positions` picks, and text a
   * replacement puts in is never searched again.
   */
  function ReplaceEvery(s: string, t: string, u: string, from: nat): (r: string)
    requires |t| > 0 && from <= |s|
    decreases |s| - from
  {
    var p := IndexOf(s, t, from);
    if p < 0 then s[from..] else s[from..p] + u + ReplaceEvery(s, t, u, p + |t|)
  }

  /** Replacing the search text by itself gives the text back. */
  lemma {:induction false} ReplaceEveryIdentity(s: string, t: string, from: nat)
    requires |t| > 0 && from <= |s|
    ensures ReplaceEvery(s, t, t, from) == s[from..]
    decreases |s| - from
  {
    var p := IndexOf(s, t, from);
    if p >= 0 {
      ReplaceEveryIdentity(s, t, p + |t|);
      assert s[p..p + |t|] == t;
      assert s[from..] == s[from..p] + (s[p..p + |t|] + s[p + |t|..]);
    }
  }

  /** With no occurrence left, the pass copies the rest of the text. */
  lemma ReplaceEveryAbsent(s: string, t: string, u: string, from: nat)
    requires |t| > 0 && from <= |s| && !OccursFrom(s, t, from)
    ensures ReplaceEvery(s, t, u, from) == s[from..]
  {
  }

  /** The pieces `gs` joined, `sep` between each two. */
  function Join(gs: seq<string>, sep: string): string
    requires |gs| > 0
    decreases |gs|
  {
    if |gs| == 1 then gs[0] else gs[0] + sep + Join(gs[1..], sep)
  }

  lemma SliceOfSlice(s: string, from: nat, to: nat, i: nat, j: nat)
    requires from <= to <= |s| && i <= j <= to - from
    ensures s[from..to][i..j] == s[from + i..from + j]
  {
    var g := s[from..to];
    forall k | i <= k < j
      ensures g[k] == s[from + k]
    {
    }
  }

  /** A stretch with no occurrence starting inside it that also ends inside it holds no occurrence as a string. */
  lemma GapFree(s: string, t: string, from: nat, to: nat)
    requires from <= to <= |s|
    requires forall i :: from <= i && i + |t| <= to ==> !OccursAt(s, t, i)
    ensures !Occurs(s[from..to], t)
  {
    var g := s[from..to];
    forall i | 0 <= i
      ensures !OccursAt(g, t, i)
    {
      if i + |t| <= |g| {
        assert !OccursAt(s, t, from + i);
        SliceOfSlice(s, from, to, i, i + |t|);
      }
    }
  }

  /** The text between the occurrences `Positions` picks: one piece before each of them and the rest after the last. */
  function Gaps(s: string, t: string, from: nat): (gs: seq<string>)
    requires |t| > 0 && from <= |s|
    ensures |gs| == |Positions(s, t, from)| + 1
    decreases |s| - from
  {
    var p := IndexOf(s, t, from);
    if p < 0 then [s[from..]] else [s[from..p]] + Gaps(s, t, p + |t|)
  }

  /**
   * No gap holds the search text, so the pass leaves no occurrence of the
   * original text unreplaced except one overlapping a replaced occurrence.
   */
  lemma {:induction false} GapsFree(s: string, t: string, from: nat)
    requires |t| > 0 && from <= |s|
    ensures forall k :: 0 <= k < |Gaps(s, t, from)| ==> !Occurs(Gaps(s, t, from)[k], t)
    decreases |s| - from
  {
    var p := IndexOf(s, t, from);
    if p < 0 {
      GapFree(s, t, from, |s|);
      assert s[from..|s|] == s[from..];
    } else {
      GapFree(s, t, from, p);
      GapsFree(s, t, p + |t|);
      var gs := Gaps(s, t, from);
      assert gs == [s[from..p]] + Gaps(s, t, p + |t|);
      assert forall k :: 1 <= k < |gs| ==> gs[k] == Gaps(s, t, p + |t|)[k - 1];
    }
  }

  /** One step of the pass at the first occurrence `p` at or after `from`. */
  lemma PassStep(s: string, t: string, u: string, from: nat) returns (p: nat)
    requires |t| > 0 && from <= |s| && IndexOf(s, t, from) >= 0
    ensures p == IndexOf(s, t, from) && from <= p && OccursAt(s, t, p)
    ensures Positions(s, t, from) == [p] + Positions(s, t, p + |t|)
    ensures ReplaceEvery(s, t, u, from) == s[from..p] + u + ReplaceEvery(s, t, u, p + |t|)
  {
    p := IndexOf(s, t, from);
  }

  /** One step of the pass, on the gaps joined by the replacement. */
  lemma JoinStep(s: string, t: string, u: string, from: nat) returns (p: nat)
    requires |t| > 0 && from <= |s| && IndexOf(s, t, from) >= 0
    ensures from <= p && p + |t| <= |s|
    ensures Join(Gaps(s, t, from), u) == s[from..p] + u + Join(Gaps(s, t, p + |t|), u)
    ensures ReplaceEvery(s, t, u, from) == s[from..p] + u + ReplaceEvery(s, t, u, p + |t|)
  {
    p := IndexOf(s, t, from);
    var gs, rest := Gaps(s, t, from), Gaps(s, t, p + |t|);
    assert gs == [s[from..p]] + rest && |rest| > 0;
    assert gs[1..] == rest;
  }

  /** The last step of the pass: no occurrence is left and the rest is copied. */
  lemma JoinEnd(s: string, t: string, u: string, from: nat)
    requires |t| > 0 && from <= |s| && IndexOf(s, t, from) < 0
    ensures Join(Gaps(s, t, from), u) == s[from..] == ReplaceEvery(s, t, u, from)
  {
    assert Gaps(s, t, from) == [s[from..]];
  }

  /**
   * The pass in terms of the gaps: the result is the gaps joined by the
   * replacement and, since replacing the search text by itself is the
   * identity, the original text is the same gaps joined by the search text.
   */
  lemma {:induction false} GapsJoin(s: string, t: string, u: string, from: nat)
    requires |t| > 0 && from <= |s|
    ensures Join(Gaps(s, t, from), u) == ReplaceEvery(s, t, u, from)
    decreases |s| - from
  {
    if IndexOf(s, t, from) >= 0 {
      var p := JoinStep(s, t, u, from);
      GapsJoin(s, t, u, p + |t|);
      var head, joined, replaced := s[from..p] + u, Join(Gaps(s, t, p + |t|), u), ReplaceEvery(s, t, u, p + |t|);
      assert joined == replaced;
      assert head + joined == head + replaced;
    } else {
      JoinEnd(s, t, u, from);
    }
  }

  /** The original text is the gaps joined by the search text. */
  lemma GapsJoinOriginal(s: string, t: string, from: nat)
    requires |t| > 0 && from <= |s|
    ensures Join(Gaps(s, t, from), t) == s[from..]
  {
    GapsJoin(s, t, t, from);
    ReplaceEveryIdentity(s, t, from);
  }

  lemma MulSucc(n: nat, a: nat)
    ensures (n + 1) * a == n * a + a
  {
  }

  /** Each replaced occurrence changes the length by the difference of the two texts. */
  lemma {:induction false} ReplaceEveryLength(s: string, t: string, u: string, from: nat)
    requires |t| > 0 && from <= |s|
    ensures |ReplaceEvery(s, t, u, from)| + |Positions(s, t, from)| * |t| == |s| - from + |Positions(s, t, from)| * |u|
    decreases |s| - from
  {
    if IndexOf(s, t, from) >= 0 {
      var p := PassStep(s, t, u, from);
      ReplaceEveryLength(s, t, u, p + |t|);
      var n, r := |Positions(s, t, p + |t|)|, |ReplaceEvery(s, t, u, p + |t|)|;
      assert r + n * |t| == |s| - (p + |t|) + n * |u|;
      assert |Positions(s, t, from)| == n + 1;
      assert |ReplaceEvery(s, t, u, from)| == (p - from) + |u| + r;
      MulSucc(n, |t|);
      MulSucc(n, |u|);
    }
  }

  /**
   * `replaceAll` as evidently intended: it answers 0 (the count of a loop
   * that never ran) where `replace` rejects or finds nothing, and otherwise
   * the number of occurrences the pass replaced, with the text after it. It
   * always returns.
   */
  function ReplaceAll(content: Option<string>, find: Option<string>, repl: Option<string>): (r: Replaced)
    ensures find == None || find == Some("") || repl == None || repl == Some("") || content == None || content == Some("") ==>
      r == Replaced(0, content)
    ensures find != None && find != Some("") && repl != None && repl != Some("") && content != None && content != Some("") ==>
      (r.code == 0 <==> !Occurs(content.value, find.value)) &&
      (r.code == 0 ==> r.content == content) &&
      r.code == |Positions(content.value, find.value, 0)|
    ensures find != None && find != Some("") && repl != None && repl != Some("") && content != None && content != Some("") &&
            r.code > 0 ==>
      var gs := Gaps(content.value, find.value, 0);
      (forall k :: 0 <= k < |gs| ==> !Occurs(gs[k], find.value)) &&
      content.value == Join(gs, find.value) &&
      r.content == Some(Join(gs, repl.value)) &&
      |r.content.value| + r.code * |find.value| == |content.value| + r.code * |repl.value|
  {
    if find == None || find == Some("") || repl == None || repl == Some("") || content == None || content == Some("") then
      Replaced(0, content)
    else
      var s, t := content.value, find.value;
      PositionsEmpty(s, t);
      GapsJoin(s, t, repl.value, 0);
      GapsJoinOriginal(s, t, 0);
      GapsFree(s, t, 0);
      ReplaceEveryLength(s, t, repl.value, 0);
      var n := |Positions(s, t, 0)|;
      if n == 0 then Replaced(0, content) else Replaced(n, Some(ReplaceEvery(s, t, repl.value, 0)))
  }
}
