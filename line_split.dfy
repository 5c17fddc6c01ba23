/**
 * The line structure the loader's scan imposes on a byte sequence, stated
 * line by line rather than byte by byte.
 *
 * A line is a run of bytes containing neither CR nor LF, followed by a
 * terminator: a bare LF, or a CR together with whatever single byte follows
 * it (an LF, or any other byte, which the scanner swallows without looking at
 * it as a CR or LF). What is left after the last terminator is the tail; a
 * tail that ends in a CR is "dangling": the scanner tried to read the byte
 * after that CR and ran off the end of the buffer.
 */
module LineSplit {

  const CR: bv8 := 0x0D
  const LF: bv8 := 0x0A

  predicate IsEol(b: bv8)
  {
    b == CR || b == LF
  }

  predicate NoEol(s: seq<bv8>)
  {
    forall i :: 0 <= i < |s| ==> !IsEol(s[i])
  }

  datatype Terminator =
    | Lf                  // a bare LF
    | CrLf                // CR followed by LF
    | CrThen(next: bv8)   // CR followed by some other byte, swallowed with it

  datatype Line = Line(body: seq<bv8>, term: Terminator)

  function TermBytes(t: Terminator): seq<bv8>
  {
    match t
    case Lf => [LF]
    case CrLf => [CR, LF]
    case CrThen(b) => [CR, b]
  }

  /** The bytes of one line, terminator included (the span handed to the decoder). */
  function LineBytes(l: Line): seq<bv8>
  {
    l.body + TermBytes(l.term)
  }

  predicate WellFormed(l: Line)
  {
    NoEol(l.body) && (l.term.CrThen? ==> l.term.next != LF)
  }

  predicate AllWellFormed(ls: seq<Line>)
  {
    forall i :: 0 <= i < |ls| ==> WellFormed(ls[i])
  }

  /** What may follow the last line: no terminator at all, or a CR with nothing after it. */
  predicate IsTail(t: seq<bv8>, dangling: bool)
  {
    if dangling then |t| >= 1 && t[|t| - 1] == CR && NoEol(t[..|t| - 1]) else NoEol(t)
  }

  /** The lines laid end to end, in order. */
  function Concat(ls: seq<Line>): seq<bv8>
  {
    if ls == [] then [] else Concat(ls[..|ls| - 1]) + LineBytes(ls[|ls| - 1])
  }

  lemma {:induction false} ConcatCons(l: Line, ls: seq<Line>)
    ensures Concat([l] + ls) == LineBytes(l) + Concat(ls)
    decreases |ls|
  {
    if ls != [] {
      var ls' := ls[..|ls| - 1];
      assert ([l] + ls)[..|ls|] == [l] + ls';
      ConcatCons(l, ls');
    }
  }

  /** The index of the first CR or LF, or |s| when there is none. */
  function FirstEol(s: seq<bv8>): (j: nat)
    ensures j <= |s| && NoEol(s[..j]) && (j < |s| ==> IsEol(s[j]))
  {
    if s == [] then 0
    else if IsEol(s[0]) then 0
    else
      var j' := FirstEol(s[1..]);
      assert s[..1 + j'] == [s[0]] + s[1..][..j'];
      1 + j'
  }

  datatype Split = Split(lines: seq<Line>, tail: seq<bv8>, danglingCr: bool)

  function Prepend(l: Line, sp: Split): Split
  {
    sp.(lines := [l] + sp.lines)
  }

  /** Cut `s` into lines, one terminator at a time from the front. */
  function SplitLines(s: seq<bv8>): Split
    decreases |s|
  {
    var j := FirstEol(s);
    if j == |s| then Split([], s, false)
    else if s[j] == LF then Prepend(Line(s[..j], Lf), SplitLines(s[j + 1..]))
    else if j + 1 == |s| then Split([], s, true)
    else
      var t := if s[j + 1] == LF then CrLf else CrThen(s[j + 1]);
      Prepend(Line(s[..j], t), SplitLines(s[j + 2..]))
  }

  /** When `s` holds a complete first line, the split cuts off exactly that line. */
  lemma FrontLine(s: seq<bv8>) returns (l: Line, k: nat)
    requires FirstEol(s) < |s| && !(s[FirstEol(s)] == CR && FirstEol(s) + 1 == |s|)
    ensures k <= |s| && WellFormed(l) && LineBytes(l) == s[..k]
    ensures SplitLines(s) == Prepend(l, SplitLines(s[k..]))
  {
    var j := FirstEol(s);
    if s[j] == LF {
      l, k := Line(s[..j], Lf), j + 1;
    } else if s[j + 1] == LF {
      l, k := Line(s[..j], CrLf), j + 2;
    } else {
      l, k := Line(s[..j], CrThen(s[j + 1])), j + 2;
    }
    assert LineBytes(l) == s[..k];
  }

  /** Splitting loses nothing: the lines followed by the tail give back the input. */
  lemma {:induction false} SplitRoundTrip(s: seq<bv8>)
    ensures Concat(SplitLines(s).lines) + SplitLines(s).tail == s
    decreases |s|
  {
    var j := FirstEol(s);
    if j < |s| && !(s[j] == CR && j + 1 == |s|) {
      var l, k := FrontLine(s);
      var rest := SplitLines(s[k..]);
      SplitRoundTrip(s[k..]);
      JoinFront(l, rest.lines, rest.tail, s, k);
    }
  }

  lemma JoinFront(l: Line, ls: seq<Line>, tail: seq<bv8>, s: seq<bv8>, k: nat)
    requires k <= |s| && LineBytes(l) == s[..k] && Concat(ls) + tail == s[k..]
    ensures Concat([l] + ls) + tail == s
  {
    ConcatCons(l, ls);
    assert s == s[..k] + s[k..];
  }

  /** Every line the split produces is well formed, and so is its tail. */
  lemma {:induction false} SplitWellFormed(s: seq<bv8>)
    ensures AllWellFormed(SplitLines(s).lines)
    ensures IsTail(SplitLines(s).tail, SplitLines(s).danglingCr)
    decreases |s|
  {
    var j := FirstEol(s);
    if j < |s| && !(s[j] == CR && j + 1 == |s|) {
      var l, k := FrontLine(s);
      SplitWellFormed(s[k..]);
      PrependWellFormed(l, SplitLines(s[k..]));
    } else if j < |s| {
      assert s[..|s| - 1] == s[..j];
    } else {
      assert s[..j] == s;
    }
  }

  /** A well-formed line in front of well-formed lines keeps them all well formed, and the tail as it was. */
  lemma PrependWellFormed(l: Line, sp: Split)
    requires WellFormed(l) && AllWellFormed(sp.lines)
    ensures AllWellFormed(Prepend(l, sp).lines)
    ensures Prepend(l, sp).tail == sp.tail && Prepend(l, sp).danglingCr == sp.danglingCr
  {
    var ls := Prepend(l, sp).lines;
    forall i | 0 <= i < |ls| ensures WellFormed(ls[i]) {
      if i > 0 { assert ls[i] == sp.lines[i - 1]; }
    }
  }

  lemma EolAfterBody(body: seq<bv8>, rest: seq<bv8>)
    requires NoEol(body) && rest != [] && IsEol(rest[0])
    ensures FirstEol(body + rest) == |body|
  {
    var s := body + rest;
    assert s[|body|] == rest[0];
    assert s[..|body|] == body;
  }

  /** A well-formed line at the front is cut off as the first line. */
  lemma SplitOneLine(l: Line, rest: seq<bv8>)
    requires WellFormed(l)
    ensures SplitLines(LineBytes(l) + rest) == Prepend(l, SplitLines(rest))
  {
    var s := LineBytes(l) + rest;
    var tb := TermBytes(l.term);
    assert s == l.body + (tb + rest);
    EolAfterBody(l.body, tb + rest);
    var j := |l.body|;
    assert s[..j] == l.body;
    assert s[j + |tb|..] == rest;
    match l.term
    case Lf =>
      assert s[j] == LF;
    case CrLf =>
      assert s[j] == CR && s[j + 1] == LF;
    case CrThen(b) =>
      assert s[j] == CR && s[j + 1] == b;
  }

  /**
   * The split is the only way to read the input as well-formed lines and a
   * tail: whatever such lines were laid end to end, the split recovers them.
   */
  lemma {:induction false} Unsplit(ls: seq<Line>, t: seq<bv8>, dangling: bool)
    requires AllWellFormed(ls) && IsTail(t, dangling)
    ensures SplitLines(Concat(ls) + t) == Split(ls, t, dangling)
    decreases |ls|
  {
    if ls == [] {
      assert Concat(ls) + t == t;
      if dangling {
        assert t[..|t| - 1] == t[..FirstEol(t)];
      }
    } else {
      var l, ls' := ls[0], ls[1..];
      assert ls == [l] + ls';
      assert AllWellFormed(ls') by {
        forall i | 0 <= i < |ls'| ensures WellFormed(ls'[i]) { assert ls'[i] == ls[i + 1]; }
      }
      assert WellFormed(ls[0]);
      ConcatCons(l, ls');
      assert Concat(ls) + t == LineBytes(l) + (Concat(ls') + t);
      SplitOneLine(l, Concat(ls') + t);
      Unsplit(ls', t, dangling);
    }
  }

  /** The decoded text of the lines, each line decoded on its own, in order. */
  function DecodeAll(ls: seq<Line>, decode: seq<bv8> -> string): string
  {
    if ls == [] then "" else DecodeAll(ls[..|ls| - 1], decode) + decode(LineBytes(ls[|ls| - 1]))
  }

  /** Line counters as the loader keeps them. */
  datatype Counts = Counts(lines: nat, winCr: nat, winLf: nat, errors: nat, missingLf: nat, unix: nat)

  const NoCounts := Counts(0, 0, 0, 0, 0, 0)

  /** What a CR does to the counters before the byte after it is read. */
  function SawCr(c: Counts): Counts
  {
    c.(lines := c.lines + 1, winCr := c.winCr + 1)
  }

  /** What one terminated line does to the counters. */
  function Bump(c: Counts, t: Terminator): Counts
  {
    match t
    case Lf => c.(lines := c.lines + 1, unix := c.unix + 1)
    case CrLf => SawCr(c).(winLf := c.winLf + 1)
    case CrThen(_) => SawCr(c).(errors := c.errors + 1, missingLf := c.missingLf + 1)
  }

  function Tally(ls: seq<Line>): Counts
  {
    if ls == [] then NoCounts else Bump(Tally(ls[..|ls| - 1]), ls[|ls| - 1].term)
  }

  function CountLf(ls: seq<Line>): nat
  {
    if ls == [] then 0 else CountLf(ls[..|ls| - 1]) + (if ls[|ls| - 1].term.Lf? then 1 else 0)
  }

  /**
   * Every line bumps exactly one of the CR and LF counters; every CR is
   * followed by an LF or counted as a missing LF; the error counter is the
   * missing-LF counter.
   */
  lemma {:induction false} TallyIdentities(ls: seq<Line>)
    ensures Tally(ls).lines == |ls| == Tally(ls).winCr + Tally(ls).unix
    ensures Tally(ls).winLf + Tally(ls).missingLf == Tally(ls).winCr
    ensures Tally(ls).errors == Tally(ls).missingLf
    ensures Tally(ls).unix == CountLf(ls)
  {
    if ls != [] {
      TallyIdentities(ls[..|ls| - 1]);
    }
  }

  /** The LF counter is positive exactly when some line ends in a bare LF. */
  lemma {:induction false} UnixCountPositive(ls: seq<Line>)
    ensures CountLf(ls) > 0 <==> exists i :: 0 <= i < |ls| && ls[i].term.Lf?
  {
    if ls != [] {
      var init := ls[..|ls| - 1];
      UnixCountPositive(init);
      if CountLf(init) > 0 {
        var i :| 0 <= i < |init| && init[i].term.Lf?;
        assert ls[i] == init[i];
      }
      if !ls[|ls| - 1].term.Lf? && exists i :: 0 <= i < |ls| && ls[i].term.Lf? {
        var i :| 0 <= i < |ls| && ls[i].term.Lf?;
        assert init[i] == ls[i];
      }
    }
  }

  /** At most one bare-LF line per line, and exactly one per line only when every line ends in a bare LF. */
  lemma {:induction false} CountLfAll(ls: seq<Line>)
    ensures CountLf(ls) <= |ls|
    ensures CountLf(ls) == |ls| <==> forall i :: 0 <= i < |ls| ==> ls[i].term.Lf?
  {
    if ls != [] {
      var init := ls[..|ls| - 1];
      CountLfAll(init);
      if CountLf(ls) == |ls| {
        forall i | 0 <= i < |ls| ensures ls[i].term.Lf? {
          if i < |init| { assert ls[i] == init[i]; }
        }
      }
      if forall i :: 0 <= i < |ls| ==> ls[i].term.Lf? {
        forall i | 0 <= i < |init| ensures init[i].term.Lf? { assert init[i] == ls[i]; }
      }
    }
  }
}
