/**
 * The body of the file-load task: one pass over the mapped bytes of the file
 * that counts line terminators, hands every terminated span to the charset
 * decoder, reports progress on an integer cadence, polls for cancellation
 * after every iteration and finally labels the file's line-ending style.
 *
 * The decoder is a parameter (a function from a byte span to its text), and
 * so are the cancellation flag (`cancelled(i)` is the answer of the i-th
 * poll) and a fault of the file channel.
 */
module Loader {
  import opened Wrappers
  import opened LineSplit

  const ProgressBarSteps := 20

  /** The four labels the load task can set, in the order it tests them. */
  datatype LineEnding = WinCrLf | UnixLf | MixCrLf | NoCrLf

  /** The label shown before any load has classified the file. */
  const WorkInProgress := "WIP"

  function Label(e: LineEnding): (s: string)
    ensures s != WorkInProgress
  {
    match e
    case WinCrLf => "Win CRLF"
    case UnixLf => "Unix LF"
    case MixCrLf => "Mix CR LF"
    case NoCrLf => "no CR LF)"
  }

  /** The label chosen from the counters: mixed first, then Windows, then Unix. */
  function Classify(c: Counts): (e: LineEnding)
    ensures e == MixCrLf <==> c.winCr > 0 && c.unix > 0
    ensures e == WinCrLf <==> c.winCr > 0 && c.unix == 0
    ensures e == UnixLf <==> c.winCr == 0 && c.unix > 0
    ensures e == NoCrLf <==> c.winCr == 0 && c.unix == 0
  {
    if c.winCr > 0 && c.unix > 0 then MixCrLf
    else if c.winCr > 0 then WinCrLf
    else if c.unix > 0 then UnixLf
    else NoCrLf
  }

  /**
   * What the label says about the lines themselves: a CR counts as Windows
   * whether or not an LF follows it, so "Win CRLF" means every line ended in
   * a CR, "Unix LF" that every line ended in a bare LF, "Mix CR LF" that both
   * kinds occur and "no CR LF)" that no line was terminated at all.
   */
  lemma ClassifyLines(ls: seq<Line>)
    ensures Classify(Tally(ls)) == NoCrLf <==> ls == []
    ensures Classify(Tally(ls)) == UnixLf <==> ls != [] && forall i :: 0 <= i < |ls| ==> ls[i].term.Lf?
    ensures Classify(Tally(ls)) == WinCrLf <==> ls != [] && forall i :: 0 <= i < |ls| ==> !ls[i].term.Lf?
    ensures Classify(Tally(ls)) == MixCrLf <==>
      (exists i :: 0 <= i < |ls| && ls[i].term.Lf?) && (exists j :: 0 <= j < |ls| && !ls[j].term.Lf?)
  {
    TallyIdentities(ls);
    UnixCountPositive(ls);
    CountLfAll(ls);
    if CountLf(ls) < |ls| {
      var j :| 0 <= j < |ls| && !ls[j].term.Lf?;
    }
  }

  /** Java's `int` multiplication: the product wrapped into the 32-bit signed range. */
  function Wrap32(x: int): (r: int)
    ensures -0x8000_0000 <= r < 0x8000_0000
    ensures (r - x) % 0x1_0000_0000 == 0
  {
    (x + 0x8000_0000) % 0x1_0000_0000 - 0x8000_0000
  }

  /** The last progress threshold stays within `int` range: the cadence is then the intended one. */
  predicate NoOverflow(size: nat)
  {
    size + size / ProgressBarSteps < 0x8000_0000
  }

  /**
   * The progress test of the scan loop, `step == 1 || bytesRead >= step * counter`
   * with the product taken in `int` arithmetic: always true for a step of 0
   * or 1, and the plain comparison while the product fits in an `int`.
   */
  method ProgressDue(step: nat, counter: nat, bytesRead: nat) returns (due: bool)
    ensures step <= 1 ==> due
    ensures Times(step, counter) < 0x8000_0000 ==> (due <==> step == 1 || bytesRead >= Times(step, counter))
  {
    TimesIsProduct(step, counter);
    var product := Wrap32(step * counter);
    if step == 0 {
      assert product == 0;
    } else if step * counter < 0x8000_0000 {
      assert product == step * counter;
    }
    due := step == 1 || bytesRead >= product;
  }

  /**
   * How the scan loop ended: the buffer ran out, a poll said "cancelled", a
   * CR was the last byte, or the channel failed (the last two both exit
   * through the task's catch).
   */
  datatype LoadExit = Finished | Cancelled | Underflow | IoError

  datatype LoadResult = LoadResult(
    text: string,                    // what the task returns
    exit: LoadExit,
    lineEnding: Option<LineEnding>,  // the label set, or None when it is left as it was
    counts: Counts,
    bytesRead: nat,
    polls: nat,                      // iterations that reached the cancellation poll
    updates: seq<nat>)               // bytes read at each progress update of the loop, in order

  /** Progress updates are in strictly increasing order and never run ahead of the bytes read. */
  ghost predicate UpdatesOrdered(updates: seq<nat>, bytesRead: nat)
  {
    (forall k :: 0 <= k < |updates| ==> updates[k] <= bytesRead) &&
    (forall k, k' :: 0 <= k < k' < |updates| ==> updates[k] < updates[k'])
  }

  /** With a step of at least 2, the k-th update fires at the first iteration that reaches step * (k + 1). */
  ghost predicate UpdatesOnCadence(updates: seq<nat>, step: nat)
  {
    forall k :: 0 <= k < |updates| ==> step * (k + 1) <= updates[k] <= step * (k + 1) + 1
  }

  /** `step * n` by repeated addition, the way the loop's threshold grows one step per update. */
  function Times(step: nat, n: nat): nat
  {
    if n == 0 then 0 else Times(step, n - 1) + step
  }

  lemma {:induction false} TimesIsProduct(step: nat, n: nat)
    ensures Times(step, n) == step * n
  {
    if n > 0 {
      TimesIsProduct(step, n - 1);
    }
  }

  ghost predicate UpdatesOnTimes(updates: seq<nat>, step: nat)
  {
    forall k {:trigger updates[k]} :: 0 <= k < |updates| ==> Times(step, k + 1) <= updates[k] <= Times(step, k + 1) + 1
  }

  lemma CadenceAsProduct(updates: seq<nat>, step: nat)
    requires UpdatesOnTimes(updates, step)
    ensures UpdatesOnCadence(updates, step)
  {
    forall k | 0 <= k < |updates| ensures step * (k + 1) <= updates[k] <= step * (k + 1) + 1 {
      TimesIsProduct(step, k + 1);
    }
  }

  /** `n` full steps have been read, and not `n + 1`. */
  ghost predicate FullSteps(step: nat, n: nat, x: nat)
  {
    Times(step, n) <= x < Times(step, n + 1)
  }

  /** So the number of progress updates is the number of whole steps read, `x / step`. */
  lemma FullStepsQuotient(step: nat, n: nat, x: nat)
    requires step > 0 && FullSteps(step, n, x)
    ensures step * n <= x < step * (n + 1)
    ensures x / step == n
  {
    TimesIsProduct(step, n);
    TimesIsProduct(step, n + 1);
    DivBetween(x, step, n);
  }

  lemma DivBetween(x: nat, d: nat, q: nat)
    requires d > 0 && d * q <= x < d * (q + 1)
    ensures x / d == q
  {
    var q', m := x / d, x % d;
    assert x == d * q' + m && 0 <= m < d;
    if q' < q {
      MulMono(d, q' + 1, q);
    } else if q' > q {
      MulMono(d, q + 1, q');
    }
  }

  lemma MulMono(d: nat, a: nat, b: nat)
    requires a <= b
    ensures d * a <= d * b
  {
  }

  /**
   * The progress bookkeeping after `polls` completed iterations with `pos`
   * bytes read: the counter is one more than the number of updates, which
   * are ordered; with a step of 0 or 1 every iteration reported; with a
   * larger step (and no `int` overflow) the k-th update came at the k-th
   * multiple of the step and the next threshold is still ahead.
   */
  ghost predicate ProgressInv(size: nat, step: nat, updates: seq<nat>, counter: nat, polls: nat, pos: nat)
  {
    counter == |updates| + 1 &&
    UpdatesOrdered(updates, pos) &&
    (step <= 1 ==> |updates| == polls) &&
    (step >= 2 && NoOverflow(size) ==>
      UpdatesOnTimes(updates, step) && Times(step, |updates|) <= pos < Times(step, counter))
  }

  /**
   * The progress block at the end of an iteration that read one or two
   * bytes: when the test fires, the bytes read so far are reported and the
   * counter moves on.
   */
  method ReportProgress(ghost size: nat, step: nat, counter: nat, updates: seq<nat>, ghost polls: nat,
                        ghost start: nat, pos: nat)
    returns (counter': nat, updates': seq<nat>)
    requires step == size / ProgressBarSteps && ProgressInv(size, step, updates, counter, polls, start)
    requires start < pos <= start + 2 && pos <= size
    ensures updates' == updates || updates' == updates + [pos]
    ensures ProgressInv(size, step, updates', counter', polls + 1, pos)
  {
    var due := ProgressDue(step, counter, pos);
    counter', updates' := counter, updates;
    if due {
      updates' := updates + [pos];
      counter' := counter + 1;
    }
    assert forall k :: 0 <= k < |updates| ==> updates'[k] == updates[k];
    if step >= 2 && NoOverflow(size) {
      assert Times(step, counter) == Times(step, |updates|) + step;
    }
  }

  lemma ProgressLater(size: nat, updates: seq<nat>, counter: nat, polls: nat, start: nat, pos: nat)
    requires ProgressInv(size, size / ProgressBarSteps, updates, counter, polls, start) && start <= pos
    ensures UpdatesOrdered(updates, pos)
  {
  }

  /** Laying one more terminated line after the completed ones. */
  lemma AppendLine(bytes: seq<bv8>, mark: nat, pos: nat, lines: seq<Line>, l: Line, decode: seq<bv8> -> string)
    requires mark <= pos <= |bytes| && bytes[..mark] == Concat(lines) && LineBytes(l) == bytes[mark..pos]
    ensures bytes[..pos] == Concat(lines + [l])
    ensures DecodeAll(lines + [l], decode) == DecodeAll(lines, decode) + decode(bytes[mark..pos])
    ensures Tally(lines + [l]) == Bump(Tally(lines), l.term)
  {
    assert (lines + [l])[..|lines|] == lines;
    assert bytes[..pos] == bytes[..mark] + bytes[mark..pos];
  }

  /**
   * A terminator read right after a terminator-free body completes a
   * well-formed line: the completed lines now reach the new position, and
   * the text and the counters are those of the longer list.
   */
  lemma Commit(bytes: seq<bv8>, mark: nat, start: nat, pos: nat, lines: seq<Line>, l: Line,
               decode: seq<bv8> -> string)
    requires mark <= start <= pos <= |bytes| && l.body == bytes[mark..start]
    requires forall i :: mark <= i < start ==> !IsEol(bytes[i])
    requires TermAt(bytes, start, pos, l.term)
    requires bytes[..mark] == Concat(lines) && AllWellFormed(lines)
    ensures bytes[..pos] == Concat(lines + [l]) && AllWellFormed(lines + [l])
    ensures DecodeAll(lines + [l], decode) == DecodeAll(lines, decode) + decode(bytes[mark..pos])
    ensures Tally(lines + [l]) == Bump(Tally(lines), l.term)
  {
    TermBytesAt(bytes, start, pos, l.term);
    NoEolSlice(bytes, mark, start);
    assert bytes[mark..pos] == bytes[mark..start] + bytes[start..pos];
    AppendLine(bytes, mark, pos, lines, l, decode);
    assert forall i :: 0 <= i < |lines| ==> (lines + [l])[i] == lines[i];
  }

  /** The terminator `t` was read from `bytes[start..pos]`. */
  predicate TermAt(bytes: seq<bv8>, start: nat, pos: nat, t: Terminator)
  {
    match t
    case Lf => pos == start + 1 <= |bytes| && bytes[start] == LF
    case CrLf => pos == start + 2 <= |bytes| && bytes[start] == CR && bytes[start + 1] == LF
    case CrThen(next) => pos == start + 2 <= |bytes| && bytes[start] == CR && bytes[start + 1] == next && next != LF
  }

  lemma TermBytesAt(bytes: seq<bv8>, start: nat, pos: nat, t: Terminator)
    requires TermAt(bytes, start, pos, t)
    ensures pos <= |bytes| && start <= pos && bytes[start..pos] == TermBytes(t)
  {
    match t
    case Lf => assert bytes[start..pos] == [bytes[start]];
    case CrLf => assert bytes[start..pos] == [bytes[start], bytes[start + 1]];
    case CrThen(_) => assert bytes[start..pos] == [bytes[start], bytes[start + 1]];
  }

  lemma NoEolSlice(bytes: seq<bv8>, from: nat, to: nat)
    requires from <= to <= |bytes| && forall i :: from <= i < to ==> !IsEol(bytes[i])
    ensures NoEol(bytes[from..to])
  {
  }

  lemma TailAt(bytes: seq<bv8>, mark: nat, pos: nat, dangling: bool)
    requires mark <= pos <= |bytes|
    requires dangling ==> mark < pos && bytes[pos - 1] == CR
    requires forall i :: mark <= i < (if dangling then pos - 1 else pos) ==> !IsEol(bytes[i])
    ensures IsTail(bytes[mark..pos], dangling)
  {
    if dangling {
      assert bytes[mark..pos][..pos - 1 - mark] == bytes[mark..pos - 1];
    }
  }

  /** The completed lines and the unterminated bytes after them are what the split of the bytes read gives. */
  lemma Settle(bytes: seq<bv8>, mark: nat, pos: nat, lines: seq<Line>, dangling: bool)
    requires mark <= pos <= |bytes| && bytes[..mark] == Concat(lines) && AllWellFormed(lines)
    requires IsTail(bytes[mark..pos], dangling)
    ensures SplitLines(bytes[..pos]) == Split(lines, bytes[mark..pos], dangling)
  {
    assert bytes[..pos] == Concat(lines) + bytes[mark..pos];
    Unsplit(lines, bytes[mark..pos], dangling);
  }

  /**
   * What the scan has established with `pos` bytes read: the bytes before
   * `mark` are the completed lines, laid end to end, their decoded spans are
   * the text and their terminators the counters; the bytes from `mark` to
   * `pos` hold no CR or LF, except, when `dangling`, a CR in the last byte
   * read, which the counters already include.
   */
  ghost predicate ScanState(bytes: seq<bv8>, decode: seq<bv8> -> string, pos: nat, mark: nat, text: string,
                            counts: Counts, lines: seq<Line>, dangling: bool)
  {
    mark <= pos <= |bytes| &&
    (dangling ==> mark < pos && bytes[pos - 1] == CR) &&
    (forall i :: mark <= i < (if dangling then pos - 1 else pos) ==> !IsEol(bytes[i])) &&
    bytes[..mark] == Concat(lines) && AllWellFormed(lines) &&
    text == DecodeAll(lines, decode) &&
    counts == (if dangling then SawCr(Tally(lines)) else Tally(lines))
  }

  /**
   * The byte-reading half of one iteration of the scan loop: a CR is counted
   * and the next byte read unconditionally (an LF completes "CR LF",
   * anything else is a missing-LF error and is not looked at again); a bare
   * LF is counted as Unix; after a terminator the span since the mark,
   * terminator included, is decoded and appended and the mark moves past it.
   * A CR in the last byte makes the second read underflow.
   */
  method ReadStep(bytes: seq<bv8>, decode: seq<bv8> -> string, pos: nat, mark: nat, text: string, counts: Counts,
                  ghost lines: seq<Line>)
    returns (pos': nat, mark': nat, text': string, counts': Counts, ghost lines': seq<Line>, underflow: bool)
    requires ScanState(bytes, decode, pos, mark, text, counts, lines, false) && pos < |bytes|
    ensures underflow <==> bytes[pos] == CR && pos + 1 == |bytes|
    ensures ScanState(bytes, decode, pos', mark', text', counts', lines', underflow)
    ensures pos' + counts.winCr == pos + counts'.winCr + (if underflow then 0 else 1)
    ensures underflow ==> pos' == |bytes| && mark' == mark && lines' == lines
    ensures !underflow ==>
      pos < pos' <= pos + 2 &&
      (IsEol(bytes[pos]) ==> mark' == pos' && |lines'| == |lines| + 1) &&
      (!IsEol(bytes[pos]) ==> pos' == pos + 1 && mark' == mark && lines' == lines)
  {
    var start := pos;
    pos' := pos + 1;
    mark', text', counts', lines', underflow := mark, text, counts, lines, false;
    var b := bytes[start];
    var eol := false;
    ghost var term := Lf;
    if b == CR {
      eol := true;
      counts' := SawCr(counts');
      if pos' == |bytes| {
        underflow := true;
        return;
      }
      var next := bytes[pos'];
      pos' := pos' + 1;
      if next == LF {
        counts' := counts'.(winLf := counts'.winLf + 1);
        term := CrLf;
      } else {
        counts' := counts'.(errors := counts'.errors + 1, missingLf := counts'.missingLf + 1);
        term := CrThen(next);
      }
    } else if b == LF {
      eol := true;
      counts' := counts'.(lines := counts'.lines + 1, unix := counts'.unix + 1);
    }
    if eol {
      var l := Line(bytes[mark..start], term);
      assert TermAt(bytes, start, pos', term) && counts' == Bump(counts, term);
      Commit(bytes, mark, start, pos', lines, l, decode);
      text' := text' + decode(bytes[mark..pos']);
      lines' := lines' + [l];
      mark' := pos';
    }
  }

  /**
   * The scan loop inside the task's `try` block: read, report progress,
   * poll for cancellation, until the buffer is exhausted, a poll says
   * "cancelled" or a read underflows (the catch returns the text so far).
   * `bytes` are the bytes that can be read, `size` the size of the file,
   * from which the progress step is taken.
   *
   * Every iteration reads one byte, or two when the first is a CR, and every
   * iteration that does not underflow reaches the poll; so the polls and the
   * CRs together make up the bytes read.
   *
   * The ghost `lines` are the completed lines; the bytes from `mark` to the
   * returned position are the unterminated rest.
   */
  method Scan(bytes: seq<bv8>, size: nat, decode: seq<bv8> -> string, cancelled: nat -> bool)
    returns (text: string, exit: LoadExit, counts: Counts, pos: nat, mark: nat, polls: nat, updates: seq<nat>,
             ghost lines: seq<Line>)
    requires |bytes| <= size
    ensures exit != IoError
    ensures ScanState(bytes, decode, pos, mark, text, counts, lines, exit == Underflow)
    ensures exit != Cancelled ==> pos == |bytes|
    ensures polls + counts.winCr == pos
    ensures exit == Cancelled ==> polls > 0 && cancelled(polls - 1)
    ensures forall i :: 0 <= i < polls && !(exit == Cancelled && i == polls - 1) ==> !cancelled(i)
    ensures UpdatesOrdered(updates, pos)
    ensures size / ProgressBarSteps <= 1 ==> |updates| == polls
    ensures size / ProgressBarSteps >= 2 && NoOverflow(size) ==>
      UpdatesOnTimes(updates, size / ProgressBarSteps) &&
      (exit != Underflow ==> FullSteps(size / ProgressBarSteps, |updates|, pos))
  {
    var step := size / ProgressBarSteps;
    pos, mark := 0, 0;
    text := "";
    counts := NoCounts;
    var counter: nat := 1;
    updates := [];
    polls := 0;
    lines := [];
    exit := Finished;
    while true
      invariant ScanState(bytes, decode, pos, mark, text, counts, lines, false)
      invariant polls + counts.winCr == pos
      invariant forall i :: 0 <= i < polls ==> !cancelled(i)
      invariant ProgressInv(size, step, updates, counter, polls, pos)
      decreases |bytes| - pos
    {
      if pos == |bytes| {
        break;
      }
      var start := pos;
      var underflow;
      pos, mark, text, counts, lines, underflow := ReadStep(bytes, decode, pos, mark, text, counts, lines);
      if underflow {
        exit := Underflow;
        ProgressLater(size, updates, counter, polls, start, pos);
        break;
      }
      counter, updates := ReportProgress(size, step, counter, updates, polls, start, pos);
      if cancelled(polls) {
        polls := polls + 1;
        exit := Cancelled;
        break;
      }
      polls := polls + 1;
    }
  }

  /**
   * The scan of the first `n` bytes of a file of `|bytes|` bytes, stated on
   * the split of the bytes it read.
   */
  method ScanPrefix(bytes: seq<bv8>, n: nat, decode: seq<bv8> -> string, cancelled: nat -> bool)
    returns (text: string, exit: LoadExit, counts: Counts, pos: nat, polls: nat, updates: seq<nat>)
    requires n <= |bytes|
    ensures exit != IoError && pos <= n && (exit != Cancelled ==> pos == n)
    ensures text == DecodeAll(SplitLines(bytes[..pos]).lines, decode)
    ensures exit == Underflow <==> SplitLines(bytes[..pos]).danglingCr
    ensures counts ==
      if exit == Underflow then SawCr(Tally(SplitLines(bytes[..pos]).lines)) else Tally(SplitLines(bytes[..pos]).lines)
    ensures polls + counts.winCr == pos
    ensures exit == Cancelled ==> polls > 0 && cancelled(polls - 1)
    ensures forall i :: 0 <= i < polls && !(exit == Cancelled && i == polls - 1) ==> !cancelled(i)
    ensures UpdatesOrdered(updates, pos)
    ensures |bytes| / ProgressBarSteps <= 1 ==> |updates| == polls
    ensures |bytes| / ProgressBarSteps >= 2 && NoOverflow(|bytes|) ==>
      UpdatesOnTimes(updates, |bytes| / ProgressBarSteps) &&
      (exit != Underflow ==> FullSteps(|bytes| / ProgressBarSteps, |updates|, pos))
  {
    var readable := bytes[..n];
    var mark;
    ghost var lines;
    text, exit, counts, pos, mark, polls, updates, lines := Scan(readable, |bytes|, decode, cancelled);
    TailAt(readable, mark, pos, exit == Underflow);
    Settle(readable, mark, pos, lines, exit == Underflow);
    assert readable[..pos] == bytes[..pos];
  }

  /**
   * A fault of the file channel: it cannot be opened or mapped, or the read
   * of byte `at` of the mapped buffer throws.
   */
  datatype Fault = NoFault | OpenFails | ReadFailsAt(at: nat)

  /** How many of a file's `size` bytes can be read before the fault strikes. */
  function Readable(size: nat, fault: Fault): (n: nat)
    ensures n <= size
    ensures fault == NoFault ==> n == size
    ensures fault == OpenFails ==> n == 0
    ensures fault.ReadFailsAt? ==> n <= fault.at && (n < fault.at ==> n == size)
  {
    match fault
    case NoFault => size
    case OpenFails => 0
    case ReadFailsAt(at) => if at < size then at else size
  }

  /** Whether the fault strikes at all: a read inside the file fails, or the channel does. */
  predicate Faulted(size: nat, fault: Fault)
  {
    fault == OpenFails || (fault.ReadFailsAt? && fault.at < size)
  }

  /**
   * The whole load task: the scan, then (unless the scan ended in the catch)
   * the classification of the counters. Its text is the decoded lines of the
   * bytes read, so bytes after the last terminator are never decoded. A
   * final CR, or a fault of the channel, exits through the catch and leaves
   * the label unset.
   */
  method Load(bytes: seq<bv8>, decode: seq<bv8> -> string, cancelled: nat -> bool, fault: Fault)
    returns (r: LoadResult)
    ensures r.bytesRead <= Readable(|bytes|, fault)
    ensures r.exit != Cancelled ==> r.bytesRead == Readable(|bytes|, fault)
    ensures r.exit == IoError <==> r.exit != Cancelled && Faulted(|bytes|, fault)
    ensures r.text == DecodeAll(SplitLines(bytes[..r.bytesRead]).lines, decode)
    ensures r.exit == Underflow ==> SplitLines(bytes[..r.bytesRead]).danglingCr
    ensures SplitLines(bytes[..r.bytesRead]).danglingCr ==> r.exit in {Underflow, IoError}
    ensures r.counts ==
      if SplitLines(bytes[..r.bytesRead]).danglingCr then SawCr(Tally(SplitLines(bytes[..r.bytesRead]).lines))
      else Tally(SplitLines(bytes[..r.bytesRead]).lines)
    ensures r.lineEnding == if r.exit in {Underflow, IoError} then None else Some(Classify(r.counts))
    ensures r.polls + r.counts.winCr == r.bytesRead
    ensures r.exit == Cancelled ==> r.polls > 0 && cancelled(r.polls - 1)
    ensures forall i :: 0 <= i < r.polls && !(r.exit == Cancelled && i == r.polls - 1) ==> !cancelled(i)
    ensures UpdatesOrdered(r.updates, r.bytesRead)
    ensures |bytes| / ProgressBarSteps <= 1 ==> |r.updates| == r.polls
    ensures |bytes| / ProgressBarSteps >= 2 && NoOverflow(|bytes|) ==>
      UpdatesOnTimes(r.updates, |bytes| / ProgressBarSteps) &&
      (!SplitLines(bytes[..r.bytesRead]).danglingCr ==> FullSteps(|bytes| / ProgressBarSteps, |r.updates|, r.bytesRead))
  {
    var text, exit, counts, pos, polls, updates := ScanPrefix(bytes, Readable(|bytes|, fault), decode, cancelled);
    if exit != Cancelled && Faulted(|bytes|, fault) {
      exit := IoError;
    }
    var lineEnding := if exit in {Underflow, IoError} then None else Some(Classify(counts));
    r := LoadResult(text, exit, lineEnding, counts, pos, polls, updates);
  }

  // ---------------------------------------------------------------------------
  // Worked inputs

  /** The byte after a CR is swallowed with it: "a", CR, "b" is one span ending in a missing-LF error. */
  lemma CrSwallowsNextByte()
    ensures SplitLines([0x61, CR, 0x62]) == Split([Line([0x61], CrThen(0x62))], [], false)
    ensures Tally(SplitLines([0x61, CR, 0x62]).lines).errors == 1
  {
    var s: seq<bv8> := [0x61, CR, 0x62];
    assert FirstEol(s[1..]) == 0;
    assert FirstEol(s) == 1;
    assert s[3..] == [] && SplitLines([]) == Split([], [], false);
    assert s[..1] == [0x61] && s[2] != LF;
    assert SplitLines(s) == Prepend(Line([0x61], CrThen(0x62)), SplitLines([]));
  }

  /** CR, CR, LF: the first CR swallows the second, and the LF then counts as Unix, so the file is "mixed". */
  lemma CrCrLfIsMixed()
    ensures Classify(Tally(SplitLines([CR, CR, LF]).lines)) == MixCrLf
  {
    var s: seq<bv8> := [CR, CR, LF];
    var lf: seq<bv8> := [LF];
    assert FirstEol(s) == 0;
    assert FirstEol(lf) == 0 && lf[1..] == [] && SplitLines([]) == Split([], [], false);
    assert SplitLines(lf) == Prepend(Line([], Lf), SplitLines([]));
    assert s[2..] == lf;
    assert SplitLines(s) == Prepend(Line([], CrThen(CR)), SplitLines(lf));
  }

  // ---------------------------------------------------------------------------
  // The text never includes the bytes after the last terminator

  /** "a" with no terminator: no line is completed, so the load returns the empty text whatever the decoder. */
  lemma UnterminatedLastLineDropped(decode: seq<bv8> -> string)
    ensures SplitLines([0x61]).lines == [] && SplitLines([0x61]).tail == [0x61]
    ensures DecodeAll(SplitLines([0x61]).lines, decode) == ""
  {
    var s: seq<bv8> := [0x61];
    assert FirstEol(s[1..]) == 0;
  }

  /** The spans a complete load would decode: every line, then the tail when there is one. */
  function Spans(bytes: seq<bv8>): (ss: seq<seq<bv8>>)
    ensures |ss| == |SplitLines(bytes).lines| + (if SplitLines(bytes).tail == [] then 0 else 1)
  {
    var sp := SplitLines(bytes);
    LineSpans(sp.lines) + (if sp.tail == [] then [] else [sp.tail])
  }

  function LineSpans(ls: seq<Line>): (ss: seq<seq<bv8>>)
    ensures |ss| == |ls| && forall i :: 0 <= i < |ls| ==> ss[i] == LineBytes(ls[i])
  {
    seq(|ls|, i requires 0 <= i < |ls| => LineBytes(ls[i]))
  }

  function Flatten(ss: seq<seq<bv8>>): seq<bv8>
  {
    if ss == [] then [] else Flatten(ss[..|ss| - 1]) + ss[|ss| - 1]
  }

  function DecodeSpans(ss: seq<seq<bv8>>, decode: seq<bv8> -> string): string
  {
    if ss == [] then "" else DecodeSpans(ss[..|ss| - 1], decode) + decode(ss[|ss| - 1])
  }

  lemma {:induction false} LineSpansAgree(ls: seq<Line>, decode: seq<bv8> -> string)
    ensures Flatten(LineSpans(ls)) == Concat(ls)
    ensures DecodeSpans(LineSpans(ls), decode) == DecodeAll(ls, decode)
  {
    if ls != [] {
      var init := ls[..|ls| - 1];
      assert LineSpans(ls)[..|ls| - 1] == LineSpans(init);
      LineSpansAgree(init, decode);
    }
  }

  /** The text of a load that also decodes the unterminated tail. */
  function FullText(bytes: seq<bv8>, decode: seq<bv8> -> string): (t: string)
  {
    DecodeSpans(Spans(bytes), decode)
  }

  /**
   * The spans of a complete load cover the input exactly, and its text is
   * the text the task returns followed by the decoded tail.
   */
  lemma FullTextCoversInput(bytes: seq<bv8>, decode: seq<bv8> -> string)
    ensures Flatten(Spans(bytes)) == bytes
    ensures FullText(bytes, decode) ==
      DecodeAll(SplitLines(bytes).lines, decode) +
      (if SplitLines(bytes).tail == [] then "" else decode(SplitLines(bytes).tail))
  {
    var sp := SplitLines(bytes);
    var ls := LineSpans(sp.lines);
    LineSpansAgree(sp.lines, decode);
    SplitRoundTrip(bytes);
    if sp.tail != [] {
      assert (ls + [sp.tail])[..|ls|] == ls;
    } else {
      assert ls + [] == ls;
    }
  }

  // ---------------------------------------------------------------------------
  // A final CR leaves the file unclassified

  /** "a", CR: the CR is the last byte, so the read after it underflows and the label stays unset. */
  lemma FinalCrUnderflows()
    ensures SplitLines([0x61, CR]).danglingCr
  {
    var s: seq<bv8> := [0x61, CR];
    assert FirstEol(s[1..]) == 0;
    assert FirstEol(s) == 1;
  }

  /** The classification with a final CR counted as the CR it is. */
  function IntendedLineEnding(bytes: seq<bv8>): (e: LineEnding)
  {
    var sp := SplitLines(bytes);
    Classify(if sp.danglingCr then SawCr(Tally(sp.lines)) else Tally(sp.lines))
  }

  /**
   * Every input gets a label, stated on its lines: without a final CR it is
   * the label `ClassifyLines` describes, which the load task sets; a final
   * CR counts as a line that does not end in a bare LF.
   */
  lemma IntendedLineEndingAgrees(bytes: seq<bv8>)
    ensures var sp := SplitLines(bytes);
      IntendedLineEnding(bytes) == NoCrLf <==> sp.lines == [] && !sp.danglingCr
    ensures var sp := SplitLines(bytes);
      IntendedLineEnding(bytes) == UnixLf <==>
        sp.lines != [] && !sp.danglingCr && forall i :: 0 <= i < |sp.lines| ==> sp.lines[i].term.Lf?
    ensures var sp := SplitLines(bytes);
      IntendedLineEnding(bytes) == WinCrLf <==>
        (sp.lines != [] || sp.danglingCr) && forall i :: 0 <= i < |sp.lines| ==> !sp.lines[i].term.Lf?
    ensures var sp := SplitLines(bytes);
      IntendedLineEnding(bytes) == MixCrLf <==>
        (exists i :: 0 <= i < |sp.lines| && sp.lines[i].term.Lf?) &&
        (sp.danglingCr || exists j :: 0 <= j < |sp.lines| && !sp.lines[j].term.Lf?)
  {
    var sp := SplitLines(bytes);
    ClassifyLines(sp.lines);
    UnixCountPositive(sp.lines);
  }
}
