/**
 * The save task: the editor's text goes to the writer in slices of one
 * twentieth of its length, then one write for what is left, with a progress
 * update after every full slice. A write that throws ends the writing, and
 * the task still reports the full length as done and returns "OK".
 *
 * The writer is modelled by the text it has received; which write throws
 * (if any) is a parameter.
 */
module Saver {
  import opened Wrappers
  import Loader

  /** Below this length the text always goes out in one write. */
  const FileLenSplit := 10

  /** The value every save task returns. */
  const SaveDone := "OK"

  /** The slice length: 0 (one write) for short texts, else a twentieth of the text. */
  function SaveStep(len: nat): (step: nat)
    ensures step == 0 <==> len < Loader.ProgressBarSteps
    ensures step > 0 ==> Loader.ProgressBarSteps * step <= len < Loader.ProgressBarSteps * (step + 1)
  {
    if len < FileLenSplit then 0 else len / Loader.ProgressBarSteps
  }

  /** `writer.write(text, from, count)`. */
  datatype Write = Write(from: nat, count: nat)

  function End(w: Write): nat
  {
    w.from + w.count
  }

  /** The first `n` full slices of length `step`. */
  function FullWrites(step: nat, n: nat): (ws: seq<Write>)
    ensures |ws| == n
    ensures forall i :: 0 <= i < n ==> ws[i] == Write(Loader.Times(step, i), step)
  {
    if n == 0 then [] else FullWrites(step, n - 1) + [Write(Loader.Times(step, n - 1), step)]
  }

  /** The write for what the full slices leave over, if anything. */
  function Remainder(len: nat, step: nat): seq<Write>
    requires step > 0
  {
    if len % step == 0 then [] else [Write(len - len % step, len % step)]
  }

  /** The writes a save of a text of length `len` issues when none throws. */
  function SavePlan(len: nat): seq<Write>
  {
    var step := SaveStep(len);
    if step == 0 then [Write(0, len)] else FullWrites(step, len / step) + Remainder(len, step)
  }

  /** The full slices reach exactly the start of the remainder. */
  lemma QuotientTimes(len: nat, step: nat)
    requires step > 0
    ensures Loader.Times(step, len / step) == len - len % step
    ensures len < Loader.Times(step, len / step + 1)
  {
    Loader.TimesIsProduct(step, len / step);
    Loader.TimesIsProduct(step, len / step + 1);
  }

  lemma {:induction false} TimesMono(step: nat, a: nat, b: nat)
    requires a <= b
    ensures Loader.Times(step, a) <= Loader.Times(step, b)
  {
    if a < b {
      TimesMono(step, a, b - 1);
    }
  }

  /** Each write starts where the one before it ended. */
  predicate Contiguous(ws: seq<Write>)
  {
    forall i :: 0 <= i < |ws| - 1 ==> End(ws[i]) == ws[i + 1].from
  }

  /** The writes cover `[0, len)` exactly, one after the other. */
  lemma SavePlanCovers(len: nat)
    ensures |SavePlan(len)| >= 1 && SavePlan(len)[0].from == 0
    ensures Contiguous(SavePlan(len))
    ensures End(SavePlan(len)[|SavePlan(len)| - 1]) == len
  {
    var step := SaveStep(len);
    if step > 0 {
      var n := len / step;
      var plan := SavePlan(len);
      QuotientTimes(len, step);
      SavePlanCounts(len);
      assert plan[..n] == FullWrites(step, n);
      assert Loader.Times(step, n - 1) + step == Loader.Times(step, n);
    }
  }

  /**
   * With slicing on, there are `len / step` full slices, at least twenty, and
   * the remainder write (when there is one) is shorter than a slice.
   */
  lemma SavePlanCounts(len: nat)
    ensures SaveStep(len) == 0 ==> SavePlan(len) == [Write(0, len)]
    ensures SaveStep(len) > 0 ==>
      var step := SaveStep(len);
      var n := len / step;
      n >= Loader.ProgressBarSteps &&
      |SavePlan(len)| == n + (if len % step == 0 then 0 else 1) &&
      (forall i :: 0 <= i < n ==> SavePlan(len)[i] == Write(Loader.Times(step, i), step)) &&
      (len % step != 0 ==> SavePlan(len)[n].count == len % step < step)
  {
    var step := SaveStep(len);
    if step > 0 {
      var n := len / step;
      if n < Loader.ProgressBarSteps {
        Loader.MulMono(step, n + 1, Loader.ProgressBarSteps);
      }
    }
  }

  /** The text a writer holds after receiving the slices `ws` of `text`. */
  function Written(text: string, ws: seq<Write>): string
    requires forall i :: 0 <= i < |ws| ==> End(ws[i]) <= |text|
  {
    if ws == [] then ""
    else
      var w := ws[|ws| - 1];
      assert End(w) <= |text|;
      Written(text, ws[..|ws| - 1]) + text[w.from..End(w)]
  }

  /** Contiguous slices from 0 write exactly the text up to the last slice's end. */
  lemma {:induction false} WrittenPrefix(text: string, ws: seq<Write>)
    requires ws != [] && ws[0].from == 0 && Contiguous(ws)
    requires forall i :: 0 <= i < |ws| ==> End(ws[i]) <= |text|
    ensures Written(text, ws) == text[..End(ws[|ws| - 1])]
  {
    var w := ws[|ws| - 1];
    if |ws| > 1 {
      var init := ws[..|ws| - 1];
      WrittenPrefix(text, init);
      assert End(init[|init| - 1]) == w.from;
      assert text[..End(w)] == text[..w.from] + text[w.from..End(w)];
    }
  }

  /** In contiguous writes no end passes the last one. */
  lemma {:induction false} EndsBounded(ws: seq<Write>, len: nat)
    requires ws != [] && Contiguous(ws) && End(ws[|ws| - 1]) == len
    ensures forall i :: 0 <= i < |ws| ==> End(ws[i]) <= len
  {
    if |ws| > 1 {
      var init := ws[..|ws| - 1];
      assert End(init[|init| - 1]) == ws[|ws| - 1].from <= len;
      EndsBounded(init, End(init[|init| - 1]));
    }
  }

  /** A save in which no write throws leaves the whole text in the file. */
  lemma SavePlanWritesText(text: string)
    ensures forall i :: 0 <= i < |SavePlan(|text|)| ==> End(SavePlan(|text|)[i]) <= |text|
    ensures Written(text, SavePlan(|text|)) == text
  {
    var plan := SavePlan(|text|);
    SavePlanCovers(|text|);
    EndsBounded(plan, |text|);
    WrittenPrefix(text, plan);
  }

  /** How many writes of a plan of `n` happen when write `failAt` (if any) throws. */
  function Performed(n: nat, failAt: Option<nat>): (k: nat)
    ensures k <= n
    ensures k < n ==> failAt == Some(k)
    ensures k == n <==> failAt == None || failAt.value >= n
  {
    match failAt
    case None => n
    case Some(f) => if f < n then f else n
  }

  /** The progress reported after each of the first `n` full slices. */
  function Marks(step: nat, n: nat): (ms: seq<nat>)
    ensures |ms| == n
    ensures forall i :: 0 <= i < n ==> ms[i] == Loader.Times(step, i + 1)
  {
    if n == 0 then [] else Marks(step, n - 1) + [Loader.Times(step, n)]
  }

  /** The number of full slices among the first `k` writes of a save of length `len`. */
  function FullDone(len: nat, k: nat): nat
  {
    var step := SaveStep(len);
    if step == 0 then 0 else if k < len / step then k else len / step
  }

  /**
   * The save task. `content` is the editor's text (`None` when it has none,
   * saved as the empty text); write number `failAt` (counting from 0) throws,
   * if there is one. The writes are the first ones of the plan up to the one
   * that throws, the file holds the text up to the last of them, progress is
   * 0, then the end of every full slice written, then the whole length.
   */
  method SaveTask(content: Option<string>, failAt: Option<nat>)
    returns (writes: seq<Write>, written: string, progress: seq<nat>, result: string)
    ensures var text := if content.Some? then content.value else "";
      var plan := SavePlan(|text|);
      var k := Performed(|plan|, failAt);
      writes == plan[..k] &&
      (k > 0 ==> End(plan[k - 1]) <= |text|) &&
      written == (if k == 0 then "" else text[..End(plan[k - 1])]) &&
      progress == [0] + Marks(SaveStep(|text|), FullDone(|text|, k)) + [|text|]
    ensures failAt == None ==> written == if content.Some? then content.value else ""
    ensures result == SaveDone
  {
    var text := if content.Some? then content.value else "";
    var len := |text|;
    ghost var plan := SavePlan(len);
    SavePlanCovers(len);
    SavePlanCounts(len);
    progress := [0];
    var step := if len < FileLenSplit then 0 else len / Loader.ProgressBarSteps;
    writes, written := [], "";
    if step == 0 {
      if failAt != Some(0) {
        writes, written := [Write(0, len)], text[0..len];
        assert text[0..len] == text[..len];
      }
    } else {
      var marks;
      writes, written, marks := FullSlices(text, step, failAt);
      progress := progress + marks;
    }
    progress := progress + [len];
    result := SaveDone;
  }

  /** The sliced branch of the save task: the full-slice loop and the remainder write. */
  method FullSlices(text: string, step: nat, failAt: Option<nat>)
    returns (writes: seq<Write>, written: string, marks: seq<nat>)
    requires step == SaveStep(|text|) > 0
    ensures var plan := SavePlan(|text|);
      var k := Performed(|plan|, failAt);
      writes == plan[..k] &&
      (k > 0 ==> End(plan[k - 1]) <= |text|) &&
      written == (if k == 0 then "" else text[..End(plan[k - 1])]) &&
      marks == Marks(step, FullDone(|text|, k))
  {
    var len := |text|;
    var from, counter;
    writes, written, marks, from, counter := SliceLoop(text, step, failAt);
    ghost var plan := SavePlan(len);
    SavePlanCounts(len);
    QuotientTimes(len, step);
    if counter > len / step {
      TimesMono(step, len / step + 1, counter);
    }
    if from + step <= len {
      // Stopped by the failing write, before the slices ran out.
      assert writes == plan[..counter];
      return;
    }
    assert counter == len / step by {
      if counter < len / step {
        TimesMono(step, counter + 1, len / step);
      }
    }
    assert writes == plan[..counter];
    if len % step != 0 && failAt != Some(counter) {
      writes := writes + [Write(from, len % step)];
      written := written + text[from..len];
      assert plan == writes;
      assert text[..len] == text;
    }
  }

  /**
   * The full-slice loop: slices while one more fits, stopped early by the
   * failing write. It ends with a slice still fitting only when that write
   * is the next one.
   */
  method SliceLoop(text: string, step: nat, failAt: Option<nat>)
    returns (writes: seq<Write>, written: string, marks: seq<nat>, from: nat, counter: nat)
    requires step > 0
    ensures from == Loader.Times(step, counter) <= |text|
    ensures writes == FullWrites(step, counter) && written == text[..from] && marks == Marks(step, counter)
    ensures failAt.Some? ==> counter <= failAt.value
    ensures from + step <= |text| ==> failAt == Some(counter)
  {
    var len := |text|;
    from, counter := 0, 0;
    writes, written, marks := [], "", [];
    while from <= len - step
      invariant from == Loader.Times(step, counter) <= len
      invariant writes == FullWrites(step, counter)
      invariant written == text[..from]
      invariant marks == Marks(step, counter)
      invariant failAt.Some? ==> counter <= failAt.value
    {
      if failAt.Some? && failAt.value == counter {
        return;
      }
      NextSlice(step, counter);
      writes, written, marks := WriteSlice(text, from, step, writes, written, marks);
      counter := counter + 1;
      from := from + step;
    }
  }

  /** One more full slice extends the writes and the progress marks by one entry each. */
  lemma NextSlice(step: nat, n: nat)
    ensures FullWrites(step, n + 1) == FullWrites(step, n) + [Write(Loader.Times(step, n), step)]
    ensures Marks(step, n + 1) == Marks(step, n) + [Loader.Times(step, n) + step]
  {
  }

  /** One full slice: written, recorded, and its end reported as progress. */
  method WriteSlice(text: string, from: nat, step: nat, writes: seq<Write>, written: string, marks: seq<nat>)
    returns (writes': seq<Write>, written': string, marks': seq<nat>)
    requires from + step <= |text| && written == text[..from]
    ensures writes' == writes + [Write(from, step)]
    ensures written' == text[..from + step]
    ensures marks' == marks + [from + step]
  {
    written' := written + text[from..from + step];
    assert text[..from + step] == text[..from] + text[from..from + step];
    writes' := writes + [Write(from, step)];
    marks' := marks + [from + step];
  }

  /**
   * The progress a save reports between its first update (0) and its last
   * (the length) rises strictly, one slice at a time, and never passes the length.
   */
  lemma {:induction false} ProgressRises(len: nat, k: nat)
    ensures var step := SaveStep(len);
      var ms := Marks(step, FullDone(len, k));
      (forall i :: 0 <= i < |ms| - 1 ==> ms[i + 1] == ms[i] + step) &&
      (forall i :: 0 <= i < |ms| ==> 0 < ms[i] <= len)
  {
    var step := SaveStep(len);
    var n := FullDone(len, k);
    var ms := Marks(step, n);
    if step > 0 {
      QuotientTimes(len, step);
      forall i | 0 <= i < n
        ensures 0 < ms[i] <= len
      {
        TimesMono(step, 1, i + 1);
        TimesMono(step, i + 1, len / step);
      }
    }
  }
}
