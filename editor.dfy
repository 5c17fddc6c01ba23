/**
 * The editor of one file: its path and the parts parsed from it, the text
 * in the text area, whether that text has been modified since the last load
 * or save, and how many times the content listener (the one that marks the
 * text modified) is attached to the text area. Loading and saving run as
 * background tasks whose scheduled, succeeded and failed handlers update
 * this state; here each handler is one method, run in whatever order the
 * caller chooses.
 *
 * The file system is seen through facts about the path (exists, is a
 * directory, is readable, ...), given as parameters.
 */
module Editor {
  import opened Wrappers
  import opened Strings
  import PathParts
  import Loader

  // ---------------------------------------------------------------------------
  // The modified flag and the content listener

  /** The part of the editor's state the load and save handlers change. */
  datatype Flags = Flags(modified: bool, listeners: nat, editable: bool)

  /** The state of a freshly constructed editor: one listener attached, nothing modified. */
  const Initial := Flags(false, 1, true)

  datatype Event =
    | Edit              // the text area's text changes (typing, replace, set text)
    | LoadScheduled     // the load task is scheduled
    | LoadSucceeded     // the load task succeeded (after its text is put in place)
    | LoadFailed        // the load task failed (after its message is put in place)
    | SaveStarted       // `saveFile` has started the save service
    | SaveScheduled     // the save task is scheduled
    | SaveFailed        // the save task failed
    | SaveSucceeded     // the save task succeeded

  /**
   * One event. `removeListener` takes away one registration if there is
   * one; `addListener` adds one more even when one is already there.
   */
  function Step(f: Flags, e: Event): (g: Flags)
    ensures g.modified && !f.modified ==> e == Edit && f.listeners > 0
    ensures e == Edit ==> g.listeners == f.listeners && (g.modified <==> f.modified || f.listeners > 0)
    ensures e in {LoadSucceeded, LoadFailed, SaveStarted, SaveFailed, SaveSucceeded} ==> !g.modified
    ensures e in {LoadScheduled, SaveScheduled} ==> g.listeners == if f.listeners == 0 then 0 else f.listeners - 1
    ensures e in {LoadSucceeded, SaveFailed, SaveSucceeded} ==> g.listeners == f.listeners + 1
    ensures !g.editable <==> !f.editable || e == LoadFailed
  {
    match e
    case Edit => if f.listeners > 0 then f.(modified := true) else f
    case LoadScheduled => f.(listeners := if f.listeners == 0 then 0 else f.listeners - 1)
    case LoadSucceeded => f.(listeners := f.listeners + 1, modified := false)
    case LoadFailed => f.(editable := false, modified := false)
    case SaveStarted => f.(modified := false)
    case SaveScheduled => f.(listeners := if f.listeners == 0 then 0 else f.listeners - 1)
    case SaveFailed => f.(listeners := f.listeners + 1, modified := false)
    case SaveSucceeded => f.(listeners := f.listeners + 1, modified := false)
  }

  /** A run of events, first to last. */
  function Run(f: Flags, es: seq<Event>): Flags
  {
    if es == [] then f else Step(Run(f, es[..|es| - 1]), es[|es| - 1])
  }

  /** Running two stretches of events one after the other is running them together. */
  lemma {:induction false} RunAppend(f: Flags, es: seq<Event>, ds: seq<Event>)
    ensures Run(f, es + ds) == Run(Run(f, es), ds)
    decreases |ds|
  {
    if ds != [] {
      assert (es + ds)[..|es + ds| - 1] == es + ds[..|ds| - 1];
      assert (es + ds)[|es + ds| - 1] == ds[|ds| - 1];
      RunAppend(f, es, ds[..|ds| - 1]);
    } else {
      assert es + ds == es;
    }
  }

  /** Edits only: the listener count stays, and the flag is set exactly when some listener is attached. */
  lemma {:induction false} RunEdits(f: Flags, es: seq<Event>)
    requires forall i :: 0 <= i < |es| ==> es[i] == Edit
    ensures Run(f, es).listeners == f.listeners && Run(f, es).editable == f.editable
    ensures Run(f, es).modified <==> f.modified || (|es| > 0 && f.listeners > 0)
  {
    if es != [] {
      RunEdits(f, es[..|es| - 1]);
    }
  }

  /**
   * A load that succeeds, or a save that fails or succeeds, gives back the
   * listener its scheduling took away, as long as one was attached; the text
   * is then unmodified.
   */
  lemma TaskCycleBalanced(f: Flags, scheduled: Event, done: Event)
    requires f.listeners > 0
    requires (scheduled == LoadScheduled && done == LoadSucceeded) ||
             (scheduled == SaveScheduled && done in {SaveFailed, SaveSucceeded})
    ensures Run(f, [scheduled, done]) == f.(modified := false)
  {
    assert [scheduled, done][..1] == [scheduled];
    assert [scheduled][..0] == [];
    assert Run(f, [scheduled]) == Step(f, scheduled);
  }

  /**
   * Edits made while a save runs are forgotten: the save task's handlers
   * take one listener off for its duration, and when it ends put it back
   * and clear the flag, whatever the edits did to it.
   */
  lemma EditsDuringSaveForgotten(f: Flags, edits: seq<Event>, done: Event)
    requires f.listeners > 0
    requires done in {SaveFailed, SaveSucceeded}
    requires forall i :: 0 <= i < |edits| ==> edits[i] == Edit
    ensures Run(f, [SaveScheduled] + edits + [done]) == f.(modified := false)
  {
    var g := Step(f, SaveScheduled);
    assert Run(f, [SaveScheduled]) == g by {
      assert [SaveScheduled][..0] == [];
    }
    RunAppend(f, [SaveScheduled], edits);
    RunEdits(g, edits);
    var h := Run(f, [SaveScheduled] + edits);
    assert h.listeners + 1 == f.listeners && h.editable == f.editable;
    var es := [SaveScheduled] + edits + [done];
    assert es[..|es| - 1] == [SaveScheduled] + edits;
  }

  /**
   * After a failed load with a single listener, none is attached: no later
   * edit marks the text modified (the text area is also read-only then).
   */
  lemma LoadFailureDetaches(f: Flags, edits: seq<Event>)
    requires f.listeners == 1
    requires forall i :: 0 <= i < |edits| ==> edits[i] == Edit
    ensures var g := Run(f, [LoadScheduled, LoadFailed] + edits);
      g.listeners == 0 && !g.modified && !g.editable
  {
    var h := Run(f, [LoadScheduled, LoadFailed]);
    assert [LoadScheduled, LoadFailed][..1] == [LoadScheduled];
    assert [LoadScheduled][..0] == [];
    RunAppend(f, [LoadScheduled, LoadFailed], edits);
    RunEdits(h, edits);
  }

  // ---------------------------------------------------------------------------
  // Pre-checks

  /** What `openFile` learns about its path before it starts the load. */
  datatype OpenFacts = OpenFacts(present: bool, isDirectory: bool, readable: bool, size: nat)

  /** `Integer.MAX_VALUE`: a longer file does not fit the load task's `int` size. */
  const MaxFileSize := 0x7FFF_FFFF

  function Quoted(p: string): string
  {
    " pathFile=\"" + p + "\""
  }

  /**
   * The message `openFile` stops with, or `None` when it goes on to load:
   * no path, no file, a directory, not readable, or too big, in that order.
   */
  function OpenPrecheck(path: Option<string>, facts: OpenFacts): (msg: Option<string>)
    ensures msg == None <==>
      path != None && facts.present && !facts.isDirectory && facts.readable && facts.size <= MaxFileSize
    ensures path == None ==> msg == Some("Could not open file with Path null.")
    ensures path != None && !facts.present ==> msg == Some("File does not exist." + Quoted(path.value))
    ensures path != None && facts.present && facts.isDirectory ==>
      msg == Some("Could not read file, it's a directory." + Quoted(path.value))
    ensures path != None && facts.present && !facts.isDirectory && !facts.readable ==>
      msg == Some("File is not readable." + Quoted(path.value))
    ensures path != None && facts.present && !facts.isDirectory && facts.readable && facts.size > MaxFileSize ==>
      msg == Some("File is too big. FileSize=" + NatToString(facts.size) + Quoted(path.value))
  {
    if path == None then Some("Could not open file with Path null.")
    else if !facts.present then Some("File does not exist." + Quoted(path.value))
    else if facts.isDirectory then Some("Could not read file, it's a directory." + Quoted(path.value))
    else if !facts.readable then Some("File is not readable." + Quoted(path.value))
    else if facts.size > MaxFileSize then Some("File is too big. FileSize=" + NatToString(facts.size) + Quoted(path.value))
    else None
  }

  /**
   * The size text `openFile` computes for its log line: nothing up to 1024
   * bytes, whole kilobytes up to 1024 of them, whole megabytes beyond.
   */
  function SizeLabel(size: nat): (shown: string)
    ensures shown == "" <==> size <= 1024
    ensures 1024 < size && size / 1024 <= 1024 ==> shown == NatToString(size / 1024) + "KB"
    ensures size / 1024 > 1024 ==> shown == NatToString(size / 1024 / 1024) + "MB"
  {
    var kb := if size > 1024 then size / 1024 else 0;
    if kb > 1024 then NatToString(kb / 1024) + "MB"
    else if size > 1024 then NatToString(kb) + "KB"
    else ""
  }

  /** The unit shown follows the size: kilobytes from 1025 bytes, megabytes from 1025 kilobytes. */
  lemma SizeLabelUnits(size: nat)
    ensures SizeLabel(size) != "" ==>
      var unit := SizeLabel(size)[|SizeLabel(size)| - 2..];
      (unit == "MB" <==> size >= 1025 * 1024) && (unit == "KB" <==> 1024 < size < 1025 * 1024)
  {
    var l := SizeLabel(size);
    if size / 1024 > 1024 {
      assert l[|l| - 2..] == "MB";
    } else if size > 1024 {
      assert l[|l| - 2..] == "KB";
    }
  }

  /** What `canSaveFile` learns about its path; the `Option` facts are exception texts. */
  datatype SaveFacts = SaveFacts(
    present: bool, createFault: Option<string>, accessFault: Option<string>,
    isDirectory: bool, writable: bool, readable: bool)

  /**
   * The reason a save cannot go ahead, or `None`. A missing file is created
   * first; an exception while looking at the file reports its text.
   */
  function CanSaveFile(path: Option<string>, facts: SaveFacts): (reason: Option<string>)
    ensures reason == None <==>
      path != None && (facts.present || facts.createFault == None) &&
      facts.accessFault == None && !facts.isDirectory && facts.writable
    ensures path != None && !facts.present && facts.createFault != None ==>
      reason == Some("Create File exception:" + facts.createFault.value)
    ensures path == None ==> reason == Some("File is null")
    ensures path != None && (facts.present || facts.createFault == None) && facts.accessFault != None ==>
      reason == Some("File save exception:" + facts.accessFault.value)
    ensures (path != None && (facts.present || facts.createFault == None) && facts.accessFault == None &&
             facts.isDirectory) ==> reason == Some("File is directory")
    ensures path != None && (facts.present || facts.createFault == None) && facts.accessFault == None &&
            !facts.isDirectory && !facts.writable ==>
      reason == Some(if facts.readable then "Could not save Read-only File" else "Could not save not writable File")
  {
    if path == None then Some("File is null")
    else if !facts.present && facts.createFault != None then Some("Create File exception:" + facts.createFault.value)
    else if facts.accessFault != None then Some("File save exception:" + facts.accessFault.value)
    else if facts.isDirectory then Some("File is directory")
    else if facts.writable then None
    else if facts.readable then Some("Could not save Read-only File")
    else Some("Could not save not writable File")
  }

  // ---------------------------------------------------------------------------
  // The editor

  class FileEditor {
    var path: Option<string>
    var parts: PathParts.Parts
    var content: string
    var modified: bool
    var listeners: nat
    var editable: bool
    var lineEnding: string
    var status: string
    const separator: char
    /** The file name the name label shows: parsed once at construction, kept by "save as". */
    const fileLabel: string

    function State(): Flags
      reads this
    {
      Flags(modified, listeners, editable)
    }

    /** A new editor for `path`: its parts parsed, one listener attached, nothing modified yet. */
    constructor(path: Option<string>, separator: char)
      ensures this.path == path && this.separator == separator
      ensures parts == PathParts.ParseFilePath(path, separator) && fileLabel == parts.name
      ensures State() == Initial && content == "" && lineEnding == Loader.WorkInProgress
    {
      this.path := path;
      this.separator := separator;
      parts := PathParts.ParseFilePath(path, separator);
      fileLabel := PathParts.ParseFilePath(path, separator).name;
      content := "";
      modified := false;
      listeners := 1;
      editable := true;
      lineEnding := Loader.WorkInProgress;
      status := "";
    }

    /** The text changes; it is marked modified when the listener is attached. */
    method EditText(text: string)
      modifies this
      ensures content == text && State() == Step(old(State()), Edit)
      ensures path == old(path) && parts == old(parts) && lineEnding == old(lineEnding) && status == old(status)
    {
      content := text;
      if listeners > 0 {
        modified := true;
      }
    }

    /** `isFileModified`: an editor without a path is never modified. */
    method IsFileModified() returns (b: bool)
      ensures b <==> path != None && modified
    {
      if path == None {
        return false;
      }
      return modified;
    }

    /**
     * `openFile` up to starting the load: the pre-check message, also shown
     * as the status, or "" when the load goes ahead.
     */
    method OpenFile(facts: OpenFacts) returns (msg: string)
      modifies this
      ensures OpenPrecheck(path, facts) == None ==> msg == "" && status == old(status)
      ensures OpenPrecheck(path, facts) != None ==> msg == OpenPrecheck(path, facts).value && status == msg
      ensures path == old(path) && parts == old(parts) && content == old(content)
      ensures State() == old(State()) && lineEnding == old(lineEnding)
    {
      var check := OpenPrecheck(path, facts);
      if check != None {
        status := check.value;
        return check.value;
      }
      return "";
    }

    /**
     * The load task is scheduled: the listener is taken off and the status
     * label is bound to the task's message, `message` when the handler runs.
     */
    method OnLoadScheduled(message: string)
      modifies this
      ensures State() == Step(old(State()), LoadScheduled) && status == message
      ensures path == old(path) && parts == old(parts) && content == old(content) && lineEnding == old(lineEnding)
    {
      if listeners > 0 {
        listeners := listeners - 1;
      }
      status := message;
    }

    /**
     * The load task succeeded: its text replaces the content (the listener is
     * still off, so this is no edit), the label it set is kept, the listener
     * is put back, the text is unmodified, and the status label, unbound,
     * shows the task's last message.
     */
    method OnLoadSucceeded(r: Loader.LoadResult, message: string)
      requires r.exit != Loader.Cancelled
      modifies this
      ensures content == r.text && State() == Step(old(State()), LoadSucceeded) && status == message
      ensures lineEnding == if r.lineEnding == None then old(lineEnding) else Loader.Label(r.lineEnding.value)
      ensures path == old(path) && parts == old(parts)
    {
      status := message;
      if r.lineEnding != None {
        lineEnding := Loader.Label(r.lineEnding.value);
      }
      content := r.text;
      listeners := listeners + 1;
      modified := false;
    }

    /**
     * The load task failed: its last message, the file name of the name label
     * and a hint to try another charset become the text and the unbound status,
     * read-only and unmodified, and the listener stays off.
     */
    method OnLoadFailed(message: string)
      modifies this
      ensures content == message + "\nFile=" + fileLabel + "\nTry to Open File with different Charset or Open File Binary."
      ensures status == content && State() == Step(old(State()), LoadFailed)
      ensures path == old(path) && parts == old(parts) && lineEnding == old(lineEnding)
    {
      var shown := message + "\nFile=" + fileLabel + "\nTry to Open File with different Charset or Open File Binary.";
      status := shown;
      content := shown;
      editable := false;
      modified := false;
    }

    /**
     * `saveFile` up to starting the save task. Saving in place first asks
     * `canSaveFile` and stops with its reason; "save as" takes the new path
     * and parses it. Either way a started save clears the modified flag.
     */
    method SaveFile(saveAs: Option<string>, facts: SaveFacts) returns (ok: bool)
      modifies this
      ensures ok <==> saveAs != None || CanSaveFile(old(path), facts) == None
      ensures !ok ==> status == CanSaveFile(old(path), facts).value && State() == old(State()) && path == old(path)
      ensures ok ==> State() == Step(old(State()), SaveStarted) && status == old(status)
      ensures ok && saveAs != None ==> path == saveAs && parts == PathParts.ParseFilePath(saveAs, separator)
      ensures saveAs == None ==> path == old(path) && parts == old(parts)
      ensures content == old(content) && lineEnding == old(lineEnding)
    {
      if saveAs == None {
        var reason := CanSaveFile(path, facts);
        if reason != None {
          status := reason.value;
          return false;
        }
      } else {
        path := saveAs;
        parts := PathParts.ParseFilePath(saveAs, separator);
      }
      modified := false;
      return true;
    }

    /**
     * The save task is scheduled: the listener is taken off, and the status
     * label is cleared and then bound to the service's message, `message`
     * when the handler runs.
     */
    method OnSaveScheduled(message: string)
      modifies this
      ensures State() == Step(old(State()), SaveScheduled) && status == message
      ensures path == old(path) && parts == old(parts) && content == old(content) && lineEnding == old(lineEnding)
    {
      if listeners > 0 {
        listeners := listeners - 1;
      }
      status := message;
    }

    /** The save task ended, failed or succeeded: the listener goes back on and the text is unmodified. */
    method OnSaveDone(succeeded: bool, message: string)
      modifies this
      ensures State() == Step(old(State()), if succeeded then SaveSucceeded else SaveFailed)
      ensures status == message
      ensures path == old(path) && parts == old(parts) && content == old(content) && lineEnding == old(lineEnding)
    {
      listeners := listeners + 1;
      modified := false;
      status := message;
    }
  }
}
