# FileContentEditor, modelled in Dafny

This project models the logic inside `FileContentEditor`. That class is the editor pane of a JavaFX text editor. It loads a file in a background task that scans the bytes one at a time. The scan counts line terminators, decodes the text one line span at a time, reports progress and polls for cancellation. At the end it labels the file's line-ending style: "Win CRLF", "Unix LF", "Mix CR LF" or "no CR LF)". The class also does several other jobs:

- it saves the text through a writer, in slices of a twentieth of its length;
- before a save, it rotates numbered backups: `notes.bak`, `notes(1).bak`, ...;
- it splits its path into directory, name and extension;
- it counts, finds and replaces text;
- it keeps a "modified" flag, which a content listener sets and the load and save handlers clear.

The model has one module per concern, in one file each:

| file | module | what it holds |
|---|---|---|
| `wrappers.dfy` | `Wrappers` | `Option` |
| `strings.dfy` | `Strings` | the `String` methods the editor uses: `lastIndexOf`, `indexOf(str, from)`, integer rendering |
| `line_split.dfy` | `LineSplit` | the line structure the scan imposes on bytes, stated as a recursive split, with its round trip and counters |
| `loader.dfy` | `Loader` | the load task: the scan loop as a method, the progress cadence, the classification, and the findings about it |
| `saver.dfy` | `Saver` | the save task: the slice plan, the write loop as a method, progress, and a write that may throw |
| `path_parts.dfy` | `PathParts` | `parseFilePath` |
| `find_replace.dfy` | `FindReplace` | `find`, `replace`, `replaceAll` |
| `backup.dfy` | `Backup` | `renameFileToBackup` on a file system modelled as a map from path strings to nodes |
| `editor.dfy` | `Editor` | the modified-flag and listener machine, the open and save pre-checks, and the `FileEditor` class with its handlers |

The scan loop, the save loop, the rotation loop and the find-all loop are `method`s with `while` loops and invariants. Each is proved against a specification function:

- the scan against `LineSplit.SplitLines`;
- the save against `Saver.SavePlan`;
- the rotation against `Backup.Shifted`;
- find-all against `FindReplace.Positions`.

The editor object is a class whose handler methods update its fields. The classification, the names, the pre-checks and the replacement text are functions.

Everything the class gets from outside is a parameter:

- the charset decoder, as a function from a byte span to its text;
- the cancellation flag, where `cancelled(i)` is the answer at the i-th poll;
- which write of a save throws;
- whether the load's file channel fails to open or map, or which byte's read throws;
- which file-system operations fail;
- today's day number and the file's last-modified day;
- the platform's path separator;
- the caret position;
- the facts about a path (exists, is a directory, is readable, is writable, size, and the exceptions its checks throw).

The backup settings (how many slots, their extension, daily-only) are parameters as well. The settings class that holds them is not part of this model.

In a few places the code does something other than what an editor of this kind would be expected to do. The model follows the code:

- **Bytes after a CR.** The byte after a CR is consumed with it and never examined as a CR or an LF. So "a", CR, "b" is a single span that ends in a missing-LF error (`Loader.CrSwallowsNextByte`). And CR, CR, LF counts as one Windows line plus one Unix line (`Loader.CrCrLfIsMixed`).
- **Trailing bytes.** One would expect the bytes after the last terminator to be decoded as the last line. The code never decodes them (Finding 1 below).
- **One-write saves.** The save tests for texts under 10 characters (`INT_FILE_LEN_SPLIT`) to write them in one call. In the code the slice length `len / 20` is also 0 for lengths 10 to 19, so every text under 20 characters goes out in one write (`Saver.SaveStep`).
- **Failed writes.** One would expect a failed write to fail the save. In the code the save task catches the exception, still reports the full length as progress, and returns "OK" (`Saver.SaveTask`). Only a charset lookup that throws before the writer opens makes the task fail (see "## Left out").
- **Backup eviction.** Take three slots, with `f.bak` and `f(1).bak` present. One might expect the rotation to evict `f(1).bak` to make room. In the code the oldest slot, `f(2).bak`, is free, so nothing is deleted:
  - `f(1).bak` moves to `f(2).bak`;
  - `f.bak` moves to `f(1).bak`;
  - the file moves to `f.bak`.

  `Backup.RotationEffect` states this: each slot above 0 holds what the slot below it held.

## Model

| member | source | states |
|---|---|---|
| Strings.LastIndexOf | src/main/java/com/olexyarm/jfxfilecontenteditor/FileContentEditor.java:884 | the result is -1 or an index holding the character, and no later index holds it |
| Strings.IndexOf | src/main/java/com/olexyarm/jfxfilecontenteditor/FileContentEditor.java:755 | the result is -1 exactly when the search text does not occur at or after `from`; otherwise it is the first occurrence at or after `from` |
| Strings.NatToString | src/main/java/com/olexyarm/jfxfilecontenteditor/FileContentEditor.java:1040 | the decimal rendering is non-empty, all digits, and one digit exactly below 10 |
| Strings.NatToStringInjective | src/main/java/com/olexyarm/jfxfilecontenteditor/FileContentEditor.java:1040 | different numbers render differently |
| LineSplit.SplitRoundTrip | src/main/java/com/olexyarm/jfxfilecontenteditor/FileContentEditor.java:355-396 | the split lines laid end to end, then the tail, give back the input: terminators stay inside their line's span |
| LineSplit.SplitWellFormed | src/main/java/com/olexyarm/jfxfilecontenteditor/FileContentEditor.java:363-380 | every line's body is free of CR and LF; a CR-then-byte terminator never swallows an LF; the tail holds no terminator except a final dangling CR |
| LineSplit.Unsplit | src/main/java/com/olexyarm/jfxfilecontenteditor/FileContentEditor.java:355-396 | any well-formed lines followed by a tail split back into exactly those lines and that tail: the split is unique |
| LineSplit.TallyIdentities | src/main/java/com/olexyarm/jfxfilecontenteditor/FileContentEditor.java:363-380 | lines == CR count + Unix count; CR+LF count + missing-LF count == CR count; errors == missing-LF count; the Unix count is the number of bare-LF lines |
| LineSplit.UnixCountPositive | src/main/java/com/olexyarm/jfxfilecontenteditor/FileContentEditor.java:376-380 | the Unix counter is positive exactly when some line ends in a bare LF |
| LineSplit.CountLfAll | src/main/java/com/olexyarm/jfxfilecontenteditor/FileContentEditor.java:376-380 | the bare-LF lines are at most all lines, and are all lines exactly when every line ends in a bare LF |
| Loader.Label | src/main/java/com/olexyarm/jfxfilecontenteditor/FileContentEditor.java:72-76 | none of the four labels is the "WIP" placeholder |
| Loader.Classify | src/main/java/com/olexyarm/jfxfilecontenteditor/FileContentEditor.java:452-460 | each label holds exactly when its condition on the CR and Unix counters does: both positive, only CR, only Unix, neither |
| Loader.ClassifyLines | src/main/java/com/olexyarm/jfxfilecontenteditor/FileContentEditor.java:452-460 | the label in terms of the lines: none for no lines; Unix iff all bare LF; Windows iff none bare LF; mixed iff both kinds occur |
| Loader.Wrap32 | src/main/java/com/olexyarm/jfxfilecontenteditor/FileContentEditor.java:398 | the 32-bit result is in `int` range and congruent to the exact product modulo 2^32 |
| Loader.ProgressDue | src/main/java/com/olexyarm/jfxfilecontenteditor/FileContentEditor.java:397-398 | with a step of 0 or 1 the test always fires; while the threshold fits an `int` it fires exactly when `step == 1` or the bytes read reach `step * counter` |
| Loader.TimesIsProduct | src/main/java/com/olexyarm/jfxfilecontenteditor/FileContentEditor.java:398 | the threshold grown one step per update is `step * n` |
| Loader.CadenceAsProduct | src/main/java/com/olexyarm/jfxfilecontenteditor/FileContentEditor.java:397-414 | the k-th update lies between `step * (k + 1)` and one byte past it |
| Loader.FullStepsQuotient | src/main/java/com/olexyarm/jfxfilecontenteditor/FileContentEditor.java:397-414 | the number of updates is the number of whole steps read, `bytesRead / step` |
| Loader.ReportProgress | src/main/java/com/olexyarm/jfxfilecontenteditor/FileContentEditor.java:397-415 | an iteration adds no update or one update of the current byte count, and keeps the progress invariant: the updates are ordered, one per iteration for steps 0 and 1, on the step cadence otherwise |
| Loader.Commit | src/main/java/com/olexyarm/jfxfilecontenteditor/FileContentEditor.java:381-396 | appending the span since the mark adds one well-formed line, its decoded text and its counter bump |
| Loader.Settle | src/main/java/com/olexyarm/jfxfilecontenteditor/FileContentEditor.java:381-396 | the completed lines and the unterminated rest are exactly the split of the bytes read |
| Loader.ReadStep | src/main/java/com/olexyarm/jfxfilecontenteditor/FileContentEditor.java:360-396 | one iteration's reads: it underflows exactly on a CR as the last byte; otherwise it reads one or two bytes, two exactly when the first is a CR, closes a line exactly when the first is CR or LF, and keeps the scan state tied to the split |
| Loader.Scan | src/main/java/com/olexyarm/jfxfilecontenteditor/FileContentEditor.java:355-431 | the loop ends at the end of the bytes unless cancelled; every iteration that does not underflow is polled, so the polls plus the CRs counted are the bytes read; a cancel is the first poll answering yes; text and counters are those of the completed lines; the progress updates are ordered and on the cadence of the file size's step |
| Loader.ScanPrefix | src/main/java/com/olexyarm/jfxfilecontenteditor/FileContentEditor.java:348-431 | the scan of the bytes that can be read: its text, counters and underflow are those of the split of the bytes it read; polls, cancellation and progress as in Scan |
| Loader.Load | src/main/java/com/olexyarm/jfxfilecontenteditor/FileContentEditor.java:328-460 | text == the decoded completed lines of the bytes read; unless cancelled, all bytes up to a channel fault (or the whole file) are read; an I/O error exit iff a fault strikes and no poll cancelled first; a final CR of the bytes read means an underflow or that fault; both exit through the catch and set no label; otherwise the label classifies the counters; the polls plus the CRs counted are the bytes read; progress as in Scan |
| Loader.CrSwallowsNextByte | src/main/java/com/olexyarm/jfxfilecontenteditor/FileContentEditor.java:363-375 | "a", CR, "b" is one line, with body "a" and terminator CR-then-"b", and one error |
| Loader.CrCrLfIsMixed | src/main/java/com/olexyarm/jfxfilecontenteditor/FileContentEditor.java:363-380 | CR, CR, LF is labelled "Mix CR LF" |
| Loader.UnterminatedLastLineDropped | src/main/java/com/olexyarm/jfxfilecontenteditor/FileContentEditor.java:381-396 | for the single byte "a" no line is completed, so the returned text is empty whatever the decoder |
| Loader.Spans | src/main/java/com/olexyarm/jfxfilecontenteditor/FileContentEditor.java:381-396 | one span per line, plus one for a non-empty tail |
| Loader.FullTextCoversInput | src/main/java/com/olexyarm/jfxfilecontenteditor/FileContentEditor.java:381-396 | the spans of a complete load cover the input exactly, and its text is the task's text followed by the decoded tail |
| Loader.FinalCrUnderflows | src/main/java/com/olexyarm/jfxfilecontenteditor/FileContentEditor.java:363-369 | "a", CR ends in a dangling CR, so the load underflows and sets no label |
| Loader.IntendedLineEndingAgrees | src/main/java/com/olexyarm/jfxfilecontenteditor/FileContentEditor.java:451-460 | the corrected label in terms of the lines, both directions: none iff no line and no final CR, Unix iff every line ends in a bare LF and no CR dangles, Windows iff no line ends in a bare LF and there is a line or a final CR, mixed iff both kinds occur, a final CR counting as a CR line; without a final CR this is the label the task sets |
| Saver.SaveStep | src/main/java/com/olexyarm/jfxfilecontenteditor/FileContentEditor.java:554-559 | the slice length is 0 exactly when the length is below 20; otherwise 20 slices fit and 21 do not |
| Saver.FullWrites | src/main/java/com/olexyarm/jfxfilecontenteditor/FileContentEditor.java:580-584 | the i-th full write starts at `i * step` and has length `step` |
| Saver.SavePlanCovers | src/main/java/com/olexyarm/jfxfilecontenteditor/FileContentEditor.java:554-616 | the planned writes start at 0, each starts where the one before ended, and the last ends at the length |
| Saver.SavePlanCounts | src/main/java/com/olexyarm/jfxfilecontenteditor/FileContentEditor.java:554-616 | a short text gets one write `(0, len)`; otherwise there are `len / step` full slices (at least 20), then a remainder write shorter than a slice exactly when the remainder is non-zero |
| Saver.WrittenPrefix | src/main/java/com/olexyarm/jfxfilecontenteditor/FileContentEditor.java:580-607 | contiguous writes from 0 leave the text up to the last write's end |
| Saver.SavePlanWritesText | src/main/java/com/olexyarm/jfxfilecontenteditor/FileContentEditor.java:569-616 | a save with no failing write leaves exactly the text in the file |
| Saver.Performed | src/main/java/com/olexyarm/jfxfilecontenteditor/FileContentEditor.java:568-622 | the number of writes that happen is at most the plan's; fewer exactly when a write inside the plan throws, and then it is that write's index |
| Saver.SaveTask | src/main/java/com/olexyarm/jfxfilecontenteditor/FileContentEditor.java:532-629 | the writes are the plan up to the failing one; the file holds the text up to the last write; progress is 0, each full slice's end, then the length; with no failure the file holds the whole text; the result is "OK" (the charset lookup before the `try` is assumed not to throw) |
| Saver.FullSlices | src/main/java/com/olexyarm/jfxfilecontenteditor/FileContentEditor.java:577-616 | the sliced branch: full writes while `from <= len - step`, then the remainder, stopped by a failing write, with a progress mark per full slice |
| Saver.SliceLoop | src/main/java/com/olexyarm/jfxfilecontenteditor/FileContentEditor.java:580-604 | the loop leaves `counter` full slices written, the text up to `counter * step` in the file and one mark per slice; it stops with a slice still fitting only at the failing write |
| Saver.NextSlice | src/main/java/com/olexyarm/jfxfilecontenteditor/FileContentEditor.java:581-585 | one more iteration adds the write `(counter * step, step)` and the mark `(counter + 1) * step` |
| Saver.WriteSlice | src/main/java/com/olexyarm/jfxfilecontenteditor/FileContentEditor.java:582-585 | one full slice extends the file by `text[from..from + step]` and reports `from + step` |
| Saver.ProgressRises | src/main/java/com/olexyarm/jfxfilecontenteditor/FileContentEditor.java:580-586 | the progress marks rise by exactly one step each and stay within (0, len] |
| PathParts.NameExt | src/main/java/com/olexyarm/jfxfilecontenteditor/FileContentEditor.java:893-899 | the extension is empty exactly when there is no dot, the dot is at index 0, or it is the last character; a non-empty one has no dot and the name ends with "." + ext |
| PathParts.ParseFilePath | src/main/java/com/olexyarm/jfxfilecontenteditor/FileContentEditor.java:873-910 | no path gives four empty strings; with no separator the directory is "" and the name is the path; otherwise dir + sep + name == path; the name has no separator; the extension is the name's |
| PathParts.ParseJoined | src/main/java/com/olexyarm/jfxfilecontenteditor/FileContentEditor.java:884-891 | parsing a directory, a separator and a separator-free name gives that directory and that name back |
| PathParts.NameExtExamples | src/main/java/com/olexyarm/jfxfilecontenteditor/FileContentEditor.java:893-899 | "notes.txt" has extension "txt"; ".profile" and "draft." have none |
| PathParts.ParseExample | src/main/java/com/olexyarm/jfxfilecontenteditor/FileContentEditor.java:873-910 | "/home/u/notes.txt" parses into "/home/u", "notes.txt" and "txt" |
| FindReplace.Positions | src/main/java/com/olexyarm/jfxfilecontenteditor/FileContentEditor.java:753-765 | every picked position is an occurrence at or after `from`, and successive ones do not overlap |
| FindReplace.PositionsMaximal | src/main/java/com/olexyarm/jfxfilecontenteditor/FileContentEditor.java:753-765 | every occurrence at or after `from` is picked or overlaps a picked one |
| FindReplace.PositionsEmpty | src/main/java/com/olexyarm/jfxfilecontenteditor/FileContentEditor.java:753-765 | some occurrence is picked exactly when the search text occurs |
| FindReplace.CountAll | src/main/java/com/olexyarm/jfxfilecontenteditor/FileContentEditor.java:751-765 | the find-all loop counts exactly the greedy non-overlapping occurrences |
| FindReplace.Find | src/main/java/com/olexyarm/jfxfilecontenteditor/FileContentEditor.java:739-787 | -1 for a missing or empty search text or text; find-all gives the occurrence count; a single find gives 1 iff the search text occurs anywhere, else 0 |
| FindReplace.ReplacePos | src/main/java/com/olexyarm/jfxfilecontenteditor/FileContentEditor.java:805-819 | -1 iff the search text does not occur; otherwise an occurrence: the first from the caret when there is one there, else the first in the text |
| FindReplace.Replace | src/main/java/com/olexyarm/jfxfilecontenteditor/FileContentEditor.java:790-837 | -1 with the text unchanged for a missing or empty argument; 0 iff the search text does not occur; otherwise 1, the prefix and suffix kept, the replacement in place, the length changed by `|repl| - |find|` |
| FindReplace.ReplaceAllFuel | src/main/java/com/olexyarm/jfxfilecontenteditor/FileContentEditor.java:840-848 | a run that stops does so within its budget of replaces |
| FindReplace.OccursInside | src/main/java/com/olexyarm/jfxfilecontenteditor/FileContentEditor.java:820-827 | an occurrence in the inserted replacement is an occurrence in the new text |
| FindReplace.ReplaceAllDiverges | src/main/java/com/olexyarm/jfxfilecontenteditor/FileContentEditor.java:840-848 | when the replacement contains the search text and the text does too, no budget of replaces ever stops |
| FindReplace.ReplaceAllAbsent | src/main/java/com/olexyarm/jfxfilecontenteditor/FileContentEditor.java:840-848 | when the search text does not occur, `replaceAll` stops at once with count 0 and the text unchanged |
| FindReplace.ReplaceEveryIdentity | src/main/java/com/olexyarm/jfxfilecontenteditor/FileContentEditor.java:840-848 | the corrected single pass with the search text as its own replacement returns the text unchanged |
| FindReplace.ReplaceEveryAbsent | src/main/java/com/olexyarm/jfxfilecontenteditor/FileContentEditor.java:840-848 | with no occurrence left, the corrected pass copies the rest of the text |
| FindReplace.Gaps | src/main/java/com/olexyarm/jfxfilecontenteditor/FileContentEditor.java:753-765 | the text between successive picked occurrences: one piece more than there are occurrences |
| FindReplace.GapsFree | src/main/java/com/olexyarm/jfxfilecontenteditor/FileContentEditor.java:753-765 | no piece between picked occurrences contains the search text |
| FindReplace.GapsJoin | src/main/java/com/olexyarm/jfxfilecontenteditor/FileContentEditor.java:840-848 | the corrected pass is the pieces between the picked occurrences joined by the replacement: each occurrence replaced, the text between them kept |
| FindReplace.GapsJoinOriginal | src/main/java/com/olexyarm/jfxfilecontenteditor/FileContentEditor.java:753-765 | the pieces joined by the search text give back the text |
| FindReplace.ReplaceEveryLength | src/main/java/com/olexyarm/jfxfilecontenteditor/FileContentEditor.java:840-848 | the corrected pass changes the length by `|repl| - |find|` per picked occurrence |
| FindReplace.ReplaceAll | src/main/java/com/olexyarm/jfxfilecontenteditor/FileContentEditor.java:840-848 | the corrected `replaceAll`: 0 with the text unchanged for a rejected or absent search; otherwise the number of non-overlapping occurrences, and the new text is the original's occurrence-free pieces joined by the replacement instead of the search text, with the length changed by `|repl| - |find|` per replace |
| Backup.Stem | src/main/java/com/olexyarm/jfxfilecontenteditor/FileContentEditor.java:1024-1029 | the whole path when its last dot is missing or first; otherwise the path just before its last dot, a dot in a directory name included |
| Backup.Counter | src/main/java/com/olexyarm/jfxfilecontenteditor/FileContentEditor.java:1037-1041 | the counter is empty exactly for slot 0, and otherwise starts with "(" |
| Backup.SlotNamesDistinct | src/main/java/com/olexyarm/jfxfilecontenteditor/FileContentEditor.java:1037-1042 | different slots get different names |
| Backup.SlotNames | src/main/java/com/olexyarm/jfxfilecontenteditor/FileContentEditor.java:1035-1043 | the N slot names, in slot order, pairwise distinct |
| Backup.LiveIsSlotIff | src/main/java/com/olexyarm/jfxfilecontenteditor/FileContentEditor.java:1024-1042 | the file is one of its own slots exactly when it is slot 0: its last dot is not first and its extension is the backup extension |
| Backup.ShiftedVacant | src/main/java/com/olexyarm/jfxfilecontenteditor/FileContentEditor.java:1044-1075 | each move target is vacant when the loop moves into it |
| Backup.ShiftedFacts | src/main/java/com/olexyarm/jfxfilecontenteditor/FileContentEditor.java:1035-1076 | after the loop reaches slot j: lower slots untouched, slot j free, each higher slot holds the old content of the slot below, every other path unchanged |
| Backup.ShiftedKeepsOthers | src/main/java/com/olexyarm/jfxfilecontenteditor/FileContentEditor.java:1035-1076 | the loop neither adds nor removes a path that is no slot |
| Backup.ShiftSlots | src/main/java/com/olexyarm/jfxfilecontenteditor/FileContentEditor.java:1032-1076 | the loop leaves the state reached after handling slots down to `level`; a non-zero level names the slot whose delete or move failed, still present |
| Backup.RotateBackups | src/main/java/com/olexyarm/jfxfilecontenteditor/FileContentEditor.java:962-1091 | it skips, changing nothing, exactly when the path is missing, not a regular file, or stopped by the daily gate; an abort keeps the steps already applied; a full rotation is the shifted slots plus the file moved into slot 0; with no failures, at least one slot and the file not a slot, it rotates |
| Backup.Rotate | src/main/java/com/olexyarm/jfxfilecontenteditor/FileContentEditor.java:1021-1086 | past the guards: an abort at level j keeps the state after slots down to j, with the failing slot still present, or at level 0 a missing slot list, a failing or missing file; a full rotation moves the file into slot 0 of the shifted slots; with no failures, a present file that is no slot and at least one slot, it rotates |
| Backup.RotationEffect | src/main/java/com/olexyarm/jfxfilecontenteditor/FileContentEditor.java:1035-1086 | after a full rotation: slot 0 holds the file's content, each higher slot the old content of the one below (the oldest is gone), the file's path is free, every other path is unchanged |
| Editor.Step | src/main/java/com/olexyarm/jfxfilecontenteditor/FileContentEditor.java:179-191 | only an edit with a listener attached sets the flag; every completion handler and the save start clear it; scheduling takes one listener off; a successful load and an ended save put one back; only a failed load makes the text read-only |
| Editor.RunAppend | src/main/java/com/olexyarm/jfxfilecontenteditor/FileContentEditor.java:179-191 | two stretches of events run one after the other are the same as one run |
| Editor.RunEdits | src/main/java/com/olexyarm/jfxfilecontenteditor/FileContentEditor.java:179-191 | edits keep the listeners and set the flag exactly when some listener is attached |
| Editor.TaskCycleBalanced | src/main/java/com/olexyarm/jfxfilecontenteditor/FileContentEditor.java:633-714 | a scheduled-then-succeeded load, or a scheduled-then-ended save, restores the listener count and leaves the text unmodified |
| Editor.EditsDuringSaveForgotten | src/main/java/com/olexyarm/jfxfilecontenteditor/FileContentEditor.java:633-714 | with any number of listeners attached, edits made while a save runs leave the text unmodified when it ends, and the listener count as it was |
| Editor.LoadFailureDetaches | src/main/java/com/olexyarm/jfxfilecontenteditor/FileContentEditor.java:1139-1158 | with one listener attached, after a failed load none is: later edits never set the flag, and the text is read-only |
| Editor.OpenPrecheck | src/main/java/com/olexyarm/jfxfilecontenteditor/FileContentEditor.java:240-283 | the load goes ahead exactly when there is a path to an existing, non-directory, readable file of at most `Integer.MAX_VALUE` bytes; otherwise the message of the first failed check, stated for each check: null path, missing file, directory, not readable, too big with its size |
| Editor.SizeLabel | src/main/java/com/olexyarm/jfxfilecontenteditor/FileContentEditor.java:284-295 | empty up to 1024 bytes, whole KB up to 1024 KB, whole MB beyond |
| Editor.SizeLabelUnits | src/main/java/com/olexyarm/jfxfilecontenteditor/FileContentEditor.java:288-295 | the unit is MB exactly from 1025 * 1024 bytes and KB exactly between 1025 bytes and that |
| Editor.CanSaveFile | src/main/java/com/olexyarm/jfxfilecontenteditor/FileContentEditor.java:913-959 | no reason exactly when there is a path, a missing file could be created, nothing threw, it is not a directory and it is writable; otherwise, by case: "File is null", the creation exception, the access exception, "File is directory" for any directory that gets past those, and for a file that is not writable "Could not save Read-only File" when it is readable and "Could not save not writable File" when it is not |
| Editor.FileEditor.constructor | src/main/java/com/olexyarm/jfxfilecontenteditor/FileContentEditor.java:123-191 | a new editor has its path parsed and the name label set to the parsed name, one listener attached, nothing modified and the "WIP" label |
| Editor.FileEditor.EditText | src/main/java/com/olexyarm/jfxfilecontenteditor/FileContentEditor.java:179-191 | the text changes and the flags follow an edit event; nothing else changes |
| Editor.FileEditor.IsFileModified | src/main/java/com/olexyarm/jfxfilecontenteditor/FileContentEditor.java:1267-1273 | true exactly when there is a path and the flag is set |
| Editor.FileEditor.OpenFile | src/main/java/com/olexyarm/jfxfilecontenteditor/FileContentEditor.java:233-283 | the pre-check's message, also shown as the status, or "" when the load starts; the flags and text are unchanged |
| Editor.FileEditor.OnLoadScheduled | src/main/java/com/olexyarm/jfxfilecontenteditor/FileContentEditor.java:1110-1124 | the flags follow the load-scheduled event: one listener off; the status shows the task's message |
| Editor.FileEditor.OnLoadSucceeded | src/main/java/com/olexyarm/jfxfilecontenteditor/FileContentEditor.java:1160-1204 | for a task that was not cancelled (a cancelled one never reaches this handler): the task's text replaces the content, the label follows the task's line ending, one listener is put back, the flag is cleared and the status shows the task's last message |
| Editor.FileEditor.OnLoadFailed | src/main/java/com/olexyarm/jfxfilecontenteditor/FileContentEditor.java:1139-1158 | the last message, then "\nFile=" with the file name parsed at construction, then the hint to try another charset, becomes the text and the status; the text is read-only and unmodified; no listener is put back |
| Editor.FileEditor.SaveFile | src/main/java/com/olexyarm/jfxfilecontenteditor/FileContentEditor.java:500-728 | it starts exactly for "save as" or when `canSaveFile` gives no reason; a refusal shows the reason and changes no flag; "save as" takes and parses the new path; a started save clears the flag |
| Editor.FileEditor.OnSaveScheduled | src/main/java/com/olexyarm/jfxfilecontenteditor/FileContentEditor.java:633-651 | the flags follow the save-scheduled event: one listener off; the status shows the service's message |
| Editor.FileEditor.OnSaveDone | src/main/java/com/olexyarm/jfxfilecontenteditor/FileContentEditor.java:665-714 | failed or succeeded, one listener is put back, the flag is cleared and the task's message is shown |

## Left out

- JavaFX: the text area, labels, progress bar, layout, fonts, wrapping, and the caret and focus listeners. Only the modified flag, the number of content-listener registrations and the editable flag are kept.
- The content listener is an invalidation listener, and JavaFX fires it only after the text has been read again. The model marks the text modified on every edit while a listener is attached.
- Threading: tasks, services and threads. Each worker-state handler is one method, run in whatever order the caller chooses.
- Charsets: the charset decoder is an uninterpreted function on byte spans, and the encoding a writer uses is not modelled. The writer is modelled by the text it has received.
- File-system calls: `Files.*`, memory mapping and file channels. Their answers are parameters, and the backup file system is a map. For the load, a failure of the channel is the `Loader.Fault` parameter: it fails to open or map, or the read of one byte throws. The clock and `LocalDate.now()` are parameters.
- The settings class is not part of this model. The backup count, extension and daily-only flag are parameters, and backups are assumed enabled.
- The status messages the tasks post (`updateMessage`), the timing and all logging.
- Firing the file-read event to the tab pane.
- `openFileBinary`, `newFile`, `closeFile` and `getFileSize`: they only set a flag, a label or the widget, or ask the file system.
- Loader.ProgressDue: states nothing about when it fires once `step * counter` overflows an `int`, because the wrapped product is then no longer the intended threshold (`Loader.Wrap32` still models the wrap).
- Loader.Load: states its progress cadence only for files where the last threshold fits an `int` (`NoOverflow`), for the same reason.
- Loader.Scan: a throw from the decoder is not modelled, because the decoder replaces malformed input and does not fail. The underflow on a final CR and a channel fault are the exits through the catch. A channel that fails to open and one whose first read fails give the same result, so they are not told apart beyond the `Fault` value.
- Loader.Load: the charset lookup and decoder set-up (lines 312-316) run before the `try` at line 348. If they throw, the task fails and `onFailed` runs, which is what `Editor.FileEditor.OnLoadFailed` models. `Load` itself does not model that outcome; it assumes the configured charset exists.
- Saver.SaveTask: `Charset.forName` (line 567) runs before the `try` at line 568. If it throws, the task fails with no "OK" and the file is untouched, which reaches `Editor.FileEditor.OnSaveDone` with failure. `SaveTask` does not model that outcome; it assumes the configured charset exists.
- Loader.Load: `updates` holds the progress updates of the loop. The `updateProgress(0, size)` before the loop (line 310) is not in it, whereas `Saver.SaveTask`'s progress starts with its initial 0.
- Text lengths and positions: Java strings are sequences of UTF-16 code units, and a Dafny `string` is a sequence of Unicode scalar values. So the save's `len / 20`, its slice bounds, the caret and the find positions agree with the source only for text in the Basic Multilingual Plane. A character outside it is one element here and two code units there.
- Editor.FileEditor.OnLoadScheduled: the status label is bound to the task's message. The model sets the status to the message current when the handler runs, not to the later messages the binding goes on to show. The same holds for Editor.FileEditor.OnSaveScheduled and the save service's message.
- FindReplace.ReplaceAllFuel: the unbounded loop of `replaceAll` as written is modelled with a budget of replaces (`fuel`). The caret of each later replace is a parameter, because the source moves it through the text area.
- Editor.FileEditor.SaveFile: the backup rotation and the save task it starts are the separate members `Backup.RotateBackups` and `Saver.SaveTask`, not calls inside it.
- Editor.FileEditor.OnLoadSucceeded: the task result itself is a parameter. The successful handler's fallback to "" when `get()` throws is not modelled.

## Findings

| source | as written | input that shows it | evidently intended | confidence | as-written member | corrected member |
|---|---|---|---|---|---|---|
| src/main/java/com/olexyarm/jfxfilecontenteditor/FileContentEditor.java:381-396 | spans are decoded only when a terminator completes them, and there is no flush after the loop | the one-byte file "a": the load returns "" | the bytes after the last terminator are decoded and appended too | not executed | Loader.UnterminatedLastLineDropped | Loader.FullTextCoversInput |
| src/main/java/com/olexyarm/jfxfilecontenteditor/FileContentEditor.java:367 | after a CR the next byte is read unconditionally, and a CR as the last byte underflows into the catch, which returns before the classification | the file "a", CR: no line-ending label is set | a final CR counts as a line end and the file is labelled. The corrected member fixes only the label: the text of the CR-terminated last line is still lost in the task, and `Loader.FullText` of the first finding is what decodes it, the dangling CR being part of the tail | not executed | Loader.FinalCrUnderflows | Loader.IntendedLineEndingAgrees |
| src/main/java/com/olexyarm/jfxfilecontenteditor/FileContentEditor.java:844 | `replaceAll` calls `replace` until it fails, and `replace` searches again from the start of the new text | text "a", find "a", replace with "aa": no number of replaces ever finishes | each occurrence of the original text is replaced once, and the count is returned | not executed | FindReplace.ReplaceAllDiverges | FindReplace.ReplaceAll |
