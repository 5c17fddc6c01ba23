/**
 * Before a save, the editor keeps the previous versions of the file as
 * numbered backups beside it: "notes.bak", "notes(1).bak", ...,
 * "notes(N-1).bak", newest first. It deletes the oldest, moves every other
 * one a number up, and finally moves the file itself into the first slot.
 *
 * The file system is a map from path strings to nodes. The settings (how many
 * backups, their extension, whether to rotate at most once a day), today's
 * day number, the file's last-modified day (`None` when it cannot be read)
 * and which operations fail are parameters.
 */
module Backup {
  import opened Wrappers
  import opened Strings

  /** What a path names: a regular file with its bytes, a directory, or something else. */
  datatype Node = Regular(content: seq<bv8>) | Directory | Other

  type FileSystem = map<string, Node>

  datatype Settings = Settings(count: nat, ext: string, dailyOnly: bool)

  /**
   * The path without its extension: everything before the last dot of the
   * whole path, or the whole path when there is no dot or it is the first
   * character. A dot in a directory name counts too.
   */
  function Stem(path: string): (s: string)
    ensures LastIndexOf(path, '.') <= 0 ==> s == path
    ensures LastIndexOf(path, '.') > 0 ==>
      |s| < |path| && s == path[..|s|] && path[|s|] == '.' && '.' !in path[|s| + 1..]
  {
    var pos := LastIndexOf(path, '.');
    if pos <= 0 then path else path[..pos]
  }

  /** The number in a slot's name: none for slot 0, "(i)" otherwise. */
  function Counter(i: nat): (c: string)
    ensures i == 0 <==> c == ""
    ensures i > 0 ==> c[0] == '('
  {
    if i == 0 then "" else "(" + NatToString(i) + ")"
  }

  /** The name of backup slot `i`. */
  function SlotName(stem: string, i: nat, ext: string): string
  {
    stem + Counter(i) + "." + ext
  }

  /** Different slots have different names. */
  lemma SlotNamesDistinct(stem: string, ext: string, i: nat, j: nat)
    requires i != j
    ensures SlotName(stem, i, ext) != SlotName(stem, j, ext)
  {
    if SlotName(stem, i, ext) == SlotName(stem, j, ext) {
      SlotNameParts(stem, i, ext);
      SlotNameParts(stem, j, ext);
      CancelAround(stem, Counter(i), Counter(j), "." + ext);
      CounterInjective(i, j);
    }
  }

  /** A slot name is the stem, the counter, then a dot and the extension. */
  lemma SlotNameParts(stem: string, i: nat, ext: string)
    ensures SlotName(stem, i, ext) == stem + (Counter(i) + ("." + ext))
    ensures SlotName(stem, i, ext) == stem + Counter(i) + ("." + ext)
  {
  }

  lemma CounterInjective(i: nat, j: nat)
    requires Counter(i) == Counter(j)
    ensures i == j
  {
    if i > 0 && j > 0 {
      var c := Counter(i);
      assert c[1..|c| - 1] == NatToString(i);
      assert Counter(j)[1..|c| - 1] == NatToString(j);
      NatToStringInjective(i, j);
    }
  }

  /** Equal texts with the same prefix and suffix have the same middle. */
  lemma CancelAround(p: string, x: string, y: string, q: string)
    requires p + x + q == p + y + q
    ensures x == y
  {
    var a, b := p + x + q, p + y + q;
    assert |x| == |y|;
    assert x == a[|p|..|p| + |x|];
    assert y == b[|p|..|p| + |y|];
  }

  /** The names of slots 0 to n - 1. */
  function SlotNames(stem: string, ext: string, n: nat): (names: seq<string>)
    ensures |names| == n && forall i :: 0 <= i < n ==> names[i] == SlotName(stem, i, ext)
    ensures Distinct(names)
  {
    var names := seq(n, i requires 0 <= i => SlotName(stem, i, ext));
    assert forall a, b :: 0 <= a < b < n ==> names[a] != names[b] by {
      forall a, b | 0 <= a < b < n
        ensures names[a] != names[b]
      {
        SlotNamesDistinct(stem, ext, a, b);
      }
    }
    names
  }

  predicate Distinct(names: seq<string>)
  {
    forall a, b :: 0 <= a < b < |names| ==> names[a] != names[b]
  }

  /**
   * The file is one of its own backup slots exactly when it is slot 0: its
   * last dot is not its first character and the extension after that dot is
   * the backup extension.
   */
  lemma LiveIsSlotIff(path: string, i: nat, ext: string)
    ensures path == SlotName(Stem(path), i, ext) <==>
      i == 0 && LastIndexOf(path, '.') > 0 && path[LastIndexOf(path, '.') + 1..] == ext
  {
    var pos := LastIndexOf(path, '.');
    SlotNameParts(Stem(path), i, ext);
    if pos > 0 {
      CutAtDot(path, pos, i, ext);
    }
  }

  /** The slot-name comparison once the stem is known to end just before a dot at `pos`. */
  lemma CutAtDot(path: string, pos: nat, i: nat, ext: string)
    requires 0 < pos < |path| && path[pos] == '.'
    ensures path == path[..pos] + Counter(i) + ("." + ext) <==> i == 0 && path[pos + 1..] == ext
  {
    var rest := Counter(i) + ("." + ext);
    if path == path[..pos] + rest {
      assert rest == path[pos..];
      assert rest[0] == '.';
      assert Counter(i) == "";
      assert path[pos + 1..] == rest[1..];
    }
    if i == 0 && path[pos + 1..] == ext {
      assert path == path[..pos] + ("." + path[pos + 1..]);
    }
  }

  /**
   * The daily-only gate: with daily-only rotation the backups are left alone
   * when the last-modified time cannot be read, or when the file was last
   * modified today or later.
   */
  predicate DailyGateSkips(settings: Settings, today: int, modifiedDay: Option<int>)
  {
    settings.dailyOnly && (modifiedDay == None || modifiedDay.value - today >= 0)
  }

  /** The file the rotation works on is present and regular. */
  predicate RotatableFile(path: Option<string>, fs: FileSystem)
  {
    path != None && path.value in fs && fs[path.value].Regular?
  }

  /** One loop iteration on slot `j`: the oldest slot is deleted, any other moves one up. */
  function ShiftOne(m: FileSystem, names: seq<string>, j: nat): FileSystem
    requires j < |names|
  {
    if names[j] !in m then m
    else if j == |names| - 1 then m - {names[j]}
    else m[names[j + 1] := m[names[j]]] - {names[j]}
  }

  /** The file system once the loop has handled slots `|names| - 1` down to `j`. */
  function Shifted(fs: FileSystem, names: seq<string>, j: nat): FileSystem
    requires j <= |names|
    decreases |names| - j
  {
    if j == |names| then fs else ShiftOne(Shifted(fs, names, j + 1), names, j)
  }

  /** When the loop moves a slot up, the slot it moves into is free. */
  lemma ShiftedVacant(fs: FileSystem, names: seq<string>, j: nat)
    requires j < |names|
    ensures names[j] !in Shifted(fs, names, j)
  {
  }

  /**
   * After handling slots down to `j`: slots below `j` are untouched, slot `j`
   * is free, each slot above `j` holds what the slot below it held, and no
   * other path changed.
   */
  lemma {:induction false} ShiftedFacts(fs: FileSystem, names: seq<string>, j: nat)
    requires Distinct(names) && j <= |names|
    ensures var m := Shifted(fs, names, j);
      (forall i :: 0 <= i < j ==> (names[i] in m <==> names[i] in fs) && (names[i] in fs ==> m[names[i]] == fs[names[i]])) &&
      (j < |names| ==> names[j] !in m) &&
      (forall i :: j < i < |names| ==>
        (names[i] in m <==> names[i - 1] in fs) && (names[i - 1] in fs ==> m[names[i]] == fs[names[i - 1]])) &&
      (forall k :: k !in names ==> (k in m <==> k in fs) && (k in fs ==> m[k] == fs[k]))
    decreases |names| - j
  {
    if j < |names| {
      ShiftedFacts(fs, names, j + 1);
    }
  }

  /** A path that is no slot of the rotation is neither removed nor added by the loop. */
  lemma ShiftedKeepsOthers(fs: FileSystem, names: seq<string>, p: string)
    requires Distinct(names) && p !in names
    ensures p in Shifted(fs, names, 0) <==> p in fs
  {
    ShiftedFacts(fs, names, 0);
  }

  /** How a rotation ended. */
  datatype Outcome =
    | Skipped
      /** An operation failed once the loop had handled slots down to `level`; 0 is the final move. */
    | Aborted(level: nat)
    | Rotated

  /**
   * `renameFileToBackup`. `fail(s)` tells whether deleting or moving the file
   * at `s` throws. A move also fails when its target exists or its source
   * does not, and the final move has no target when there are no slots.
   */
  method RotateBackups(path: Option<string>, fs: FileSystem, settings: Settings, today: int,
                       modifiedDay: Option<int>, fail: string -> bool)
    returns (fs': FileSystem, outcome: Outcome)
    ensures !RotatableFile(path, fs) || DailyGateSkips(settings, today, modifiedDay) <==> outcome == Skipped
    ensures outcome == Skipped ==> fs' == fs
    ensures outcome != Skipped ==>
      var p := path.value;
      var names := SlotNames(Stem(p), settings.ext, settings.count);
      (outcome.Aborted? ==>
        var j := outcome.level;
        j <= settings.count && fs' == Shifted(fs, names, j) &&
        (j > 0 ==> fail(names[j - 1]) && names[j - 1] in fs') &&
        (j == 0 ==> settings.count == 0 || fail(p) || p !in fs')) &&
      (outcome == Rotated ==>
        settings.count > 0 && p in Shifted(fs, names, 0) &&
        fs' == Shifted(fs, names, 0)[names[0] := Shifted(fs, names, 0)[p]] - {p})
    ensures (RotatableFile(path, fs) && !DailyGateSkips(settings, today, modifiedDay) &&
             settings.count > 0 && (forall s :: !fail(s)) &&
             path.value !in SlotNames(Stem(path.value), settings.ext, settings.count)) ==> outcome == Rotated
  {
    fs' := fs;
    if path == None {
      return fs', Skipped;
    }
    var p := path.value;
    if p in fs && fs[p].Directory? {
      return fs', Skipped;
    }
    if p !in fs {
      return fs', Skipped;
    }
    if !fs[p].Regular? {
      return fs', Skipped;
    }
    if settings.dailyOnly {
      if modifiedDay == None {
        return fs', Skipped;
      }
      if modifiedDay.value - today >= 0 {
        return fs', Skipped;
      }
    }
    fs', outcome := Rotate(p, fs, settings, fail);
  }

  /**
   * The rotation proper, once the guards and the gate have let it through:
   * the loop over the slots, then the move of the file into slot 0.
   */
  method Rotate(p: string, fs: FileSystem, settings: Settings, fail: string -> bool)
    returns (fs': FileSystem, outcome: Outcome)
    ensures outcome != Skipped
    ensures var names := SlotNames(Stem(p), settings.ext, settings.count);
      (outcome.Aborted? ==>
        var j := outcome.level;
        j <= settings.count && fs' == Shifted(fs, names, j) &&
        (j > 0 ==> fail(names[j - 1]) && names[j - 1] in fs') &&
        (j == 0 ==> settings.count == 0 || fail(p) || p !in fs')) &&
      (outcome == Rotated ==>
        settings.count > 0 && p in Shifted(fs, names, 0) &&
        fs' == Shifted(fs, names, 0)[names[0] := Shifted(fs, names, 0)[p]] - {p})
    ensures (p in fs && settings.count > 0 && (forall s :: !fail(s)) &&
             p !in SlotNames(Stem(p), settings.ext, settings.count)) ==> outcome == Rotated
  {
    var stem := Stem(p);
    ghost var names := SlotNames(stem, settings.ext, settings.count);
    var level;
    fs', level := ShiftSlots(fs, stem, settings.ext, settings.count, names, fail);
    if level > 0 {
      return fs', Aborted(level);
    }
    if p !in names {
      ShiftedKeepsOthers(fs, names, p);
    }
    if settings.count == 0 || fail(p) || p !in fs' {
      return fs', Aborted(0);
    }
    var slot0 := SlotName(stem, 0, settings.ext);
    ShiftedVacant(fs, names, 0);
    // The target of the final move is free, so only `fail` and a missing source abort it.
    fs' := fs'[slot0 := fs'[p]] - {p};
    outcome := Rotated;
  }

  /**
   * The loop of the rotation: slots from `count - 1` down to 0, the oldest
   * deleted, each other one moved into the slot above, which the iteration
   * before has just freed. `level` is 0 when every iteration succeeded, and
   * otherwise one more than the slot whose delete or move failed.
   */
  method ShiftSlots(fs: FileSystem, stem: string, ext: string, count: nat, ghost names: seq<string>,
                    fail: string -> bool)
    returns (fs': FileSystem, level: nat)
    requires names == SlotNames(stem, ext, count)
    ensures level <= count && fs' == Shifted(fs, names, level)
    ensures level > 0 ==> fail(names[level - 1]) && names[level - 1] in fs'
  {
    fs' := fs;
    var oldest := true;
    var previous: Option<string> := None;
    var i := count;
    while i > 0
      invariant 0 <= i <= count
      invariant fs' == Shifted(fs, names, i)
      invariant oldest <==> i == count
      invariant i < count ==> previous == Some(names[i])
    {
      i := i - 1;
      var name := SlotName(stem, i, ext);
      if name in fs' {
        if oldest {
          if fail(name) {
            return fs', i + 1;
          }
          fs' := fs' - {name};
        } else {
          var target := previous.value;
          ShiftedVacant(fs, names, i + 1);
          if fail(name) || target in fs' {
            return fs', i + 1;
          }
          fs' := fs'[target := fs'[name]] - {name};
        }
      }
      oldest := false;
      previous := Some(name);
    }
    level := 0;
  }

  /**
   * A full rotation of a file that is not one of its own slots, with at
   * least one slot: the file's content is in slot 0, each slot above holds
   * what the slot below it held (so the oldest backup is gone), the file's
   * own path is free, and every other path is as it was.
   */
  lemma RotationEffect(fs: FileSystem, p: string, names: seq<string>)
    requires Distinct(names) && |names| > 0 && p !in names && p in fs
    ensures p in Shifted(fs, names, 0)
    ensures var m := Shifted(fs, names, 0)[names[0] := Shifted(fs, names, 0)[p]] - {p};
      names[0] in m && m[names[0]] == fs[p] &&
      (forall i :: 0 < i < |names| ==>
        (names[i] in m <==> names[i - 1] in fs) && (names[i - 1] in fs ==> m[names[i]] == fs[names[i - 1]])) &&
      p !in m &&
      (forall k :: k != p && k !in names ==> (k in m <==> k in fs) && (k in fs ==> m[k] == fs[k]))
  {
    ShiftedFacts(fs, names, 0);
  }
}
