/**
 * How the editor splits its file path into directory, file name and
 * extension: at the last separator, then at the last dot of the name. The
 * separator is a parameter (it is the platform's `File.separator`).
 */
module PathParts {
  import opened Wrappers
  import opened Strings

  /** The path as text and the three parts the editor keeps beside it. */
  datatype Parts = Parts(path: string, dir: string, name: string, ext: string)

  /**
   * The extension of a file name: what follows its last dot, and nothing when
   * there is no dot, when the only dot that counts starts the name (a hidden
   * file such as ".profile"), or when the dot ends the name.
   */
  function NameExt(name: string): (ext: string)
    ensures ext == "" <==>
      var p := LastIndexOf(name, '.');
      p <= 0 || p == |name| - 1
    ensures ext != "" ==>
      '.' !in ext && |ext| + 1 < |name| && name[|name| - |ext| - 1..] == "." + ext
  {
    var p := LastIndexOf(name, '.');
    // The last test can never hold, as the last dot is at most at |name| - 1;
    // a dot at the end gives the empty extension through the slice instead.
    if p < 0 || p == 0 || p == |name| then "" else name[p + 1..]
  }

  /** The parts of the path, or four empty strings when there is no path. */
  function ParseFilePath(path: Option<string>, sep: char): (r: Parts)
    ensures path == None ==> r == Parts("", "", "", "")
    ensures path != None ==> r.path == path.value
    ensures path != None && sep !in path.value ==> r.dir == "" && r.name == path.value
    ensures path != None && sep in path.value ==> r.dir + [sep] + r.name == path.value
    ensures sep !in r.name
    ensures r.ext == NameExt(r.name)
  {
    match path
    case None => Parts("", "", "", "")
    case Some(p) =>
      var pos := LastIndexOf(p, sep);
      var dir := if pos < 0 then "" else p[..pos];
      var name := if pos < 0 then p else p[pos + 1..];
      assert pos >= 0 ==> p == p[..pos] + [sep] + p[pos + 1..];
      Parts(p, dir, name, NameExt(name))
  }

  /** Putting a directory and a separator-free name together and parsing gives them back. */
  lemma ParseJoined(dir: string, name: string, sep: char)
    requires sep !in name
    ensures var r := ParseFilePath(Some(dir + [sep] + name), sep);
      r.dir == dir && r.name == name && r.ext == NameExt(name)
  {
    var p := dir + [sep] + name;
    var pos := LastIndexOf(p, sep);
    assert p[|dir|] == sep;
    assert pos == |dir|;
    assert p[..pos] == dir;
    assert p[pos + 1..] == name;
  }

  /** The extension rule on three names: an ordinary one, a hidden file, and a trailing dot. */
  lemma NameExtExamples()
    ensures NameExt("notes.txt") == "txt"
    ensures NameExt(".profile") == ""
    ensures NameExt("draft.") == ""
  {
    var n := "notes.txt";
    assert n[5] == '.' && n[6..] == "txt";
    var h := ".profile";
    assert h[0] == '.' && '.' !in h[1..];
    var d := "draft.";
    assert d[5] == '.';
  }

  /** "/home/u/notes.txt" with '/' has directory "/home/u", name "notes.txt" and extension "txt". */
  lemma ParseExample()
    ensures ParseFilePath(Some("/home/u/notes.txt"), '/') ==
      Parts("/home/u/notes.txt", "/home/u", "notes.txt", "txt")
  {
    var dir, name := "/home/u", "notes.txt";
    assert dir + ['/'] + name == "/home/u/notes.txt";
    ParseJoined(dir, name, '/');
    NameExtExamples();
  }
}
