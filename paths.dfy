/** The Windows path handling the importer relies on: ntpath.basename and
    ntpath.splitext as Python 2.7 defines them, the "_backup" and "_temp"
    names placed beside the .gpf file, and the list of control files taken
    from the command line, plain or in the AutoIt "Directory|file1|file2"
    form. Paths are strings; "/" and "\" both separate components. */
module Paths {
  import opened Outcomes
  import Text

  predicate IsSep(c: char) {
    c == '/' || c == '\\'
  }

  predicate NoSep(s: string) {
    forall i :: 0 <= i < |s| ==> !IsSep(s[i])
  }

  /** Length of a drive prefix such as "C:" (ntpath.splitdrive without UNC names). */
  function DriveLength(p: string): nat
  {
    if |p| > 1 && p[1] == ':' then 2 else 0
  }

  /** The index just after the last separator of `t`, or 0 when there is none. */
  function NameStart(t: string): (i: nat)
    ensures i <= |t| && NoSep(t[i..])
    ensures i == 0 || IsSep(t[i - 1])
    decreases |t|
  {
    if t == [] then 0
    else if IsSep(t[|t| - 1]) then |t|
    else
      var i := NameStart(t[..|t| - 1]);
      assert t[i..] == t[..|t| - 1][i..] + [t[|t| - 1]];
      i
  }

  /** ntpath.basename(p): what follows the last separator, after the drive. */
  function BaseName(p: string): (b: string)
    ensures |b| <= |p| - DriveLength(p) && b == p[|p| - |b|..] && NoSep(b)
    ensures |b| == |p| - DriveLength(p) || IsSep(p[|p| - |b| - 1])
  {
    var d := DriveLength(p);
    var t := p[d..];
    var i := NameStart(t);
    assert t[i..] == p[d + i..];
    t[i..]
  }

  /** The base name of a file inside a directory is the file's own name. */
  lemma BaseNameOfJoin(dir: string, name: string)
    requires dir != [] && NoSep(name)
    ensures BaseName(dir + "/" + name) == name
  {
    var p := dir + "/" + name;
    var d := DriveLength(p);
    assert d <= |dir| by {
      if |dir| == 1 {
        assert p[1] == '/';
      }
    }
    assert p[d..] == dir[d..] + "/" + name;
    NameStartOfJoin(dir[d..], name);
    assert p[d..][|dir| - d + 1..] == name;
  }

  /** The start of the last component of `dir + "/" + name`. */
  lemma NameStartOfJoin(dir: string, name: string)
    requires NoSep(name)
    ensures NameStart(dir + "/" + name) == |dir| + 1
  {
    var p := dir + "/" + name;
    assert p[|dir| + 1..] == name;
    assert p[|dir|] == '/';
    NameStartIs(p, |dir| + 1);
  }

  /** The index after the last separator is fixed by its defining properties. */
  lemma NameStartIs(t: string, i: nat)
    requires i <= |t| && NoSep(t[i..]) && (i == 0 || IsSep(t[i - 1]))
    ensures NameStart(t) == i
  {
    var j := NameStart(t);
    forall k | i <= k < |t| ensures !IsSep(t[k]) {
      assert t[k] == t[i..][k - i];
    }
    forall k | j <= k < |t| ensures !IsSep(t[k]) {
      assert t[k] == t[j..][k - j];
    }
  }

  /** Python's str.rfind for one character: the last index holding `c`, or -1. */
  function LastIndexOf(p: string, c: char): (r: int)
    ensures -1 <= r < |p|
    ensures r >= 0 ==> p[r] == c
    ensures forall k :: r < k < |p| ==> p[k] != c
    decreases |p|
  {
    if p == [] then -1
    else if p[|p| - 1] == c then |p| - 1
    else LastIndexOf(p[..|p| - 1], c)
  }

  function Max(a: int, b: int): int
  {
    if a < b then b else a
  }

  /** ntpath.splitext(p): the extension is the part from the last '.' on,
      provided that dot comes after the last separator and something other
      than a dot precedes it in the last component ("a/.cfg" has no extension). */
  function SplitExt(p: string): (r: (string, string))
    ensures r.0 + r.1 == p
    ensures r.1 == [] || (r.1[0] == '.' && NoSep(r.1) && forall k :: 1 <= k < |r.1| ==> r.1[k] != '.')
  {
    var sepIndex := Max(LastIndexOf(p, '\\'), LastIndexOf(p, '/'));
    var dotIndex := LastIndexOf(p, '.');
    if dotIndex > sepIndex && exists k :: sepIndex + 1 <= k < dotIndex && p[k] != '.' then
      assert p[..dotIndex] + p[dotIndex..] == p;
      (p[..dotIndex], p[dotIndex..])
    else (p, [])
  }

  /** rfind is fixed by its defining properties. */
  lemma LastIndexIs(p: string, c: char, r: int)
    requires -1 <= r < |p| && (r >= 0 ==> p[r] == c)
    requires forall k :: r < k < |p| ==> p[k] != c
    ensures LastIndexOf(p, c) == r
  {
    var q := LastIndexOf(p, c);
  }

  /** The last separator of `p` sits just before index `i` when the tail from
      `i` has no separator and `p[i - 1]` is one. */
  lemma LastSepIs(p: string, i: nat)
    requires i <= |p| && NoSep(p[i..]) && (i == 0 || IsSep(p[i - 1]))
    ensures Max(LastIndexOf(p, '\\'), LastIndexOf(p, '/')) == i - 1
  {
    assert forall k :: i <= k < |p| ==> p[k] == p[i..][k - i];
    if i > 0 {
      assert p[i - 1] == '\\' || p[i - 1] == '/';
    }
  }

  /** A proper extension on a name with something other than dots in its last
      component is split off exactly. */
  lemma SplitExtOf(root: string, ext: string)
    requires ext != [] && ext[0] == '.' && NoSep(ext) && forall k :: 1 <= k < |ext| ==> ext[k] != '.'
    requires exists k :: NameStart(root) <= k < |root| && root[k] != '.'
    ensures SplitExt(root + ext) == (root, ext)
  {
    var p := root + ext;
    var i := NameStart(root);
    LastSepOfAppend(root, ext);
    LastDotOfAppend(root, ext);
    var w :| i <= w < |root| && root[w] != '.';
    assert p[w] == root[w];
    assert p[..|root|] == root && p[|root|..] == ext;
  }

  lemma LastSepOfAppend(root: string, ext: string)
    requires NoSep(ext)
    ensures Max(LastIndexOf(root + ext, '\\'), LastIndexOf(root + ext, '/')) == NameStart(root) - 1
  {
    var p := root + ext;
    var i := NameStart(root);
    assert p[i..] == root[i..] + ext;
    NoSepAppend(root[i..], ext);
    if i > 0 {
      assert p[i - 1] == root[i - 1];
    }
    LastSepIs(p, i);
  }

  lemma LastDotOfAppend(root: string, ext: string)
    requires ext != [] && ext[0] == '.' && forall k :: 1 <= k < |ext| ==> ext[k] != '.'
    ensures LastIndexOf(root + ext, '.') == |root|
  {
    var p := root + ext;
    assert p[|root|] == '.';
    assert forall k :: |root| < k < |p| ==> p[k] == ext[k - |root|];
    LastIndexIs(p, '.', |root|);
  }

  /** The name a control file's points are labelled with: its base name
      without the extension (ctrl_name in append_control_points). */
  function StemName(path: string): (stem: string)
    ensures NoSep(stem)
  {
    var b := BaseName(path);
    var stem := SplitExt(b).0;
    assert stem == b[..|stem|];
    stem
  }

  lemma StemNameOf(dir: string, name: string, ext: string)
    requires dir != [] && NoSep(name) && (exists k :: 0 <= k < |name| && name[k] != '.')
    requires ext != [] && ext[0] == '.' && NoSep(ext) && forall k :: 1 <= k < |ext| ==> ext[k] != '.'
    ensures StemName(dir + "/" + name + ext) == name
  {
    NoSepAppend(name, ext);
    assert dir + "/" + name + ext == dir + "/" + (name + ext);
    BaseNameOfJoin(dir, name + ext);
    assert NameStart(name) == 0;
    SplitExtOf(name, ext);
  }

  lemma NoSepAppend(x: string, y: string)
    requires NoSep(x) && NoSep(y)
    ensures NoSep(x + y)
  {
    assert forall i :: |x| <= i < |x + y| ==> (x + y)[i] == y[i - |x|];
  }

  /** root + tag + ext for (root, ext) = splitext(p): the gpf_backup and
      temp_gpf names of the importer. */
  function SiblingPath(p: string, tag: string): (q: string)
    ensures |q| == |p| + |tag|
  {
    var (root, ext) := SplitExt(p);
    root + tag + ext
  }

  /** Two different tags never name the same file, and a non-empty tag never
      names the original: the backup and the temporary copy overwrite neither
      each other nor the .gpf file. */
  lemma SiblingsDistinct(p: string, t1: string, t2: string)
    requires t1 != t2
    ensures SiblingPath(p, t1) != SiblingPath(p, t2)
    ensures t1 != [] ==> SiblingPath(p, t1) != p
  {
    var (root, ext) := SplitExt(p);
    assert (root + t1 + ext)[|root|..|root| + |t1|] == t1;
    assert (root + t2 + ext)[|root|..|root| + |t2|] == t2;
  }

  /** The .gpf path of a project whose name has something other than dots in it. */
  lemma SiblingOfGpf(dir: string, project: string, tag: string)
    requires NoSep(project) && exists k :: 0 <= k < |project| && project[k] != '.'
    ensures SiblingPath(dir + "/" + project + ".gpf", tag) == dir + "/" + project + tag + ".gpf"
  {
    NameStartOfJoin(dir, project);
    var w :| 0 <= w < |project| && project[w] != '.';
    assert (dir + "/" + project)[|dir| + 1 + w] == project[w];
    SplitExtOf(dir + "/" + project, ".gpf");
  }

  // ---------------------------------------------------------------------------
  // The list of control files
  // ---------------------------------------------------------------------------

  /** The arguments after the project name were not there. */
  datatype ArgError = MissingArgument

  /** The control-file directory (empty unless AutoIt) and the control files.
      With AutoIt the second argument is "Directory|file1|file2|..."; otherwise
      every argument after the project name is a control file. */
  function ControlFileList(args: seq<string>, autoit: bool): (r: Result<(string, seq<string>), ArgError>)
    requires |args| >= 1
    ensures r.Err? <==> autoit && |args| < 2
    ensures !autoit ==> r == Ok(([], args[1..]))
    ensures r.Ok? && autoit ==> |r.value.1| == Text.CountChar(args[1], '|')
  {
    if autoit then
      if |args| < 2 then Err(MissingArgument)
      else
        var parts := Text.Split(args[1], "|");
        Text.SplitCount(args[1], '|');
        Ok((parts[0], parts[1..]))
    else Ok(([], args[1..]))
  }

  /** The AutoIt argument built from a directory and file names is read back
      as that directory and those files. */
  lemma ControlFileListOfPipe(project: string, dir: string, files: seq<string>)
    requires !Text.Contains(dir, "|") && forall i :: 0 <= i < |files| ==> !Text.Contains(files[i], "|")
    ensures ControlFileList([project, Text.Join([dir] + files, "|")], true) == Ok((dir, files))
  {
    var parts := [dir] + files;
    assert forall i :: 0 <= i < |parts| ==> !Text.Contains(parts[i], "|") by {
      forall i | 0 <= i < |parts| ensures !Text.Contains(parts[i], "|") {
        if i > 0 {
          assert parts[i] == files[i - 1];
        }
      }
    }
    Text.JoinSplit(parts, '|');
    assert parts[1..] == files;
  }
}
