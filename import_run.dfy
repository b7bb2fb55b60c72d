/** main(): from the options and arguments already parsed, find the project
    directory and its .gpf file, back it up, copy it to a temporary file,
    read the point count, append the points of every control file to the
    temporary copy, patch the count and move the copy over the .gpf file. */
module ImportRun {
  import opened Outcomes
  import Text
  import Paths
  import opened GpfEntry
  import opened Imports
  import opened Counts

  /** The file system as the importer sees it: the text of every file, and
      the directories. */
  class Disk {
    var files: map<string, string>
    var dirs: set<string>

    constructor(files0: map<string, string>, dirs0: set<string>)
      ensures files == files0 && dirs == dirs0
    {
      files := files0;
      dirs := dirs0;
    }

    /** The paths os.path.lexists finds. */
    function Existing(): set<string>
      reads this
    {
      files.Keys + dirs
    }

    /** shutil.copy / shutil.copy2 onto a file name: the copy holds the source's text. */
    method Copy(src: string, dst: string)
      requires src in files
      modifies this
      ensures files == old(files)[dst := old(files)[src]] && dirs == old(dirs)
    {
      files := files[dst := files[src]];
    }

    /** A file written and closed: it holds `text`. */
    method Store(path: string, text: string)
      modifies this
      ensures files == old(files)[path := text] && dirs == old(dirs)
    {
      files := files[path := text];
    }

    /** os.remove */
    method Remove(path: string)
      modifies this
      ensures files == old(files) - {path} && dirs == old(dirs)
    {
      files := files - {path};
    }

    /** os.renames, from a file to a name that is free. */
    method Rename(src: string, dst: string)
      requires src in files
      modifies this
      ensures files == (old(files) - {src})[dst := old(files)[src]] && dirs == old(dirs)
    {
      files := (files - {src})[dst := files[src]];
    }
  }

  /** project_directory/project_name.gpf */
  function GpfPath(projectDir: string, project: string): string
  {
    projectDir + "/" + project + ".gpf"
  }

  function BackupPath(gpf: string): string
  {
    Paths.SiblingPath(gpf, "_backup")
  }

  function TempPath(gpf: string): string
  {
    Paths.SiblingPath(gpf, "_temp")
  }

  /** How a run ends (the next free point number, or why it stopped) and the
      files it leaves behind. */
  datatype RunState = RunState(outcome: Result<int, RunError>, files: map<string, string>)

  /** What main does with the parsed arguments `args` (project name, then
      control files), the Socet Set data directory `base` and the AutoIt flag,
      on a file system with files `files` and directories `dirs`. */
  function RunImport(files: map<string, string>, dirs: set<string>, base: string, args: seq<string>, autoit: bool): RunState
  {
    if base !in files.Keys + dirs then RunState(Err(NoBaseDirectory), files)
    else if |args| == 0 then RunState(Err(MissingArgument), files)
    else
      var projectDir := base + "/" + args[0];
      if projectDir !in files.Keys + dirs then RunState(Err(NoProjectDirectory), files)
      else
        var list := Paths.ControlFileList(args, autoit);
        if list.Err? then RunState(Err(MissingArgument), files)
        else
          var gpf := GpfPath(projectDir, args[0]);
          if gpf !in files then RunState(Err(NoGpfFile), files)
          else Prepare(files, dirs, projectDir, gpf, list.value.0, list.value.1, autoit)
  }

  /** From the .gpf file found on: the backup and the temporary copy are made,
      then the count is read from the .gpf file; a count that is not an
      integer stops the run before anything is appended. */
  function Prepare(files: map<string, string>, dirs: set<string>, projectDir: string, gpf: string,
                   dir: string, controls: seq<string>, autoit: bool): RunState
    requires gpf in files
  {
    var copied := Copied(files, gpf);
    var count := ReadCount(files[gpf]);
    if count.None? then RunState(Err(BadPointCount), copied)
    else Finish(copied, dirs, projectDir, gpf, dir, controls, autoit, count.value)
  }

  /** The files once the backup and the temporary copy of the .gpf file are made. */
  function Copied(files: map<string, string>, gpf: string): map<string, string>
    requires gpf in files
  {
    files[BackupPath(gpf) := files[gpf]][TempPath(gpf) := files[gpf]]
  }

  /** The points of the control files appended to the temporary copy, numbered
      from the count k. */
  function Finish(copied: map<string, string>, dirs: set<string>, projectDir: string, gpf: string,
                  dir: string, controls: seq<string>, autoit: bool, k: int): RunState
    requires TempPath(gpf) in copied
  {
    var r := ImportFrom(copied, copied.Keys + dirs, controls, 0, dir, projectDir, autoit);
    Complete(copied, gpf, k, k + |r.points|, r.points, r.failure)
  }

  /** With the points the loop read, `next` the number after the last of them
      and the error that stopped the loop, if any: the points' entries are
      appended to the copy and numbered from k. */
  function Complete(copied: map<string, string>, gpf: string, k: int, next: int, points: seq<NamedPoint>,
                    failure: Option<RunError>): RunState
    requires TempPath(gpf) in copied
  {
    Settle(copied, gpf, k, next, failure, copied[TempPath(gpf)] + ImportedText(k, points))
  }

  /** After the loop, with `text` appended to the copy, `next` the next free
      point number and `failure` the error that stopped the loop, if any: a run
      that stopped leaves the copy holding `text`; otherwise the count is
      patched from k to next and the copy replaces the .gpf file. */
  function Settle(copied: map<string, string>, gpf: string, k: int, next: int, failure: Option<RunError>,
                  text: string): RunState
  {
    var temp := TempPath(gpf);
    if failure.Some? then RunState(Err(failure.value), copied[temp := text])
    else RunState(Ok(next), (copied - {temp})[gpf := PatchCount(text, k, next)])
  }

  /** main() after option parsing. */
  method ImportControlPoints(disk: Disk, base: string, args: seq<string>, autoit: bool)
    returns (outcome: Result<int, RunError>)
    modifies disk
    ensures RunState(outcome, disk.files) == RunImport(old(disk.files), old(disk.dirs), base, args, autoit)
    ensures disk.dirs == old(disk.dirs)
  {
    if base !in disk.Existing() {
      return Err(NoBaseDirectory);
    }
    if |args| == 0 {
      return Err(MissingArgument);
    }
    var project := args[0];
    var projectDir := base + "/" + project;
    if projectDir !in disk.Existing() {
      return Err(NoProjectDirectory);
    }
    var list := Paths.ControlFileList(args, autoit);
    if list.Err? {
      return Err(MissingArgument);
    }
    var gpf := GpfPath(projectDir, project);
    if gpf !in disk.files {
      return Err(NoGpfFile);
    }
    outcome := UpdateGpf(disk, projectDir, gpf, list.value.0, list.value.1, autoit);
  }

  /** Backup, temporary copy, count. */
  method UpdateGpf(disk: Disk, projectDir: string, gpf: string, dir: string, controls: seq<string>, autoit: bool)
    returns (outcome: Result<int, RunError>)
    requires gpf in disk.files
    modifies disk
    ensures RunState(outcome, disk.files) == Prepare(old(disk.files), old(disk.dirs), projectDir, gpf, dir, controls, autoit)
    ensures disk.dirs == old(disk.dirs)
  {
    var backup := BackupPath(gpf);
    disk.Copy(gpf, backup);
    var temp := TempPath(gpf);
    disk.Copy(gpf, temp);
    Paths.SiblingsDistinct(gpf, "_backup", "_temp");
    var original := disk.files[gpf];
    var count := ReadCount(original);
    if count.None? {
      return Err(BadPointCount);
    }
    outcome := AppendAndPatch(disk, projectDir, gpf, dir, controls, autoit, count.value);
  }

  /** The loop over the control files, then the count patch and the move. */
  method AppendAndPatch(disk: Disk, projectDir: string, gpf: string, dir: string, controls: seq<string>,
                        autoit: bool, k: int)
    returns (outcome: Result<int, RunError>)
    requires TempPath(gpf) in disk.files
    modifies disk
    ensures RunState(outcome, disk.files) == Finish(old(disk.files), old(disk.dirs), projectDir, gpf, dir, controls, autoit, k)
    ensures disk.dirs == old(disk.dirs)
  {
    var temp := TempPath(gpf);
    ghost var copied := disk.files;
    ghost var r := ImportFrom(copied, copied.Keys + disk.dirs, controls, 0, dir, projectDir, autoit);
    var appendGpf := new GpfWriter(disk.files[temp]);
    assert disk.Existing() == copied.Keys + disk.dirs;
    var next, failure := AppendAll(appendGpf, disk.files, disk.Existing(), controls, dir, projectDir, autoit, k);
    ghost var text := copied[temp] + ImportedText(k, r.points);
    assert appendGpf.contents == text;
    assert next == k + |r.points| && failure == r.failure;
    disk.Store(temp, appendGpf.contents);
    assert disk.files == copied[temp := text];
    if failure.Some? {
      assert Finish(copied, disk.dirs, projectDir, gpf, dir, controls, autoit, k)
        == Settle(copied, gpf, k, next, failure, text);
      return Err(failure.value);
    }
    PatchAndMove(disk, gpf, k, next);
    DropUpdated(copied, temp, text);
    assert disk.files == (copied - {temp})[gpf := PatchCount(text, k, next)];
    assert Finish(copied, disk.dirs, projectDir, gpf, dir, controls, autoit, k)
      == Settle(copied, gpf, k, next, failure, text);
    outcome := Ok(next);
  }

  /** A file written and then removed is as if never written. */
  lemma DropUpdated<K, V>(m: map<K, V>, key: K, v: V)
    ensures m[key := v] - {key} == m - {key}
  {
  }

  /** The count on the second line of the temporary copy is patched, the .gpf
      file removed and the copy renamed to it. */
  method PatchAndMove(disk: Disk, gpf: string, k: int, next: int)
    requires TempPath(gpf) in disk.files
    modifies disk
    ensures disk.files == (old(disk.files) - {TempPath(gpf)})[gpf := PatchCount(old(disk.files)[TempPath(gpf)], k, next)]
    ensures disk.dirs == old(disk.dirs)
  {
    var temp := TempPath(gpf);
    var patched := PatchCount(disk.files[temp], k, next);
    disk.Store(temp, patched);
    disk.Remove(gpf);
    Paths.SiblingsDistinct(gpf, "_temp", "_backup");
    disk.Rename(temp, gpf);
    MoveOver(old(disk.files), temp, gpf, patched);
  }

  /** Writing v to `temp`, removing `target` and renaming `temp` to it leaves
      v under `target` and no `temp`. */
  lemma MoveOver<K, V>(m: map<K, V>, temp: K, target: K, v: V)
    requires temp != target
    ensures ((m[temp := v] - {target}) - {temp})[target := v] == (m - {temp})[target := v]
  {
  }

  // ---------------------------------------------------------------------------
  // Properties of a run
  // ---------------------------------------------------------------------------

  /** The errors raised before the .gpf file is found. */
  predicate EarlyError(e: RunError)
  {
    e.NoBaseDirectory? || e.MissingArgument? || e.NoProjectDirectory? || e.NoGpfFile?
  }

  /** The .gpf file a run with arguments `args` works on. */
  function RunGpf(base: string, args: seq<string>): string
    requires |args| > 0
  {
    GpfPath(base + "/" + args[0], args[0])
  }

  /** The data directory and the project directory exist, the arguments name a
      project and the control files, and the project's .gpf file exists. */
  predicate Reaches(files: map<string, string>, dirs: set<string>, base: string, args: seq<string>, autoit: bool)
  {
    && base in files.Keys + dirs
    && |args| > 0
    && base + "/" + args[0] in files.Keys + dirs
    && Paths.ControlFileList(args, autoit).Ok?
    && RunGpf(base, args) in files
  }

  /** A run stops with an early error exactly when it does not get as far as
      the .gpf file, and then it has changed no file. */
  lemma RunStopsEarly(files: map<string, string>, dirs: set<string>, base: string, args: seq<string>, autoit: bool)
    ensures var s := RunImport(files, dirs, base, args, autoit);
      (s.outcome.Err? && EarlyError(s.outcome.error)) <==> !Reaches(files, dirs, base, args, autoit)
    ensures !Reaches(files, dirs, base, args, autoit) ==> RunImport(files, dirs, base, args, autoit).files == files
  {
    if Reaches(files, dirs, base, args, autoit) {
      var gpf := RunGpf(base, args);
      var list := Paths.ControlFileList(args, autoit).value;
      RunReaches(files, dirs, base, args, autoit);
      PrepareErrors(files, dirs, base + "/" + args[0], gpf, list.0, list.1, autoit);
    }
  }

  /** A run that gets as far as the .gpf file goes on with its backup, its
      copy and its count. */
  lemma RunReaches(files: map<string, string>, dirs: set<string>, base: string, args: seq<string>, autoit: bool)
    requires Reaches(files, dirs, base, args, autoit)
    ensures var list := Paths.ControlFileList(args, autoit).value;
      RunImport(files, dirs, base, args, autoit)
      == Prepare(files, dirs, base + "/" + args[0], RunGpf(base, args), list.0, list.1, autoit)
  {
  }

  /** Prepare with a count k read goes on with the loop on the copy. */
  lemma PrepareStep(files: map<string, string>, dirs: set<string>, projectDir: string, gpf: string,
                    dir: string, controls: seq<string>, autoit: bool, k: int)
    requires gpf in files && ReadCount(files[gpf]) == Some(k)
    ensures TempPath(gpf) in Copied(files, gpf) && Copied(files, gpf)[TempPath(gpf)] == files[gpf]
    ensures Prepare(files, dirs, projectDir, gpf, dir, controls, autoit)
      == Finish(Copied(files, gpf), dirs, projectDir, gpf, dir, controls, autoit, k)
  {
  }

  /** Finish is Complete on the loop's result, `next` being k plus the
      number of points read. */
  lemma FinishStep(copied: map<string, string>, dirs: set<string>, projectDir: string, gpf: string,
                   dir: string, controls: seq<string>, autoit: bool, k: int, r: Imported, next: int)
    requires TempPath(gpf) in copied
    requires r == ImportFrom(copied, copied.Keys + dirs, controls, 0, dir, projectDir, autoit)
    requires next == k + |r.points|
    ensures Finish(copied, dirs, projectDir, gpf, dir, controls, autoit, k)
      == Complete(copied, gpf, k, next, r.points, r.failure)
  {
  }

  /** The copy's text after the loop, with the copy made from `original`. */
  lemma SamePatch(a: string, b: string, t: string, k: int, n: int)
    requires a == b
    ensures PatchCount(a + t, k, n) == PatchCount(b + t, k, n)
  {
  }

  /** How Settle ends: with the loop's error, or with the next free point number. */
  lemma SettleOutcome(copied: map<string, string>, gpf: string, k: int, next: int, failure: Option<RunError>,
                      text: string)
    ensures var s := Settle(copied, gpf, k, next, failure, text);
      && (s.outcome.Err? <==> failure.Some?)
      && (s.outcome.Err? ==> s.outcome.error == failure.value)
      && (s.outcome.Ok? ==> s.outcome.value == next)
  {
  }

  /** Settle touches no path but the .gpf file and its copy. */
  lemma SettleOthers(copied: map<string, string>, gpf: string, k: int, next: int, failure: Option<RunError>,
                     text: string, q: string)
    requires q != gpf && q != TempPath(gpf)
    ensures var s := Settle(copied, gpf, k, next, failure, text);
      (q in s.files <==> q in copied) && (q in copied ==> s.files[q] == copied[q])
  {
  }

  /** A loop that fails leaves the .gpf file alone and the copy holding the
      entries appended before the failure. */
  lemma SettleFailed(copied: map<string, string>, gpf: string, k: int, next: int, failure: Option<RunError>,
                     text: string)
    requires gpf in copied && gpf != TempPath(gpf) && failure.Some?
    ensures var s := Settle(copied, gpf, k, next, failure, text);
      && gpf in s.files && s.files[gpf] == copied[gpf]
      && TempPath(gpf) in s.files && s.files[TempPath(gpf)] == text
  {
  }

  /** A loop that finishes leaves no copy, and in the .gpf file the copy's
      text with the count patched. */
  lemma SettleDone(copied: map<string, string>, gpf: string, k: int, next: int, failure: Option<RunError>,
                   text: string)
    requires failure.None?
    ensures var s := Settle(copied, gpf, k, next, failure, text);
      && TempPath(gpf) !in s.files
      && gpf in s.files && s.files[gpf] == PatchCount(text, k, next)
  {
  }

  /** The errors Prepare can stop with: a bad count, or an error of the loop. */
  lemma PrepareErrors(files: map<string, string>, dirs: set<string>, projectDir: string, gpf: string,
                      dir: string, controls: seq<string>, autoit: bool)
    requires gpf in files
    ensures var s := Prepare(files, dirs, projectDir, gpf, dir, controls, autoit);
      && (s.outcome == Err(BadPointCount) <==> ReadCount(files[gpf]).None?)
      && (s.outcome.Err? && s.outcome.error != BadPointCount ==> LoopError(s.outcome.error, autoit))
  {
    match ReadCount(files[gpf])
    case None =>
    case Some(k) =>
      var copied := Copied(files, gpf);
      var r := Loop(files, dirs, projectDir, gpf, dir, controls, autoit);
      PrepareStep(files, dirs, projectDir, gpf, dir, controls, autoit, k);
      var next := k + |r.points|;
      FinishStep(Copied(files, gpf), dirs, projectDir, gpf, dir, controls, autoit, k, r, next);
      CompleteUnfold(copied, gpf, k, next, r.points, r.failure);
      SettleOutcome(copied, gpf, k, next, r.failure, copied[TempPath(gpf)] + ImportedText(k, r.points));
      ImportFailures(copied, copied.Keys + dirs, controls, 0, dir, projectDir, autoit);
  }

  /** A count that is not an integer stops the run right after the backup and
      the copy are made: nothing is appended, the .gpf file, its backup and its
      copy all hold the original text, and every other file is as it was. */
  lemma PrepareBadCount(files: map<string, string>, dirs: set<string>, projectDir: string, gpf: string,
                        dir: string, controls: seq<string>, autoit: bool)
    requires gpf in files && ReadCount(files[gpf]).None?
    ensures var s := Prepare(files, dirs, projectDir, gpf, dir, controls, autoit);
      && s.outcome == Err(BadPointCount)
      && s.files.Keys == files.Keys + {BackupPath(gpf), TempPath(gpf)}
      && s.files[gpf] == files[gpf]
      && s.files[BackupPath(gpf)] == files[gpf]
      && s.files[TempPath(gpf)] == files[gpf]
      && forall q :: q in files && q != BackupPath(gpf) && q != TempPath(gpf) ==> s.files[q] == files[q]
  {
    BadCountStep(files, dirs, projectDir, gpf, dir, controls, autoit);
    CopiedFiles(files, gpf);
  }

  lemma BadCountStep(files: map<string, string>, dirs: set<string>, projectDir: string, gpf: string,
                     dir: string, controls: seq<string>, autoit: bool)
    requires gpf in files && ReadCount(files[gpf]).None?
    ensures Prepare(files, dirs, projectDir, gpf, dir, controls, autoit) == RunState(Err(BadPointCount), Copied(files, gpf))
  {
  }

  /** The backup and the copy are new names beside the .gpf file, both holding its text. */
  lemma CopiedFiles(files: map<string, string>, gpf: string)
    requires gpf in files
    ensures var c := Copied(files, gpf);
      && c.Keys == files.Keys + {BackupPath(gpf), TempPath(gpf)}
      && c[gpf] == files[gpf] && c[BackupPath(gpf)] == files[gpf] && c[TempPath(gpf)] == files[gpf]
      && forall q :: q in files && q != BackupPath(gpf) && q != TempPath(gpf) ==> c[q] == files[q]
  {
    Paths.SiblingsDistinct(gpf, "_backup", "_temp");
  }

  /** The loop's result in a run on the .gpf file `gpf`: the control files are
      read from the files as they are once the backup and the copy exist. */
  function Loop(files: map<string, string>, dirs: set<string>, projectDir: string, gpf: string,
                dir: string, controls: seq<string>, autoit: bool): Imported
    requires gpf in files
  {
    var copied := Copied(files, gpf);
    ImportFrom(copied, copied.Keys + dirs, controls, 0, dir, projectDir, autoit)
  }

  /** Once the .gpf file is found, the backup holds its original text whatever
      happens next. */
  lemma PrepareBackup(files: map<string, string>, dirs: set<string>, projectDir: string, gpf: string,
                      dir: string, controls: seq<string>, autoit: bool)
    requires gpf in files
    ensures var s := Prepare(files, dirs, projectDir, gpf, dir, controls, autoit);
      BackupPath(gpf) in s.files && s.files[BackupPath(gpf)] == files[gpf]
  {
    Paths.SiblingsDistinct(gpf, "_backup", "_temp");
    PrepareOthers(files, dirs, projectDir, gpf, dir, controls, autoit, BackupPath(gpf));
  }

  /** Paths other than the .gpf file and its temporary copy end up as they
      are once the backup and the copy are made. */
  lemma PrepareOthers(files: map<string, string>, dirs: set<string>, projectDir: string, gpf: string,
                      dir: string, controls: seq<string>, autoit: bool, q: string)
    requires gpf in files && q != gpf && q != TempPath(gpf)
    ensures var s := Prepare(files, dirs, projectDir, gpf, dir, controls, autoit);
      (q in s.files <==> q in Copied(files, gpf)) && (q in s.files ==> s.files[q] == Copied(files, gpf)[q])
  {
    var count := ReadCount(files[gpf]);
    if count.Some? {
      var k := count.value;
      var r := Loop(files, dirs, projectDir, gpf, dir, controls, autoit);
      PrepareStep(files, dirs, projectDir, gpf, dir, controls, autoit, k);
      var next := k + |r.points|;
      FinishStep(Copied(files, gpf), dirs, projectDir, gpf, dir, controls, autoit, k, r, next);
      CompleteOthers(Copied(files, gpf), gpf, k, next, r.points, r.failure, q);
    }
  }

  /** Complete touches no path but the .gpf file and its copy. */
  lemma CompleteOthers(copied: map<string, string>, gpf: string, k: int, next: int, points: seq<NamedPoint>,
                       failure: Option<RunError>, q: string)
    requires TempPath(gpf) in copied && q != gpf && q != TempPath(gpf)
    ensures var s := Complete(copied, gpf, k, next, points, failure);
      (q in s.files <==> q in copied) && (q in s.files ==> s.files[q] == copied[q])
  {
    CompleteUnfold(copied, gpf, k, next, points, failure);
    SettleOthers(copied, gpf, k, next, failure, copied[TempPath(gpf)] + ImportedText(k, points), q);
  }

  /** No path but the .gpf file, its backup and its copy is touched. */
  lemma PrepareKeepsOthers(files: map<string, string>, dirs: set<string>, projectDir: string, gpf: string,
                           dir: string, controls: seq<string>, autoit: bool, q: string)
    requires gpf in files && q != gpf && q != BackupPath(gpf) && q != TempPath(gpf)
    ensures var s := Prepare(files, dirs, projectDir, gpf, dir, controls, autoit);
      (q in s.files <==> q in files) && (q in files ==> s.files[q] == files[q])
  {
    PrepareOthers(files, dirs, projectDir, gpf, dir, controls, autoit, q);
  }

  /** A run that fails after the .gpf file is found leaves that file's text as
      it was. */
  lemma PrepareFailed(files: map<string, string>, dirs: set<string>, projectDir: string, gpf: string,
                      dir: string, controls: seq<string>, autoit: bool)
    requires gpf in files
    ensures var s := Prepare(files, dirs, projectDir, gpf, dir, controls, autoit);
      s.outcome.Err? ==> gpf in s.files && s.files[gpf] == files[gpf]
  {
    Paths.SiblingsDistinct(gpf, "_temp", "_backup");
    match ReadCount(files[gpf])
    case None =>
    case Some(k) =>
      var r := Loop(files, dirs, projectDir, gpf, dir, controls, autoit);
      PrepareStep(files, dirs, projectDir, gpf, dir, controls, autoit, k);
      var next := k + |r.points|;
      FinishStep(Copied(files, gpf), dirs, projectDir, gpf, dir, controls, autoit, k, r, next);
      CompleteFailed(Copied(files, gpf), gpf, k, next, r.points, r.failure);
  }

  /** Complete with an error leaves the .gpf file as the copy found it. */
  lemma CompleteFailed(copied: map<string, string>, gpf: string, k: int, next: int, points: seq<NamedPoint>,
                       failure: Option<RunError>)
    requires TempPath(gpf) in copied && gpf in copied && gpf != TempPath(gpf)
    ensures var s := Complete(copied, gpf, k, next, points, failure);
      s.outcome.Err? ==> gpf in s.files && s.files[gpf] == copied[gpf]
  {
    var text := copied[TempPath(gpf)] + ImportedText(k, points);
    CompleteUnfold(copied, gpf, k, next, points, failure);
    SettleOutcome(copied, gpf, k, next, failure, text);
    if failure.Some? {
      SettleFailed(copied, gpf, k, next, failure, text);
    }
  }

  /** A run that succeeds read the count k, appended the entries of all the
      points read, numbered k, k + 1, ..., and returns the next free number;
      the copy is gone and the .gpf file holds its original text, the entries
      after it and the count patched from k to that number. */
  lemma PrepareDone(files: map<string, string>, dirs: set<string>, projectDir: string, gpf: string,
                    dir: string, controls: seq<string>, autoit: bool)
    requires gpf in files
    ensures var s := Prepare(files, dirs, projectDir, gpf, dir, controls, autoit);
      var r := Loop(files, dirs, projectDir, gpf, dir, controls, autoit);
      s.outcome.Ok? <==> ReadCount(files[gpf]).Some? && r.failure.None?
    ensures var s := Prepare(files, dirs, projectDir, gpf, dir, controls, autoit);
      var r := Loop(files, dirs, projectDir, gpf, dir, controls, autoit);
      s.outcome.Ok? ==>
        var k := ReadCount(files[gpf]).value;
        && s.outcome.value == k + |r.points|
        && TempPath(gpf) !in s.files
        && gpf in s.files && s.files[gpf] == PatchCount(files[gpf] + ImportedText(k, r.points), k, k + |r.points|)
  {
    match ReadCount(files[gpf])
    case None =>
    case Some(k) =>
      var r := Loop(files, dirs, projectDir, gpf, dir, controls, autoit);
      PrepareStep(files, dirs, projectDir, gpf, dir, controls, autoit, k);
      var next := k + |r.points|;
      FinishStep(Copied(files, gpf), dirs, projectDir, gpf, dir, controls, autoit, k, r, next);
      CompleteDone(Copied(files, gpf), gpf, k, next, r.points, r.failure, files[gpf]);
  }

  /** Complete on a copy holding `original`: it succeeds exactly when the loop
      did, and then the .gpf file holds `original`, the entries and the patched count. */
  lemma CompleteDone(copied: map<string, string>, gpf: string, k: int, next: int, points: seq<NamedPoint>,
                     failure: Option<RunError>, original: string)
    requires TempPath(gpf) in copied && copied[TempPath(gpf)] == original
    ensures var s := Complete(copied, gpf, k, next, points, failure);
      && (s.outcome.Ok? <==> failure.None?)
      && (s.outcome.Ok? ==>
        && s.outcome.value == next
        && TempPath(gpf) !in s.files
        && gpf in s.files && s.files[gpf] == PatchCount(original + ImportedText(k, points), k, next))
  {
    var text := original + ImportedText(k, points);
    CompleteUnfold(copied, gpf, k, next, points, failure);
    SettleOutcome(copied, gpf, k, next, failure, text);
    if failure.None? {
      SettleDone(copied, gpf, k, next, failure, text);
    }
  }

  /** When the .gpf file's second line is exactly its count k, a run that
      succeeds leaves the first line, the count line holding the next free
      number, the rest of the original text and the new entries; reading the
      count back gives that number. */
  lemma PrepareCountLine(files: map<string, string>, dirs: set<string>, projectDir: string, gpf: string,
                         dir: string, controls: seq<string>, autoit: bool, first: string, k: int, body: string)
    requires gpf in files && files[gpf] == WithCount(first, k, body)
    requires Text.IsLine(first) && Text.EndsWithNewline(first)
    ensures var s := Prepare(files, dirs, projectDir, gpf, dir, controls, autoit);
      var r := Loop(files, dirs, projectDir, gpf, dir, controls, autoit);
      s.outcome.Ok? ==>
        && s.outcome.value == k + |r.points|
        && gpf in s.files
        && s.files[gpf] == WithCount(first, s.outcome.value, body + ImportedText(k, r.points))
        && ReadCount(s.files[gpf]) == Some(s.outcome.value)
  {
    var r := Loop(files, dirs, projectDir, gpf, dir, controls, autoit);
    ReadCountOf(first, k, body);
    PrepareStep(files, dirs, projectDir, gpf, dir, controls, autoit, k);
    var next := k + |r.points|;
    FinishStep(Copied(files, gpf), dirs, projectDir, gpf, dir, controls, autoit, k, r, next);
    CompleteCountLine(Copied(files, gpf), gpf, k, next, r.points, r.failure, first, body);
  }

  /** The count line after Complete, on a copy whose second line is exactly k. */
  lemma CompleteCountLine(copied: map<string, string>, gpf: string, k: int, next: int, points: seq<NamedPoint>,
                          failure: Option<RunError>, first: string, body: string)
    requires TempPath(gpf) in copied && copied[TempPath(gpf)] == WithCount(first, k, body)
    requires Text.IsLine(first) && Text.EndsWithNewline(first)
    ensures var s := Complete(copied, gpf, k, next, points, failure);
      s.outcome.Ok? ==>
        && s.outcome.value == next
        && gpf in s.files
        && s.files[gpf] == WithCount(first, s.outcome.value, body + ImportedText(k, points))
        && ReadCount(s.files[gpf]) == Some(s.outcome.value)
  {
    var added := ImportedText(k, points);
    CompleteUnfold(copied, gpf, k, next, points, failure);
    SettleCountLine(copied, gpf, k, next, failure, first, body, added, copied[TempPath(gpf)] + added);
  }

  /** Complete settles the copy with the loop's entries appended. */
  lemma CompleteUnfold(copied: map<string, string>, gpf: string, k: int, next: int, points: seq<NamedPoint>,
                       failure: Option<RunError>)
    requires TempPath(gpf) in copied
    ensures Complete(copied, gpf, k, next, points, failure)
         == Settle(copied, gpf, k, next, failure, copied[TempPath(gpf)] + ImportedText(k, points))
  {
  }

  /** A run that settles without an error on a copy whose second line was k
      leaves the count `next` on that line, the rest of the text after it. */
  lemma SettleCountLine(copied: map<string, string>, gpf: string, k: int, next: int, failure: Option<RunError>,
                        first: string, body: string, added: string, text: string)
    requires Text.IsLine(first) && Text.EndsWithNewline(first) && text == WithCount(first, k, body) + added
    ensures var s := Settle(copied, gpf, k, next, failure, text);
      s.outcome.Ok? ==>
        && s.outcome.value == next
        && gpf in s.files
        && s.files[gpf] == WithCount(first, s.outcome.value, body + added)
        && ReadCount(s.files[gpf]) == Some(s.outcome.value)
  {
    PatchAppended(first, k, body, added, next);
  }

  /** A run that succeeds without reading a single point leaves the .gpf
      file's text exactly as it was. */
  lemma PrepareNothingImported(files: map<string, string>, dirs: set<string>, projectDir: string, gpf: string,
                               dir: string, controls: seq<string>, autoit: bool)
    requires gpf in files
    ensures var s := Prepare(files, dirs, projectDir, gpf, dir, controls, autoit);
      s.outcome.Ok? && Loop(files, dirs, projectDir, gpf, dir, controls, autoit).points == [] ==>
        gpf in s.files && s.files[gpf] == files[gpf]
  {
    var s := Prepare(files, dirs, projectDir, gpf, dir, controls, autoit);
    var r := Loop(files, dirs, projectDir, gpf, dir, controls, autoit);
    PrepareDone(files, dirs, projectDir, gpf, dir, controls, autoit);
    if s.outcome.Ok? && r.points == [] {
      var k := ReadCount(files[gpf]).value;
      assert ImportedText(k, r.points) == [];
      assert files[gpf] + ImportedText(k, r.points) == files[gpf];
      PatchSameCount(files[gpf], k);
    }
  }
}
