/** The loop of main over the control files: each name is resolved to a path,
    the file found is read by append_control_points, and the point number is
    threaded from one file to the next, so that all the entries appended form
    one run numbered from the count the .gpf file started with. */
module Imports {
  import opened Outcomes
  import Text
  import Convert
  import Paths
  import opened GpfEntry
  import opened Runs
  import opened Entries
  import Scanner

  /** Why a run of the importer stops early. */
  datatype RunError =
    | NoBaseDirectory
    | MissingArgument
    | NoProjectDirectory
    | NoGpfFile
    | BadPointCount
    | ControlFileNotFound(name: string)
    | CannotOpen(path: string)
    | ConvertFailed(error: Convert.ConvertError)

  /** Where a control file name leads. */
  datatype Resolution = Found(path: string) | Skipped | NotFound

  /** The resolution of a control file name: a name that exists is used as
      given; otherwise, without AutoIt it is skipped, and with AutoIt it is
      looked for in the AutoIt directory, then in the project directory, and
      the run stops when neither holds it. */
  function Resolve(existing: set<string>, name: string, dir: string, projectDir: string, autoit: bool): (r: Resolution)
    ensures name in existing ==> r == Found(name)
    ensures r.Found? ==> r.path in existing && (r.path == name || (autoit && (r.path == dir + "/" + name || r.path == projectDir + "/" + name)))
    ensures r.Skipped? <==> name !in existing && !autoit
    ensures r.NotFound? <==> autoit && name !in existing && dir + "/" + name !in existing && projectDir + "/" + name !in existing
    ensures name !in existing && autoit && dir + "/" + name in existing ==> r == Found(dir + "/" + name)
    ensures name !in existing && autoit && dir + "/" + name !in existing && projectDir + "/" + name in existing
      ==> r == Found(projectDir + "/" + name)
  {
    if name in existing then Found(name)
    else if !autoit then Skipped
    else if dir + "/" + name in existing then Found(dir + "/" + name)
    else if projectDir + "/" + name in existing then Found(projectDir + "/" + name)
    else NotFound
  }

  /** A point read from a control file, with the name it is written under. */
  datatype NamedPoint = NamedPoint(name: string, coords: Convert.Coordinates)

  /** The points of one control file, under that file's name. */
  function Tagged(name: string, cs: seq<Convert.Coordinates>): (ps: seq<NamedPoint>)
    ensures |ps| == |cs| && forall k :: 0 <= k < |cs| ==> ps[k] == NamedPoint(name, cs[k])
  {
    seq(|cs|, k requires 0 <= k < |cs| => NamedPoint(name, cs[k]))
  }

  /** The entry of a named point, as a function of its number. */
  function NamedEntry(useBox: bool): (int, NamedPoint) -> string
  {
    (n: int, p: NamedPoint) => EntryText(n, p.name, useBox, p.coords)
  }

  /** The points read from all the control files, in order, and the error that
      stopped the run, if one did. */
  datatype Imported = Imported(points: seq<NamedPoint>, failure: Option<RunError>)

  /** What the loop over control_files[j..] reads: a missing name stops the run
      (AutoIt) or is passed over, a file found is read through to its end or to
      the conversion error that stops the run. */
  function ImportFrom(files: map<string, string>, existing: set<string>, controls: seq<string>, j: nat,
                      dir: string, projectDir: string, autoit: bool): Imported
    decreases |controls| - j, 1
  {
    if j >= |controls| then Imported([], None)
    else
      match Resolve(existing, controls[j], dir, projectDir, autoit)
      case Skipped => ImportFrom(files, existing, controls, j + 1, dir, projectDir, autoit)
      case NotFound => Imported([], Some(ControlFileNotFound(controls[j])))
      case Found(p) => ImportFile(files, existing, controls, j, p, dir, projectDir, autoit)
  }

  /** The control file `p` found for control_files[j], then the files after it.
      A path that exists but is not a file cannot be opened. */
  function ImportFile(files: map<string, string>, existing: set<string>, controls: seq<string>, j: nat, p: string,
                      dir: string, projectDir: string, autoit: bool): Imported
    requires j < |controls|
    decreases |controls| - j, 0
  {
    if p !in files then Imported([], Some(CannotOpen(p)))
    else
      var r := Scanner.Scan(Text.Lines(files[p]), 0);
      var here := Tagged(Paths.StemName(p), r.points);
      match r.failure
      case Some(e) => Imported(here, Some(ConvertFailed(e)))
      case None =>
        var rest := ImportFrom(files, existing, controls, j + 1, dir, projectDir, autoit);
        Imported(here + rest.points, rest.failure)
  }

  /** The points read before control file j, followed by what the rest yields. */
  function Joined(done: seq<NamedPoint>, r: Imported): Imported
  {
    Imported(done + r.points, r.failure)
  }

  /** The entries written for points `ps`, numbered from `start`. */
  function ImportedText(start: int, ps: seq<NamedPoint>): string
  {
    Run(start, ps, NamedEntry(false))
  }

  /** The loop of main over the control files, appending to the temporary
      .gpf file opened in append mode. Existence is checked against
      `existing`; a control file's text is `files[path]`. The result is the
      next free point number and the error that ended the run, if any. */
  method AppendAll(gpf: GpfWriter, files: map<string, string>, existing: set<string>, controls: seq<string>,
                   dir: string, projectDir: string, autoit: bool, pointNumber: int)
    returns (next: int, failure: Option<RunError>)
    modifies gpf
    ensures var r := ImportFrom(files, existing, controls, 0, dir, projectDir, autoit);
      && gpf.contents == old(gpf.contents) + ImportedText(pointNumber, r.points)
      && next == pointNumber + |r.points|
      && failure == r.failure
  {
    ghost var done: seq<NamedPoint> := [];
    ghost var total := ImportFrom(files, existing, controls, 0, dir, projectDir, autoit);
    next := pointNumber;
    failure := None;
    var j := 0;
    while j < |controls|
      invariant 0 <= j <= |controls|
      invariant gpf.contents == old(gpf.contents) + ImportedText(pointNumber, done)
      invariant next == pointNumber + |done|
      invariant total == Joined(done, ImportFrom(files, existing, controls, j, dir, projectDir, autoit))
      invariant failure == None
      decreases |controls| - j
    {
      next, failure, done := ImportOne(gpf, files, existing, controls, j, dir, projectDir, autoit, next,
                                       old(gpf.contents), pointNumber, done);
      if failure.Some? {
        return;
      }
      j := j + 1;
    }
    JoinedNothing(done, ImportFrom(files, existing, controls, j, dir, projectDir, autoit));
  }

  /** One pass of the loop: control file j is resolved and, if found, read. */
  method ImportOne(gpf: GpfWriter, files: map<string, string>, existing: set<string>, controls: seq<string>, j: nat,
                   dir: string, projectDir: string, autoit: bool, number: int,
                   ghost o: string, ghost start: int, ghost done: seq<NamedPoint>)
    returns (next: int, failure: Option<RunError>, ghost done': seq<NamedPoint>)
    requires j < |controls|
    requires gpf.contents == o + ImportedText(start, done) && number == start + |done|
    modifies gpf
    ensures failure.Some? ==>
      Joined(done, ImportFrom(files, existing, controls, j, dir, projectDir, autoit)) == Imported(done', failure)
    ensures failure.None? ==>
      Joined(done, ImportFrom(files, existing, controls, j, dir, projectDir, autoit))
      == Joined(done', ImportFrom(files, existing, controls, j + 1, dir, projectDir, autoit))
    ensures gpf.contents == o + ImportedText(start, done') && next == start + |done'|
  {
    var found := Resolve(existing, controls[j], dir, projectDir, autoit);
    match found
    case Skipped =>
      ImportSkip(files, existing, controls, j, dir, projectDir, autoit);
      next, failure, done' := number, None, done;
    case NotFound =>
      ImportNotFound(files, existing, controls, j, dir, projectDir, autoit);
      JoinedNothing(done, Imported([], Some(ControlFileNotFound(controls[j]))));
      next, failure, done' := number, Some(ControlFileNotFound(controls[j])), done;
    case Found(p) =>
      ImportFound(files, existing, controls, j, dir, projectDir, autoit, p);
      if p !in files {
        ImportCannotOpen(files, existing, controls, j, dir, projectDir, autoit, p);
        JoinedNothing(done, Imported([], Some(CannotOpen(p))));
        next, failure, done' := number, Some(CannotOpen(p)), done;
      } else {
        next, failure, done' := ReadControlFile(gpf, files, existing, controls, j, dir, projectDir, autoit, p,
                                                number, o, start, done);
      }
  }

  /** append_control_points on the control file found for control_files[j]. */
  method ReadControlFile(gpf: GpfWriter, files: map<string, string>, existing: set<string>, controls: seq<string>, j: nat,
                         dir: string, projectDir: string, autoit: bool, p: string, number: int,
                         ghost o: string, ghost start: int, ghost done: seq<NamedPoint>)
    returns (next: int, failure: Option<RunError>, ghost done': seq<NamedPoint>)
    requires j < |controls| && p in files
    requires gpf.contents == o + ImportedText(start, done) && number == start + |done|
    modifies gpf
    ensures failure.Some? ==>
      Joined(done, ImportFile(files, existing, controls, j, p, dir, projectDir, autoit)) == Imported(done', failure)
    ensures failure.None? ==>
      Joined(done, ImportFile(files, existing, controls, j, p, dir, projectDir, autoit))
      == Joined(done', ImportFrom(files, existing, controls, j + 1, dir, projectDir, autoit))
    ensures gpf.contents == o + ImportedText(start, done') && next == start + |done'|
  {
    ghost var before := gpf.contents;
    var converted;
    next, converted := Scanner.AppendControlPoints(gpf, p, files[p], number, false);
    ghost var r := Scanner.Scan(Text.Lines(files[p]), 0);
    ghost var name := Paths.StemName(p);
    done' := done + Tagged(name, r.points);
    ImportedAppend(start, done, name, r.points, number);
    Text.Extend(gpf.contents, before, o, ImportedText(start, done), EntriesText(number, name, false, r.points),
           ImportedText(start, done'));
    ReadFile(files, existing, controls, j, dir, projectDir, autoit, p, r, name);
    if converted.Some? {
      failure := Some(ConvertFailed(converted.value));
    } else {
      failure := None;
      JoinedAppend(done, Tagged(name, r.points), ImportFrom(files, existing, controls, j + 1, dir, projectDir, autoit));
    }
  }

  // ---------------------------------------------------------------------------
  // One step of ImportFrom
  // ---------------------------------------------------------------------------

  lemma ImportSkip(files: map<string, string>, existing: set<string>, controls: seq<string>, j: nat,
                   dir: string, projectDir: string, autoit: bool)
    requires j < |controls| && Resolve(existing, controls[j], dir, projectDir, autoit) == Skipped
    ensures ImportFrom(files, existing, controls, j, dir, projectDir, autoit)
      == ImportFrom(files, existing, controls, j + 1, dir, projectDir, autoit)
  {
  }

  lemma ImportNotFound(files: map<string, string>, existing: set<string>, controls: seq<string>, j: nat,
                       dir: string, projectDir: string, autoit: bool)
    requires j < |controls| && Resolve(existing, controls[j], dir, projectDir, autoit) == NotFound
    ensures ImportFrom(files, existing, controls, j, dir, projectDir, autoit) == Imported([], Some(ControlFileNotFound(controls[j])))
  {
  }

  lemma ImportFound(files: map<string, string>, existing: set<string>, controls: seq<string>, j: nat,
                    dir: string, projectDir: string, autoit: bool, p: string)
    requires j < |controls| && Resolve(existing, controls[j], dir, projectDir, autoit) == Found(p)
    ensures ImportFrom(files, existing, controls, j, dir, projectDir, autoit)
      == ImportFile(files, existing, controls, j, p, dir, projectDir, autoit)
  {
  }

  lemma ImportCannotOpen(files: map<string, string>, existing: set<string>, controls: seq<string>, j: nat,
                         dir: string, projectDir: string, autoit: bool, p: string)
    requires j < |controls| && p !in files
    ensures ImportFile(files, existing, controls, j, p, dir, projectDir, autoit) == Imported([], Some(CannotOpen(p)))
  {
  }

  lemma ReadFile(files: map<string, string>, existing: set<string>, controls: seq<string>, j: nat,
                 dir: string, projectDir: string, autoit: bool, p: string, r: Scanner.ScanResult, name: string)
    requires j < |controls| && p in files
    requires r == Scanner.Scan(Text.Lines(files[p]), 0) && name == Paths.StemName(p)
    ensures r.failure.Some? ==>
      ImportFile(files, existing, controls, j, p, dir, projectDir, autoit) == Imported(Tagged(name, r.points), Some(ConvertFailed(r.failure.value)))
    ensures r.failure.None? ==>
      var rest := ImportFrom(files, existing, controls, j + 1, dir, projectDir, autoit);
      ImportFile(files, existing, controls, j, p, dir, projectDir, autoit) == Imported(Tagged(name, r.points) + rest.points, rest.failure)
  {
  }

  lemma JoinedNothing(done: seq<NamedPoint>, r: Imported)
    requires r.points == []
    ensures Joined(done, r) == Imported(done, r.failure)
  {
    assert done + [] == done;
  }

  lemma JoinedAppend(done: seq<NamedPoint>, here: seq<NamedPoint>, r: Imported)
    ensures Joined(done, Imported(here + r.points, r.failure)) == Joined(done + here, r)
  {
    assert done + (here + r.points) == (done + here) + r.points;
  }

  // ---------------------------------------------------------------------------
  // Numbering across control files
  // ---------------------------------------------------------------------------

  /** The entries of one control file, appended after those of the files
      before it, continue their numbering: together they are the run of all the
      points read so far. */
  lemma ImportedAppend(start: int, done: seq<NamedPoint>, name: string, cs: seq<Convert.Coordinates>, n: int)
    requires n == start + |done|
    ensures ImportedText(start, done + Tagged(name, cs)) == ImportedText(start, done) + EntriesText(n, name, false, cs)
  {
    var tagged := Tagged(name, cs);
    ImportedConcat(start, done, tagged, n);
    TaggedRun(n, name, cs);
  }

  /** The run of a + b is the run of a followed by the run of b, numbered on from a. */
  lemma ImportedConcat(start: int, a: seq<NamedPoint>, b: seq<NamedPoint>, n: int)
    requires n == start + |a|
    ensures ImportedText(start, a + b) == ImportedText(start, a) + ImportedText(n, b)
  {
    RunConcatAt(start, a, b, NamedEntry(false), n);
  }

  /** The named points of one file give the same entries as the file's own run. */
  lemma TaggedRun(start: int, name: string, cs: seq<Convert.Coordinates>)
    ensures ImportedText(start, Tagged(name, cs)) == EntriesText(start, name, false, cs)
  {
    var ps := Tagged(name, cs);
    forall n, k | 0 <= k < |ps| ensures NamedEntry(false)(n, ps[k]) == EntryOf(name, false)(n, cs[k]) {
      assert ps[k] == NamedPoint(name, cs[k]);
      EntryOfApply(name, false, n, cs[k]);
    }
    RunRelabel(start, ps, cs, NamedEntry(false), EntryOf(name, false));
  }

  /** The i-th point read, over all control files, is written as entry number
      start + i, under its own file's name (NamedEntry), after the entries of
      the points before it and before those of the points after it: the numbers
      are consecutive, with no gap and no repeat. */
  lemma ImportedEntryAt(start: int, ps: seq<NamedPoint>, i: nat)
    requires i < |ps|
    ensures ImportedText(start, ps)
      == ImportedText(start, ps[..i]) + NamedEntry(false)(start + i, ps[i]) + ImportedText(start + i + 1, ps[i + 1..])
  {
    RunAt(start, ps, NamedEntry(false), i);
  }

  // ---------------------------------------------------------------------------
  // Properties of the loop
  // ---------------------------------------------------------------------------

  /** The errors the loop over the control files can stop with: a name found
      nowhere (with AutoIt only), a path found that cannot be opened as a file,
      or a coordinate line that does not convert. */
  predicate LoopError(e: RunError, autoit: bool)
  {
    (e.ControlFileNotFound? && autoit) || e.CannotOpen? || e.ConvertFailed?
  }

  /** The loop stops with nothing but a loop error. */
  lemma {:induction false} ImportFailures(files: map<string, string>, existing: set<string>, controls: seq<string>,
                                          j: nat, dir: string, projectDir: string, autoit: bool)
    ensures var r := ImportFrom(files, existing, controls, j, dir, projectDir, autoit);
      r.failure.Some? ==> LoopError(r.failure.value, autoit)
    decreases |controls| - j
  {
    if j < |controls| {
      match Resolve(existing, controls[j], dir, projectDir, autoit)
      case Skipped =>
        ImportFailures(files, existing, controls, j + 1, dir, projectDir, autoit);
      case NotFound =>
      case Found(p) =>
        if p in files {
          ImportFailures(files, existing, controls, j + 1, dir, projectDir, autoit);
        }
    }
  }

  /** Without AutoIt, control file names that do not exist are passed over:
      when none of them exists, nothing is read and the run does not stop. */
  lemma {:induction false} ImportNothingFound(files: map<string, string>, existing: set<string>, controls: seq<string>,
                                              j: nat, dir: string, projectDir: string)
    requires forall i :: j <= i < |controls| ==> controls[i] !in existing
    ensures ImportFrom(files, existing, controls, j, dir, projectDir, false) == Imported([], None)
    decreases |controls| - j
  {
    if j < |controls| {
      ImportSkip(files, existing, controls, j, dir, projectDir, false);
      ImportNothingFound(files, existing, controls, j + 1, dir, projectDir);
    }
  }

  /** The stem names of the control files in control_files[j..] that the
      lookup finds and that can be opened as files. */
  function ReadStems(files: map<string, string>, existing: set<string>, controls: seq<string>, j: nat,
                     dir: string, projectDir: string, autoit: bool): set<string>
  {
    set i | j <= i < |controls| && Resolve(existing, controls[i], dir, projectDir, autoit).Found?
                               && Resolve(existing, controls[i], dir, projectDir, autoit).path in files
      :: Paths.StemName(Resolve(existing, controls[i], dir, projectDir, autoit).path)
  }

  /** Every point of `ps` carries one of the names `names`. */
  predicate NamedAfterFiles(ps: seq<NamedPoint>, names: set<string>)
  {
    forall k :: 0 <= k < |ps| ==> ps[k].name in names
  }

  /** Every point read is written under the stem name of one of the control
      files given, as the lookup found it and opened it. */
  lemma {:induction false} ImportedNames(files: map<string, string>, existing: set<string>, controls: seq<string>,
                                         j: nat, dir: string, projectDir: string, autoit: bool)
    ensures NamedAfterFiles(ImportFrom(files, existing, controls, j, dir, projectDir, autoit).points,
                            ReadStems(files, existing, controls, j, dir, projectDir, autoit))
    decreases |controls| - j
  {
    if j < |controls| {
      var names := ReadStems(files, existing, controls, j, dir, projectDir, autoit);
      var later := ReadStems(files, existing, controls, j + 1, dir, projectDir, autoit);
      match Resolve(existing, controls[j], dir, projectDir, autoit)
      case Skipped =>
        ImportSkip(files, existing, controls, j, dir, projectDir, autoit);
        ImportedNames(files, existing, controls, j + 1, dir, projectDir, autoit);
        ReadStemsLater(files, existing, controls, j, dir, projectDir, autoit);
        NamedWithin(ImportFrom(files, existing, controls, j + 1, dir, projectDir, autoit).points, later, names);
      case NotFound =>
        ImportNotFound(files, existing, controls, j, dir, projectDir, autoit);
      case Found(p) =>
        ImportFound(files, existing, controls, j, dir, projectDir, autoit, p);
        if p in files {
          var r := Scanner.Scan(Text.Lines(files[p]), 0);
          ReadFile(files, existing, controls, j, dir, projectDir, autoit, p, r, Paths.StemName(p));
          ReadStemsHere(files, existing, controls, j, dir, projectDir, autoit, p);
          TaggedNames(Paths.StemName(p), r.points, names);
          if r.failure.None? {
            ImportedNames(files, existing, controls, j + 1, dir, projectDir, autoit);
            var rest := ImportFrom(files, existing, controls, j + 1, dir, projectDir, autoit);
            ReadStemsLater(files, existing, controls, j, dir, projectDir, autoit);
            NamedWithin(rest.points, later, names);
            NamedConcat(Tagged(Paths.StemName(p), r.points), rest.points, names);
          }
        } else {
          ImportCannotOpen(files, existing, controls, j, dir, projectDir, autoit, p);
        }
    }
  }

  lemma ReadStemsHere(files: map<string, string>, existing: set<string>, controls: seq<string>, j: nat,
                      dir: string, projectDir: string, autoit: bool, p: string)
    requires j < |controls| && Resolve(existing, controls[j], dir, projectDir, autoit) == Found(p) && p in files
    ensures Paths.StemName(p) in ReadStems(files, existing, controls, j, dir, projectDir, autoit)
  {
    assert Resolve(existing, controls[j], dir, projectDir, autoit).path == p;
  }

  lemma ReadStemsLater(files: map<string, string>, existing: set<string>, controls: seq<string>, j: nat,
                       dir: string, projectDir: string, autoit: bool)
    ensures ReadStems(files, existing, controls, j + 1, dir, projectDir, autoit)
      <= ReadStems(files, existing, controls, j, dir, projectDir, autoit)
  {
  }

  lemma NamedWithin(ps: seq<NamedPoint>, a: set<string>, b: set<string>)
    requires NamedAfterFiles(ps, a) && a <= b
    ensures NamedAfterFiles(ps, b)
  {
  }

  lemma TaggedNames(name: string, cs: seq<Convert.Coordinates>, names: set<string>)
    requires name in names
    ensures NamedAfterFiles(Tagged(name, cs), names)
  {
  }

  lemma NamedConcat(a: seq<NamedPoint>, b: seq<NamedPoint>, names: set<string>)
    requires NamedAfterFiles(a, names) && NamedAfterFiles(b, names)
    ensures NamedAfterFiles(a + b, names)
  {
    var ab := a + b;
    forall k | 0 <= k < |ab| ensures ab[k].name in names {
      if k < |a| {
        assert ab[k] == a[k];
      } else {
        assert ab[k] == b[k - |a|];
      }
    }
  }
}
