# importControlPoints in Dafny

This project models the core of `importControlPoints.py`. The script imports control points into a
Socet Set ground point file (`.gpf`). The control points come from the text files that a Matlab/LOLA
registration writes. The script:

- reads every control file line by line;
- after each `Control Point:` marker line, converts the next line's two `D:M:S` fields and its
  elevation into latitude and longitude in radians (`convert_coordinates`);
- appends one five-line entry per point to a temporary copy of the `.gpf` file
  (`write_coordinates`, `append_control_points`), numbering the points on from the count on the
  file's second line;
- patches that count, and moves the copy over the `.gpf` file (`main`). A `_backup` copy of the
  `.gpf` file is made before anything else changes.

The model keeps the script's own form:

- The open `.gpf` file in append mode is a class (`GpfEntry.GpfWriter`) with a `contents` field.
  `write_coordinates` is a method that appends to it.
- The readline loop of `append_control_points` and the loop of `main` over the control files are
  `while` loops, each proved against a recursive specification function: `Scanner.Scan` and
  `Imports.ImportFrom`.
- The file system is a class (`ImportRun.Disk`) holding a map from paths to file texts and the set
  of directories. `main` after option parsing is a module-level method that takes the `Disk`
  (`ImportRun.ImportControlPoints`), proved equal to the function `ImportRun.RunImport`. The run-level properties are proved as lemmas
  about that function.
- `convert_coordinates`, the path naming, the AutoIt argument split and the count patch are pure
  string code, so they are functions.

Python's own string and number operations are written out as functions and proved about where the
model relies on them. These are `strip`, `split()`, `split(sep)`, `join`, `replace`, `readlines`,
`str(int)`, `int()`, `float()`, `'{0:.14f}'.format`, and `ntpath.basename` / `splitext`. They live
in the modules `Text`, `Numbers` and `Paths`.

Notable behaviours of the script, all kept in the model:

- `str.replace` on the count line replaces every occurrence of the old count, not only the first
  (`Counts.PatchCount`).
- A `D:M:S` field with more than three `:`-separated parts is accepted, and parts after the third
  are ignored (`Convert.ExtraDmsPartsIgnored`).
- Without AutoIt, a control file that does not exist is passed over, and the run goes on. Only in
  AutoIt mode does a name that is found nowhere stop the run (`Imports.Resolve`,
  `Imports.ImportNothingFound`).
- An entry has no blank line between its coordinate line and its accuracy line. The only blank
  line is the one after the offset line (`GpfEntry.EntryText`).

## Model

| member | source | states |
|---|---|---|
| Convert.ConvertCoordinates | importControlPoints.py:60-95 | the line converts exactly when it has at least six whitespace tokens, tokens 1 and 3 are `D:M:S` fields with three numeric parts and token 5 is a number; the result is `[lat, lon, elev]`, with the latitude from token 3, the longitude from token 1 and the elevation unscaled; fewer than two tokens raise IndexError |
| Convert.DmsToRadians | importControlPoints.py:71-89 | a field converts exactly when it splits on `:` into at least three parts and the first three are numbers; the value is the signed-degree sum times π/180; an IndexError comes only from a field with fewer than three parts |
| Convert.PartsToRadians | importControlPoints.py:71-81 | the same for the list of parts: it converts exactly when there are at least three parts and the first three are numbers, and an IndexError comes only from fewer than three parts |
| Convert.SignRule | importControlPoints.py:75-78 | with non-negative minutes and seconds, the angle is negative exactly when the degree part is negative, and its magnitude is \|D\| + M/60 + S/3600 |
| Convert.ZeroDegreesAddMinutes | importControlPoints.py:75-78 | a degree part that reads as zero (such as `-0`) takes the non-negative branch, so the minutes and seconds are added |
| Convert.MinusZero | importControlPoints.py:75 | `float("-0")` is 0.0, which is not below zero |
| Convert.NegativeDegrees | importControlPoints.py:75-76 | the field printed from −10°, 15′ and 36″ converts to −10.26°, in radians |
| Convert.ExtraDmsPartsIgnored | importControlPoints.py:71-73 | appending a further `:` part to a field that already has three or more parts does not change its conversion |
| Convert.EmptyLineRaises | importControlPoints.py:50-53 | a marker on the last line hands `""` to the converter, which raises IndexError |
| Convert.DmsFieldRoundTrip | importControlPoints.py:71-89 | a field printed as `D:M:S` from three numbers converts to the signed-degree value of those numbers rounded to 14 decimals |
| Convert.ConvertRoundTrip | importControlPoints.py:65-95 | a line whose tokens 1, 3 and 5 are a printed longitude, latitude and elevation converts to exactly those values, whatever the other tokens are and however many follow |
| GpfEntry.GpfWriter.constructor | importControlPoints.py:289 | the temporary file opened for appending starts with the copy's text |
| GpfEntry.GpfWriter.Write | importControlPoints.py:106-128 | a write in append mode adds its text at the end and changes nothing else |
| GpfEntry.GpfWriter.WriteCoordinates | importControlPoints.py:98-130 | appends exactly the five writes of one entry (header with the `1 3` / `0 3` flag, coordinates separated by eight spaces, accuracy line, offset line, blank line) and returns the number plus one |
| GpfEntry.DecodeEntryOf | importControlPoints.py:104-122 | for any control file name (spaces included), the first two lines of an entry read back as its point number and its coordinates rounded to 14 decimals |
| Entries.EntriesAppend | importControlPoints.py:55 | writing one more point, numbered after the points already written, extends the run of entries by that point's entry |
| Entries.DecodeEntries | importControlPoints.py:98-130 | for any control file name without a newline (spaces included), in the text of a run of entries, readlines finds five lines per point, and lines 5i and 5i+1 decode to point number start + i and point i's coordinates |
| Scanner.AppendControlPoints | importControlPoints.py:32-57 | appends the entries of the points `Scan` finds in the file, under the file's stem name, numbered from the number passed in; returns that number plus the number of points, and the conversion error that stopped the reading, if any |
| Scanner.ReadPoints | importControlPoints.py:40-56 | the readline loop: the same, for the lines of the file and a given name |
| Scanner.ReadLineStep | importControlPoints.py:41-55 | one pass of the loop: a stripped, non-empty line containing the marker consumes the line after it as coordinates; any other line is skipped; what is written stays the run of the points found so far |
| Scanner.ConvertAndWrite | importControlPoints.py:48-55 | on a marker line, the next line is stripped and converted; on success one entry is written and the number goes up by one; on error nothing is written |
| Scanner.WritePoint | importControlPoints.py:55 | write_coordinates after a run of entries extends the run |
| Scanner.ScanWithoutMarkers | importControlPoints.py:40-48 | a file with no marker line yields no point and no error |
| Scanner.ScanBound | importControlPoints.py:48-53 | each point uses up a marker line and the line after it, so n lines yield at most n/2 points |
| Scanner.ScanBlocks | importControlPoints.py:40-55 | a file of marker / coordinate-line pairs yields exactly the coordinates of its coordinate lines, in order, with no error |
| Scanner.AppendedPointsDecode | importControlPoints.py:32-57 | for any control file name without a newline (spaces included), after an append, the i-th point of the file decodes from the appended text as number pointNumber + i with its own coordinates |
| Paths.BaseName | importControlPoints.py:38 | `os.path.basename`: the part after the last separator and after the drive, with no separator in it |
| Paths.SplitExt | importControlPoints.py:38 | `os.path.splitext`: root + ext is the path; ext is empty or a dot followed by no dot and no separator |
| Paths.StemName | importControlPoints.py:38 | the control file name without directory and extension contains no separator |
| Paths.StemNameOf | importControlPoints.py:38 | the stem of `dir/name.ext` is `name` |
| Paths.SiblingPath | importControlPoints.py:249-255 | root + tag + ext is one character longer per character of the tag |
| Paths.SiblingsDistinct | importControlPoints.py:247-256 | names made with two different tags (`_backup`, `_temp`) differ, and a name made with a non-empty tag differs from the `.gpf` path |
| Paths.SiblingOfGpf | importControlPoints.py:236-255 | for `dir/project.gpf` the names are `dir/project_backup.gpf` and `dir/project_temp.gpf` |
| Paths.ControlFileList | importControlPoints.py:221-233 | without AutoIt the control files are the arguments after the project name; with AutoIt the second argument is split on `\|` into the directory and as many files as it has `\|` characters; a missing second argument is an error |
| Paths.ControlFileListOfPipe | importControlPoints.py:224-230 | the AutoIt argument joined from a directory and file names with `\|` reads back as that directory and those files |
| Imports.Resolve | importControlPoints.py:302-328 | a name that exists is used as given; without AutoIt a missing name is skipped; with AutoIt it is looked for as `dir/name` first, and only when that is missing as `project/name`; it is not found only when all three are missing |
| Imports.AppendAll | importControlPoints.py:302-328 | the loop over the control files appends the entries of all the points `ImportFrom` reads, numbered from the count, and returns the count plus their number and the error that stopped it |
| Imports.ImportOne | importControlPoints.py:303-328 | one pass of the loop: skipped, not found (the run stops) or found and read, keeping the entries written equal to the run of the points read so far |
| Imports.ReadControlFile | importControlPoints.py:305-325 | append_control_points on the file found, with the point number threaded through |
| Imports.ImportedAppend | importControlPoints.py:306-307 | the entries of one control file continue the numbering of the files before it |
| Imports.ImportedEntryAt | importControlPoints.py:302-328 | the i-th point over all files is written as entry number start + i, between the entries of the points before it and after it: consecutive numbers, no gap, no repeat |
| Imports.ImportFailures | importControlPoints.py:302-328 | the loop stops only because a name was found nowhere (AutoIt only), a path found is not a file, or a coordinate line did not convert |
| Imports.ImportNothingFound | importControlPoints.py:305-311 | without AutoIt, when no control file name exists, nothing is read and the run does not stop |
| Imports.ImportedNames | importControlPoints.py:302-325 | every point read carries the stem name (importControlPoints.py:38) of one of the control files given, at the path the lookup found for it and that could be opened as a file |
| Counts.ReadCountOf | importControlPoints.py:270-282 | a file whose second line is `str(k)` reads the count k |
| Counts.PatchCountOf | importControlPoints.py:346-365 | when the second line is exactly the old count, the patch writes the new count there and keeps the first line and every later line |
| Counts.PatchAppended | importControlPoints.py:346-365 | entries appended after such a file stay after the patched line, and the count read back is the new one |
| Counts.PatchSameCount | importControlPoints.py:346-365 | a patch from k to k gives back the text unchanged, whatever the file holds |
| Counts.ReplaceCountLine | importControlPoints.py:351-352 | `replace(str(k), str(n))` on the line `str(k)\n` gives `str(n)\n` |
| Counts.PatchKeepsLines | importControlPoints.py:346-365 | for any second line ending in a newline, readlines of the patched text is line 1, then line 2 with every `str(k)` replaced by `str(n)`, then the later lines unchanged |
| Text.ReplaceLine | importControlPoints.py:351-352 | replacing a newline-free pattern by a newline-free text in one line ending in a newline gives one line ending in a newline |
| Numbers.ParseIntOfIntToString | importControlPoints.py:276 | `int()` of `str(n)`, surrounded by any whitespace, is n |
| Numbers.ParseIntSpaceAfterSign | importControlPoints.py:276 | Python 2's `int()` skips whitespace between the sign and the digits: a sign, whitespace and digits read as the digits' value, negated for `-`, the same as without the whitespace |
| Numbers.IntToStringInjective | importControlPoints.py:351-352 | two counts that print the same are equal |
| Numbers.NoDigitIsNotANumber | importControlPoints.py:72-73 | `float()` of a field without a digit raises ValueError (inf and nan aside, see Left out) |
| Numbers.ParseFloatOfDigits | importControlPoints.py:72-73 | `float()` of a digit string is that integer |
| Numbers.Fmt14RoundTrip | importControlPoints.py:118-120 | `float()` of `'{0:.14f}'.format(x)` is x rounded half to even to 14 decimals |
| Numbers.Round14 | importControlPoints.py:118-120 | that rounded value is within half a unit of the 14th decimal of x |
| Numbers.Fmt14Shape | importControlPoints.py:118-122 | a printed coordinate is one non-empty token, with no whitespace, that ends in a digit |
| Text.SplitJoin | importControlPoints.py:71 | joining the parts of `s.split(sep)` with sep gives back s |
| Text.JoinSplit | importControlPoints.py:227 | splitting parts joined with a character that none of them contains gives back the parts |
| Text.SplitCount | importControlPoints.py:227 | `s.split(c)` has one more part than s has characters c |
| Text.WordsOfJoin | importControlPoints.py:65 | `split()` of whitespace-free tokens joined by spaces gives back the tokens |
| Text.WordsOfStrip | importControlPoints.py:51-65 | `split()` after `strip()` gives the same tokens as `split()` alone |
| Text.StripPadded | importControlPoints.py:46 | `strip()` removes exactly the whitespace around a text that neither starts nor ends with whitespace |
| Text.ReplaceIsSplitJoin | importControlPoints.py:351-352 | `replace` replaces every occurrence: it is split on the pattern, then joined with the replacement |
| Text.ReplaceSelf | importControlPoints.py:351-352 | replacing a pattern by itself changes nothing |
| Text.ReplaceAbsent | importControlPoints.py:351-352 | replacing a pattern that does not occur changes nothing |
| Text.LinesOfConcat | importControlPoints.py:347-354 | readlines of the concatenation of well-formed lines gives back those lines |
| Text.LinesAppend | importControlPoints.py:347-354 | readlines of a text ending in a newline, followed by more text, is its lines followed by the lines of the rest |
| Runs.RunConcat | importControlPoints.py:302-328 | two runs, the second numbered on from the first, form one run |
| Runs.RunAt | importControlPoints.py:115 | item i of a run is written as piece start + i, between the items before it and after it |
| ImportRun.Disk.Copy | importControlPoints.py:251-256 | `shutil.copy`: the destination holds the source's text, and nothing else changes |
| ImportRun.Disk.Store | importControlPoints.py:365-366 | the file written holds the text, and nothing else changes |
| ImportRun.Disk.Remove | importControlPoints.py:370 | `os.remove`: the path is gone, and nothing else changes |
| ImportRun.Disk.Rename | importControlPoints.py:371 | `os.renames`: the text moves from the source to the destination name |
| ImportRun.ImportControlPoints | importControlPoints.py:196-371 | the run on the disk ends with the outcome and the files `RunImport` gives, and no directory changes |
| ImportRun.UpdateGpf | importControlPoints.py:247-282 | backup, temporary copy, count read: the outcome and the files `Prepare` gives |
| ImportRun.AppendAndPatch | importControlPoints.py:284-371 | the loop, the count patch and the move: the outcome and the files `Finish` gives |
| ImportRun.PatchAndMove | importControlPoints.py:346-371 | the copy's count is patched, the `.gpf` file is removed and the copy takes its name |
| ImportRun.RunStopsEarly | importControlPoints.py:203-245 | a run stops with a missing base directory, argument, project directory or `.gpf` file exactly when it does not reach the `.gpf` file, and then it has changed no file |
| ImportRun.PrepareErrors | importControlPoints.py:276-328 | after the `.gpf` file is found, a run stops with a bad count exactly when line 2 is not an integer, and otherwise only with an error of the loop |
| ImportRun.PrepareBadCount | importControlPoints.py:276-280 | a count that is not an integer stops the run with that error after the backup and the copy are made: both hold the `.gpf` file's text, the `.gpf` file is unchanged, nothing is appended and no other file changes |
| ImportRun.PrepareBackup | importControlPoints.py:247-251 | once the `.gpf` file is found, the backup holds its original text however the run ends |
| ImportRun.PrepareKeepsOthers | importControlPoints.py:247-371 | no path except the `.gpf` file, its backup and its copy changes |
| ImportRun.PrepareFailed | importControlPoints.py:302-328 | a run that fails after the `.gpf` file is found leaves that file's text as it was |
| ImportRun.PrepareDone | importControlPoints.py:282-371 | a run succeeds exactly when the count reads and the loop finishes; it then returns k + N, leaves no copy, and the `.gpf` file holds its text, then the N new entries numbered k, k + 1, …, with the count patched from k to k + N |
| ImportRun.PrepareCountLine | importControlPoints.py:346-365 | when line 2 is exactly the count, a successful run leaves line 1, the new count on line 2, the old rest and the new entries, and the count read back is the number returned |
| ImportRun.PrepareNothingImported | importControlPoints.py:346-365 | a successful run that reads no point leaves the `.gpf` file's text as it was |

## Left out

- Option parsing with getopt, `usage`, the `len(sys.argv)` checks and the `raw_input` prompts
  (importControlPoints.py:133-193, 375-387) are not modelled. The model starts from the parsed
  arguments, the data directory and the AutoIt flag.
- The IndexError of `args[0]`, and in AutoIt mode of `args[1]` (importControlPoints.py:208, 227),
  is the error `MissingArgument`.
- The top-level handler (importControlPoints.py:375-387) prints any exception and ends the
  program. In the model a run ends with an error value and the files as they were when it
  stopped.
- Printing is not modelled. This covers the verbose and debug prints (importControlPoints.py:67-69
  and throughout `main`) and the messages before `sys.exit()`.
- Paths are not normalised. `os.path.normpath` and `os.path.abspath` (importControlPoints.py:210,
  236, 312, 318) are left out, and paths are joined with `/` as written. `ntpath.splitdrive` is
  modelled for `C:` drives only, not for UNC names.
- `os.path.lexists` is membership in the set of existing paths (files and directories), and
  `os.path.isfile` is membership in the map of files. Permissions, symbolic links and metadata
  (`shutil.copy2`) are not modelled. `os.renames` pruning empty directories is not modelled.
- `shutil.copy2` and `shutil.copy` into a path that is an existing directory copy the file into
  that directory (importControlPoints.py:251, 256). The model writes a file at that path instead.
  This matters only when a directory named `<project>_backup.gpf` or `<project>_temp.gpf` exists.
- Opening the `.gpf` file or its copy never fails in the model. The IOError branches at
  importControlPoints.py:264-268, 290-294, 341-345 and 360-364 are left out. A control path that
  exists but is not a file cannot be opened (`CannotOpen`).
- Writes are not buffered: every write to the temporary copy is taken as done when the run stops
  on an error. Crash atomicity of the remove-then-rename is not modelled.
- Floating point is not modelled. Values are exact reals, so `float()` and the arithmetic of
  `convert_coordinates` are exact rather than rounded to doubles. π is the exact value of the
  double `math.pi`.
- Because the reals are exact, the NaN-only `else` branches (importControlPoints.py:79-81, 90-92)
  cannot be reached and are left out.
- `float()` of `inf`, `nan` and their spellings is not modelled: such a token is not a number in
  the model. Only the decimal grammar (sign, digits, point, exponent) is.
- Files are read and written in text mode (importControlPoints.py:36, 263, 289, 340, 359), while
  `shutil.copy` copies bytes. Newline translation (`\r\n` on Windows) is not modelled: the model
  splits lines on `\n` only and writes `\n` as it is.
- Python 2 strings are byte strings. The model works on characters and treats whitespace as
  ASCII whitespace.
- Convert.ConvertCoordinates: its contract names the error only for a line with fewer than two
  tokens. Which IndexError or ValueError other malformed lines raise, and in which order, is given
  by its definition, which follows the source's order of evaluation.
- Counts.ReadCountOf, Counts.PatchCountOf: these state the count read and the count patch only
  for a second line that is exactly `str(k)`. On any other second line (for instance one with
  leading zeros, which `int()` accepts), `PatchCount` is the source's textual replace of every
  occurrence; `Counts.PatchKeepsLines` says only that the lines stay in place, not which count
  is read back.
