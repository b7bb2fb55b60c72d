/** append_control_points: reading a control file line by line, converting the
    line after every "Control Point:" marker and appending one .gpf entry per
    converted point, numbered on from the point count the caller passes in.
    The control file's text is a parameter: readline() walks through
    Lines(content), and returns "" once it is exhausted. */
module Scanner {
  import opened Outcomes
  import Text
  import Convert
  import Paths
  import opened GpfEntry
  import opened Runs
  import opened Entries

  /** The text that announces a point; the coordinates follow on the next line. */
  const Marker: string := "Control Point:"

  /** A stripped line that is non-empty and contains the marker. */
  predicate IsMarkerLine(line: string)
  {
    var t := Text.Strip(line);
    t != [] && Text.Contains(t, Marker)
  }

  /** The points read from a control file, in order, and the conversion error
      that stopped the reading, if one did. */
  datatype ScanResult = ScanResult(points: seq<Convert.Coordinates>, failure: Option<Convert.ConvertError>)

  /** What the readline loop finds from line i on: each marker line consumes the
      line after it (empty past the end of the file), whose conversion either
      yields a point or raises and ends the reading. */
  function Scan(ls: seq<string>, i: nat): ScanResult
    decreases |ls| - i, 1
  {
    if i >= |ls| then ScanResult([], None)
    else if IsMarkerLine(ls[i]) then ScanMarker(ls, i)
    else Scan(ls, i + 1)
  }

  /** What the reading yields from the marker line i on. */
  function ScanMarker(ls: seq<string>, i: nat): ScanResult
    requires i < |ls|
    decreases |ls| - i, 0
  {
    match Convert.ConvertCoordinates(Text.Strip(Text.LineAt(ls, i + 1)))
    case Err(e) => ScanResult([], Some(e))
    case Ok(c) =>
      var r := Scan(ls, i + 2);
      ScanResult([c] + r.points, r.failure)
  }

  /** The points found before line i, followed by what the rest of the file yields. */
  function After(done: seq<Convert.Coordinates>, r: ScanResult): ScanResult
  {
    ScanResult(done + r.points, r.failure)
  }

  /** append_control_points(gpf, ctrl, point_number, use_box) on a control file
      whose text is `content`. The entries of the points read are appended to
      the .gpf file under the control file's stem name; the result is the next
      free point number, and `failure` is the error convert_coordinates raised,
      if any, after which nothing more is written. */
  method AppendControlPoints(gpf: GpfWriter, ctrl: string, content: string, pointNumber: int, useBox: bool)
    returns (next: int, failure: Option<Convert.ConvertError>)
    modifies gpf
    ensures var r := Scan(Text.Lines(content), 0);
      && gpf.contents == old(gpf.contents) + EntriesText(pointNumber, Paths.StemName(ctrl), useBox, r.points)
      && next == pointNumber + |r.points|
      && failure == r.failure
  {
    var name := Paths.StemName(ctrl);
    next, failure := ReadPoints(gpf, Text.Lines(content), name, pointNumber, useBox);
  }

  /** The readline loop of append_control_points over the lines `ls` of the
      control file, writing points under `name`. */
  method ReadPoints(gpf: GpfWriter, ls: seq<string>, name: string, pointNumber: int, useBox: bool)
    returns (next: int, failure: Option<Convert.ConvertError>)
    modifies gpf
    ensures var r := Scan(ls, 0);
      && gpf.contents == old(gpf.contents) + EntriesText(pointNumber, name, useBox, r.points)
      && next == pointNumber + |r.points|
      && failure == r.failure
  {
    ghost var done: seq<Convert.Coordinates> := [];
    next := pointNumber;
    failure := None;
    var i := 0;
    while i < |ls|
      invariant 0 <= i <= |ls| + 1
      invariant gpf.contents == old(gpf.contents) + EntriesText(pointNumber, name, useBox, done)
      invariant next == pointNumber + |done|
      invariant Scan(ls, 0) == After(done, Scan(ls, i)) && failure == None
      decreases |ls| + 1 - i
    {
      var j;
      j, next, failure, done := ReadLineStep(gpf, ls, i, name, useBox, next, old(gpf.contents), pointNumber, done);
      if failure.Some? {
        return;
      }
      i := j;
    }
    AfterNothing(done, Scan(ls, i));
  }

  /** One pass of the readline loop at line i: a marker line and the line
      after it are consumed and, if the conversion succeeds, the point is
      written; any other line is skipped. */
  method ReadLineStep(gpf: GpfWriter, ls: seq<string>, i: nat, name: string, useBox: bool, number: int,
                      ghost o: string, ghost start: int, ghost done: seq<Convert.Coordinates>)
    returns (j: nat, next: int, failure: Option<Convert.ConvertError>, ghost done': seq<Convert.Coordinates>)
    requires i < |ls|
    requires gpf.contents == o + EntriesText(start, name, useBox, done) && number == start + |done|
    modifies gpf
    ensures failure.Some? ==> After(done, Scan(ls, i)) == ScanResult(done', failure)
    ensures failure.None? ==> i < j <= |ls| + 1 && After(done, Scan(ls, i)) == After(done', Scan(ls, j))
    ensures gpf.contents == o + EntriesText(start, name, useBox, done') && next == start + |done'|
  {
    var line := Text.Strip(ls[i]);
    if line != [] && Text.Contains(line, Marker) {
      var converted;
      next, converted := ConvertAndWrite(gpf, ls, i, name, useBox, number, o, start, done);
      if converted.Err? {
        AfterNothing(done, Scan(ls, i));
        j, failure, done' := i, Some(converted.error), done;
        return;
      }
      AfterCons(done, converted.value, Scan(ls, i + 2));
      j, failure, done' := i + 2, None, done + [converted.value];
    } else {
      ScanSkip(ls, i);
      j, next, failure, done' := i + 1, number, None, done;
    }
  }

  /** The body of the readline loop for a marker line i: read and strip the
      next line, convert it and, if that succeeds, write the point. */
  method ConvertAndWrite(gpf: GpfWriter, ls: seq<string>, i: nat, name: string, useBox: bool, number: int,
                         ghost o: string, ghost start: int, ghost done: seq<Convert.Coordinates>)
    returns (next: int, converted: Result<Convert.Coordinates, Convert.ConvertError>)
    requires i < |ls| && IsMarkerLine(ls[i])
    requires gpf.contents == o + EntriesText(start, name, useBox, done) && number == start + |done|
    modifies gpf
    ensures converted.Err? ==>
      Scan(ls, i) == ScanResult([], Some(converted.error)) && gpf.contents == old(gpf.contents) && next == number
    ensures converted.Ok? ==>
      && Scan(ls, i) == ScanResult([converted.value] + Scan(ls, i + 2).points, Scan(ls, i + 2).failure)
      && gpf.contents == o + EntriesText(start, name, useBox, done + [converted.value])
      && next == number + 1
  {
    var coordsLine := Text.Strip(Text.LineAt(ls, i + 1));
    converted := Convert.ConvertCoordinates(coordsLine);
    if converted.Err? {
      ScanError(ls, i, converted.error);
      next := number;
      return;
    }
    ScanPoint(ls, i, converted.value);
    next := WritePoint(gpf, converted.value, number, name, useBox, o, start, done);
  }

  /** write_coordinates on a .gpf file that already holds a run of entries
      after its original text `o`: the run grows by the new point. */
  method WritePoint(gpf: GpfWriter, c: Convert.Coordinates, number: int, name: string, useBox: bool,
                    ghost o: string, ghost start: int, ghost done: seq<Convert.Coordinates>)
    returns (next: int)
    requires gpf.contents == o + EntriesText(start, name, useBox, done) && number == start + |done|
    modifies gpf
    ensures gpf.contents == o + EntriesText(start, name, useBox, done + [c]) && next == number + 1
  {
    ghost var before := gpf.contents;
    next := gpf.WriteCoordinates(c, number, name, useBox);
    EntriesAppend(start, name, useBox, done, c, number);
    Text.Extend(gpf.contents, before, o, EntriesText(start, name, useBox, done), EntryText(number, name, useBox, c),
           EntriesText(start, name, useBox, done + [c]));
  }

  lemma AfterNothing(done: seq<Convert.Coordinates>, r: ScanResult)
    requires r.points == []
    ensures After(done, r).points == done
  {
    assert done + [] == done;
  }

  lemma ScanError(ls: seq<string>, i: nat, e: Convert.ConvertError)
    requires i < |ls| && IsMarkerLine(ls[i])
    requires Convert.ConvertCoordinates(Text.Strip(Text.LineAt(ls, i + 1))) == Err(e)
    ensures Scan(ls, i) == ScanResult([], Some(e))
  {
  }

  lemma ScanPoint(ls: seq<string>, i: nat, c: Convert.Coordinates)
    requires i < |ls| && IsMarkerLine(ls[i])
    requires Convert.ConvertCoordinates(Text.Strip(Text.LineAt(ls, i + 1))) == Ok(c)
    ensures Scan(ls, i) == ScanResult([c] + Scan(ls, i + 2).points, Scan(ls, i + 2).failure)
  {
  }

  lemma ScanSkip(ls: seq<string>, i: nat)
    requires i < |ls| && !IsMarkerLine(ls[i])
    ensures Scan(ls, i) == Scan(ls, i + 1)
  {
  }

  lemma AfterCons(done: seq<Convert.Coordinates>, c: Convert.Coordinates, r: ScanResult)
    ensures After(done, ScanResult([c] + r.points, r.failure)) == After(done + [c], r)
  {
    assert done + ([c] + r.points) == (done + [c]) + r.points;
  }

  // ---------------------------------------------------------------------------
  // Properties of the reading
  // ---------------------------------------------------------------------------

  /** A control file without marker lines adds no points and raises nothing. */
  lemma {:induction false} ScanWithoutMarkers(ls: seq<string>, i: nat)
    requires forall j :: i <= j < |ls| ==> !IsMarkerLine(ls[j])
    ensures Scan(ls, i) == ScanResult([], None)
    decreases |ls| - i
  {
    if i < |ls| {
      ScanWithoutMarkers(ls, i + 1);
    }
  }

  /** Every point takes a marker line and the line after it, so a file of n
      lines yields at most n / 2 points; a marker on the last line raises. */
  lemma {:induction false} ScanBound(ls: seq<string>, i: nat)
    requires i <= |ls|
    ensures 2 * |Scan(ls, i).points| <= |ls| - i
    decreases |ls| - i
  {
    if i < |ls| {
      if IsMarkerLine(ls[i]) {
        if i + 1 == |ls| {
          Convert.EmptyLineRaises();
          assert Text.Strip(Text.LineAt(ls, i + 1)) == [];
        } else {
          ScanBound(ls, i + 2);
        }
      } else {
        ScanBound(ls, i + 1);
      }
    }
  }

  /** The lines of a control file in which every marker line is followed by
      its coordinate line. */
  function Blocks(markers: seq<string>, coords: seq<string>): seq<string>
    requires |markers| == |coords|
    decreases |markers|
  {
    if markers == [] then [] else [markers[0], coords[0]] + Blocks(markers[1..], coords[1..])
  }

  /** Every line of `markers` is a marker line. */
  predicate AllMarkers(markers: seq<string>)
    decreases |markers|
  {
    markers == [] || (IsMarkerLine(markers[0]) && AllMarkers(markers[1..]))
  }

  /** Each coordinate line, stripped, converts to the matching point. */
  predicate ConvertsTo(coords: seq<string>, cs: seq<Convert.Coordinates>)
    decreases |coords|
  {
    |coords| == |cs|
    && (coords == [] || (Convert.ConvertCoordinates(Text.Strip(coords[0])) == Ok(cs[0]) && ConvertsTo(coords[1..], cs[1..])))
  }

  /** A file of marker / coordinate-line pairs yields exactly the coordinates
      of its coordinate lines, in order, and no error. */
  lemma {:induction false} ScanBlocks(ls: seq<string>, i: nat, markers: seq<string>, coords: seq<string>,
                                      cs: seq<Convert.Coordinates>)
    requires |markers| == |coords| && i <= |ls| && ls[i..] == Blocks(markers, coords)
    requires AllMarkers(markers) && ConvertsTo(coords, cs)
    ensures Scan(ls, i) == ScanResult(cs, None)
    decreases |markers|
  {
    if markers == [] {
      BlocksEnd(ls, i);
    } else {
      BlocksHead(ls, i, markers, coords);
      ScanBlocks(ls, i + 2, markers[1..], coords[1..], cs[1..]);
      ScanPoint(ls, i, cs[0]);
      ConsTail(cs);
    }
  }

  lemma BlocksEnd(ls: seq<string>, i: nat)
    requires i <= |ls| && ls[i..] == []
    ensures Scan(ls, i) == ScanResult([], None)
  {
    assert |ls[i..]| == 0;
  }

  /** The first block of the lines from i on is lines i and i + 1. */
  lemma BlocksHead(ls: seq<string>, i: nat, markers: seq<string>, coords: seq<string>)
    requires |markers| == |coords| && markers != [] && i <= |ls| && ls[i..] == Blocks(markers, coords)
    ensures i + 1 < |ls| && ls[i] == markers[0] && Text.LineAt(ls, i + 1) == coords[0]
    ensures ls[i + 2..] == Blocks(markers[1..], coords[1..])
  {
    var tail := Blocks(markers[1..], coords[1..]);
    assert ls[i..] == [markers[0], coords[0]] + tail;
    assert ls[i] == ls[i..][0];
    assert ls[i + 1] == ls[i..][1];
    assert ls[i + 2..] == ls[i..][2..];
  }

  lemma ConsTail<T>(s: seq<T>)
    requires s != []
    ensures [s[0]] + s[1..] == s
  {
  }

  /** After a successful append, every point read is in the .gpf file under
      its own number: the i-th point of the file decodes, five lines after the
      one before it, to point number pointNumber + i and its coordinates as
      printed. */
  lemma AppendedPointsDecode(ctrl: string, content: string, pointNumber: int, useBox: bool, i: nat)
    requires NoNewline(Paths.StemName(ctrl))
    requires i < |Scan(Text.Lines(content), 0).points|
    ensures var ps := Scan(Text.Lines(content), 0).points;
      var ls := Text.Lines(EntriesText(pointNumber, Paths.StemName(ctrl), useBox, ps));
      |ls| == 5 * |ps| && DecodeEntry(ls[5 * i], ls[5 * i + 1]) == Some((pointNumber + i, Rounded(ps[i])))
  {
    DecodeEntries(pointNumber, Paths.StemName(ctrl), useBox, Scan(Text.Lines(content), 0).points, i);
  }
}
