/** write_coordinates: one control point appended to a Socet Set ground point
    file (.gpf). An entry is five lines: the point id ("<number>_<control
    file name>"), the "Use" box flag and the point type 3 (XYZ control);
    latitude, longitude and elevation printed with 14 decimals and separated
    by eight spaces; the fixed LROC accuracy; a zero offset; and an empty
    line. */
module GpfEntry {
  import opened Outcomes
  import Text
  import Numbers
  import Convert

  /** The point id, the "Use" box flag (1 when checked) and point type 3. */
  function Header(n: int, name: string, useBox: bool): string
  {
    Numbers.IntToString(n) + "_" + name + (if useBox then " 1 3" else " 0 3")
  }

  /** The eight spaces between the printed coordinates. */
  const Gap: string := "        "

  /** Latitude, longitude and elevation as '{0:.14f}' prints them. */
  function CoordLine(c: Convert.Coordinates): string
  {
    Numbers.Fmt14(c.lat) + Gap + Numbers.Fmt14(c.lon) + Gap + Numbers.Fmt14(c.elev)
  }

  /** The standard LROC accuracy of an XYZ control point. */
  const AccuracyLine: string := "20.000000 20.000000 1.000000"

  /** No offset. */
  const OffsetLine: string := "0.000000 0.000000 0.000000"

  /** Everything write_coordinates appends for point number `n`: its five
      writes, in order. */
  function EntryText(n: int, name: string, useBox: bool, c: Convert.Coordinates): string
  {
    Header(n, name, useBox) + ("\n" + CoordLine(c)) + ("\n" + AccuracyLine) + ("\n" + OffsetLine) + "\n\n"
  }

  /** The open .gpf file in append mode: everything written goes to its end. */
  class GpfWriter {
    var contents: string

    constructor(initial: string)
      ensures contents == initial
    {
      contents := initial;
    }

    method Write(s: string)
      modifies this
      ensures contents == old(contents) + s
    {
      contents := contents + s;
    }

    /** write_coordinates(gpf, coordinates, sequence_number, control_name,
        use_box): appends the entry and returns the next point number. */
    method WriteCoordinates(c: Convert.Coordinates, sequenceNumber: int, controlName: string, useBox: bool)
      returns (next: int)
      modifies this
      ensures contents == old(contents) + EntryText(sequenceNumber, controlName, useBox, c)
      ensures next == sequenceNumber + 1
    {
      ghost var before := contents;
      var header;
      if useBox {
        header := Numbers.IntToString(sequenceNumber) + "_" + controlName + " 1 3";
      } else {
        header := Numbers.IntToString(sequenceNumber) + "_" + controlName + " 0 3";
      }
      Write(header);
      next := sequenceNumber + 1;
      var coords := "\n" + CoordLine(c);
      Write(coords);
      Write("\n" + AccuracyLine);
      Write("\n" + OffsetLine);
      Write("\n\n");
      Regroup(before, header, coords, "\n" + AccuracyLine, "\n" + OffsetLine, "\n\n");
    }
  }

  lemma Regroup(o: string, a: string, b: string, c: string, d: string, e: string)
    ensures o + a + b + c + d + e == o + (a + b + c + d + e)
  {
  }

  // ---------------------------------------------------------------------------
  // Reading an entry back
  // ---------------------------------------------------------------------------

  /** The five lines of one entry, newlines included. */
  function EntryLines(n: int, name: string, useBox: bool, c: Convert.Coordinates): seq<string>
  {
    [Header(n, name, useBox) + "\n", CoordLine(c) + "\n", AccuracyLine + "\n", OffsetLine + "\n", "\n"]
  }

  predicate NoNewline(s: string) {
    forall i :: 0 <= i < |s| ==> s[i] != '\n'
  }

  /** A line's text without a newline, followed by one, is one line. */
  lemma OneLine(s: string)
    requires NoNewline(s)
    ensures Text.IsLine(s + "\n") && Text.EndsWithNewline(s + "\n")
  {
    assert forall i :: 0 <= i < |s| ==> (s + "\n")[i] == s[i];
  }

  lemma HeaderNoNewline(n: int, name: string, useBox: bool)
    requires NoNewline(name)
    ensures NoNewline(Header(n, name, useBox))
  {
    var id := Numbers.IntToString(n);
    var h := Header(n, name, useBox);
    forall i | 0 <= i < |h| ensures h[i] != '\n' {
      if i < |id| {
        assert h[i] == id[i];
      } else if i > |id| && i < |id| + 1 + |name| {
        assert h[i] == name[i - |id| - 1];
      }
    }
  }

  lemma CoordLineNoNewline(c: Convert.Coordinates)
    ensures NoNewline(CoordLine(c))
  {
    Numbers.Fmt14Shape(c.lat);
    Numbers.Fmt14Shape(c.lon);
    Numbers.Fmt14Shape(c.elev);
    NoSpaceNoNewline(Numbers.Fmt14(c.lat), Numbers.Fmt14(c.lon), Numbers.Fmt14(c.elev));
  }

  lemma NoSpaceNoNewline(a: string, b: string, c: string)
    requires Text.NoSpace(a) && Text.NoSpace(b) && Text.NoSpace(c)
    ensures NoNewline(a + Gap + b + Gap + c)
  {
    var l := a + Gap + b + Gap + c;
    forall i | 0 <= i < |l| ensures l[i] != '\n' {
      if i < |a| {
        assert l[i] == a[i];
      } else if |a| + 8 <= i < |a| + 8 + |b| {
        assert l[i] == b[i - |a| - 8];
      } else if |a| + 16 + |b| <= i {
        assert l[i] == c[i - |a| - 16 - |b|];
      }
    }
  }

  /** readlines() on an entry gives its five lines, as long as the control file
      name has no newline in it. */
  lemma EntryLinesOf(n: int, name: string, useBox: bool, c: Convert.Coordinates)
    requires NoNewline(name)
    ensures Text.Lines(EntryText(n, name, useBox, c)) == EntryLines(n, name, useBox, c)
  {
    HeaderNoNewline(n, name, useBox);
    CoordLineNoNewline(c);
    FixedLinesNoNewline();
    FiveLines(Header(n, name, useBox), CoordLine(c), AccuracyLine, OffsetLine);
  }

  lemma FixedLinesNoNewline()
    ensures NoNewline(AccuracyLine) && NoNewline(OffsetLine)
  {
  }

  lemma FiveLines(a: string, b: string, c: string, d: string)
    requires NoNewline(a) && NoNewline(b) && NoNewline(c) && NoNewline(d)
    ensures Text.Lines(a + ("\n" + b) + ("\n" + c) + ("\n" + d) + "\n\n")
      == [a + "\n", b + "\n", c + "\n", d + "\n", "\n"]
  {
    var r3 := (d + "\n") + "\n";
    var r2 := (c + "\n") + r3;
    var r1 := (b + "\n") + r2;
    RegroupLines(a, b, c, d);
    LinesOfNewline();
    ConsLine(d, "\n", ["\n"]);
    ConsLine(c, r3, [d + "\n"] + ["\n"]);
    ConsLine(b, r2, [c + "\n"] + ([d + "\n"] + ["\n"]));
    ConsLine(a, r1, [b + "\n"] + ([c + "\n"] + ([d + "\n"] + ["\n"])));
    FiveList(a + "\n", b + "\n", c + "\n", d + "\n", "\n");
  }

  lemma ConsLine(x: string, rest: string, tail: seq<string>)
    requires NoNewline(x) && Text.Lines(rest) == tail
    ensures Text.Lines((x + "\n") + rest) == [x + "\n"] + tail
  {
    OneLine(x);
    Text.LinesCons(x + "\n", rest);
  }

  lemma FiveList<T>(p: T, q: T, r: T, s: T, t: T)
    ensures [p] + ([q] + ([r] + ([s] + [t]))) == [p, q, r, s, t]
  {
  }

  lemma RegroupLines(a: string, b: string, c: string, d: string)
    ensures a + ("\n" + b) + ("\n" + c) + ("\n" + d) + "\n\n"
      == (a + "\n") + ((b + "\n") + ((c + "\n") + ((d + "\n") + "\n")))
  {
  }

  lemma LinesOfNewline()
    ensures Text.Lines("\n") == ["\n"]
  {
    var k := Text.FirstLineLength("\n");
    assert k == 1;
    assert "\n"[..1] == "\n" && "\n"[1..] == [];
    assert Text.Lines([]) == [];
  }

  // ---------------------------------------------------------------------------
  // Decoding an entry
  // ---------------------------------------------------------------------------

  /** The point number and the coordinates of an entry's first two lines, read
      the way the entry was laid out: the number before the first '_' of the
      first token, and three numbers on the second line. */
  function DecodeEntry(header: string, coords: string): Option<(int, Convert.Coordinates)>
  {
    var hw := Text.Words(header);
    var cw := Text.Words(coords);
    if |hw| == 0 || |cw| != 3 then None
    else
      match Numbers.ParseInt(Text.Split(hw[0], "_")[0])
      case None => None
      case Some(n) =>
        match (Numbers.ParseFloat(cw[0]), Numbers.ParseFloat(cw[1]), Numbers.ParseFloat(cw[2]))
        case (Some(lat), Some(lon), Some(elev)) => Some((n, Convert.Coordinates(lat, lon, elev)))
        case _ => None
  }

  /** The coordinates as the file holds them: each rounded to 14 decimals. */
  function Rounded(c: Convert.Coordinates): Convert.Coordinates
  {
    Convert.Coordinates(Numbers.Round14(c.lat), Numbers.Round14(c.lon), Numbers.Round14(c.elev))
  }

  /** Reading back an entry gives its point number and its coordinates as
      printed, each rounded to 14 decimals, whatever the control file name
      holds (spaces included). */
  lemma DecodeEntryOf(n: int, name: string, useBox: bool, c: Convert.Coordinates)
    ensures var ls := EntryLines(n, name, useBox, c);
      DecodeEntry(ls[0], ls[1])
      == Some((n, Rounded(c)))
  {
    var h := Header(n, name, useBox);
    var w := Text.TakeWord(HeaderRest(name, useBox));
    HeaderFirstWord(n, name, useBox);
    HeaderId(n, w);
    CoordWords(c);
    Numbers.Fmt14RoundTrip(c.lat);
    Numbers.Fmt14RoundTrip(c.lon);
    Numbers.Fmt14RoundTrip(c.elev);
    DecodeOfParts(h + "\n", CoordLine(c) + "\n", Numbers.IntToString(n) + "_" + w, n,
                  Numbers.Fmt14(c.lat), Numbers.Fmt14(c.lon), Numbers.Fmt14(c.elev),
                  Numbers.Round14(c.lat), Numbers.Round14(c.lon), Numbers.Round14(c.elev));
  }

  lemma DecodeOfParts(header: string, coords: string, id: string, n: int, x: string, y: string, z: string,
                      lat: real, lon: real, elev: real)
    requires |Text.Words(header)| > 0 && Text.Words(header)[0] == id
    requires Numbers.ParseInt(Text.Split(id, "_")[0]) == Some(n)
    requires Text.Words(coords) == [x, y, z]
    requires Numbers.ParseFloat(x) == Some(lat) && Numbers.ParseFloat(y) == Some(lon)
    requires Numbers.ParseFloat(z) == Some(elev)
    ensures DecodeEntry(header, coords) == Some((n, Convert.Coordinates(lat, lon, elev)))
  {
  }

  /** What follows the point number and '_' on the header line. */
  function HeaderRest(name: string, useBox: bool): string
  {
    name + (if useBox then " 1 3" else " 0 3") + "\n"
  }

  /** The first token of the header line is the point number and '_',
      followed by the part of the name up to its first whitespace. */
  lemma HeaderFirstWord(n: int, name: string, useBox: bool)
    ensures var ws := Text.Words(Header(n, name, useBox) + "\n");
      |ws| > 0 && ws[0] == Numbers.IntToString(n) + "_" + Text.TakeWord(HeaderRest(name, useBox))
  {
    var p := Numbers.IntToString(n) + "_";
    var x := HeaderRest(name, useBox);
    Text.NoSpaceAppend(Numbers.IntToString(n), "_");
    assert Header(n, name, useBox) + "\n" == p + x;
    Text.TakeWordPrefix(p, x);
    assert (p + x)[0] == p[0];
  }

  /** The text before the first '_' of the point id is the point number. */
  lemma HeaderId(n: int, name: string)
    ensures Numbers.ParseInt(Text.Split(Numbers.IntToString(n) + "_" + name, "_")[0]) == Some(n)
  {
    var num := Numbers.IntToString(n);
    NumberNoUnderscore(n);
    Text.FindAfterFree(num, '_', name);
    assert (num + "_" + name)[..|num|] == num;
    Numbers.StripUnpadded(num);
    Numbers.ParseIntTokenOfIntToString(n);
  }

  lemma NumberNoUnderscore(n: int)
    ensures !Text.Contains(Numbers.IntToString(n), "_")
  {
    var s := Numbers.IntToString(n);
    var d := Numbers.NatToString(if n < 0 then -n else n);
    assert forall i :: 0 <= i < |d| ==> d[i] != '_';
    assert forall i :: 0 <= i < |s| ==> s[i] != '_' by {
      if n < 0 {
        assert forall i :: 1 <= i < |s| ==> s[i] == d[i - 1];
      }
    }
    Text.NotContainsChar(s, '_');
  }

  /** The coordinate line holds exactly the three printed numbers. */
  lemma CoordWords(c: Convert.Coordinates)
    ensures Text.Words(CoordLine(c) + "\n") == [Numbers.Fmt14(c.lat), Numbers.Fmt14(c.lon), Numbers.Fmt14(c.elev)]
  {
    Numbers.Fmt14Shape(c.lat);
    Numbers.Fmt14Shape(c.lon);
    Numbers.Fmt14Shape(c.elev);
    ThreeWords(Numbers.Fmt14(c.lat), Numbers.Fmt14(c.lon), Numbers.Fmt14(c.elev));
  }

  lemma ThreeWords(x: string, y: string, z: string)
    requires x != [] && Text.NoSpace(x) && y != [] && Text.NoSpace(y) && z != [] && Text.NoSpace(z)
    ensures Text.Words(x + Gap + y + Gap + z + "\n") == [x, y, z]
  {
    var r2 := Gap + (z + "\n");
    var r1 := Gap + (y + r2);
    RegroupWords(x, y, z);
    NewlineNoWords();
    GapWord(z, "\n", []);
    GapWord(y, r2, [z]);
    assert r1[0] == ' ';
    Text.WordsCons(x, r1);
  }

  lemma RegroupWords(x: string, y: string, z: string)
    ensures x + Gap + y + Gap + z + "\n" == x + (Gap + (y + (Gap + (z + "\n"))))
  {
  }

  lemma NewlineNoWords()
    ensures Text.Words("\n") == []
  {
    Text.WordsSkipSpace("\n", []);
    assert "\n" + [] == "\n";
  }

  /** A word after the eight-space gap is the next token. */
  lemma GapWord(w: string, rest: string, tail: seq<string>)
    requires w != [] && Text.NoSpace(w) && (rest == [] || Text.IsSpace(rest[0])) && Text.Words(rest) == tail
    ensures Text.Words(Gap + (w + rest)) == [w] + tail
  {
    assert Text.AllSpace(Gap);
    Text.WordsSkipSpace(Gap, w + rest);
    Text.WordsCons(w, rest);
  }
}
