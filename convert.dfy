/** convert_coordinates: one coordinate line of a control file, as written by
    the LOLA registration, turned into latitude and longitude in radians and
    the elevation as given. The line holds whitespace-separated tokens; token 1
    is the longitude and token 3 the latitude, each as D:M:S, and token 5 the
    elevation. */
module Convert {
  import opened Outcomes
  import Text
  import Numbers

  /** math.pi: the double nearest to pi, written out exactly. */
  const Pi: real := 3.141592653589793115997963468544185161590576171875

  /** What convert_coordinates raises: an index past the end of the token list
      or of a D:M:S field, or float() on a field that is not a number. */
  datatype ConvertError = IndexError | ValueError(field: string)

  /** The list [lat, lon, elev] the converter returns. */
  datatype Coordinates = Coordinates(lat: real, lon: real, elev: real)

  /** math.pi / 180.0 * deg. */
  function Radians(deg: real): real
  {
    deg * (Pi / 180.0)
  }

  function Abs(x: real): real
  {
    if x < 0.0 then -x else x
  }

  /** Degrees, minutes and seconds to decimal degrees. A negative degree field
      makes the whole angle negative: the minutes and seconds are then
      subtracted. A degree field of zero counts as non-negative. */
  function SignedDegrees(d: real, m: real, s: real): real
  {
    if d < 0.0 then d - m / 60.0 - s / 3600.0 else d + m / 60.0 + s / 3600.0
  }

  /** With non-negative minutes and seconds, the degree field alone decides the
      sign, and the magnitude is |D| + M/60 + S/3600. */
  lemma SignRule(d: real, m: real, s: real)
    requires m >= 0.0 && s >= 0.0
    ensures SignedDegrees(d, m, s) < 0.0 <==> d < 0.0
    ensures Abs(SignedDegrees(d, m, s)) == Abs(d) + m / 60.0 + s / 3600.0
  {
  }

  /** One D:M:S field split on ':' and converted to radians. */
  function DmsToRadians(field: string): (r: Result<real, ConvertError>)
    ensures r.Ok? <==> IsDms(field)
    ensures r.Ok? ==> r.value == Radians(SignedDegrees(DmsPart(field, 0), DmsPart(field, 1), DmsPart(field, 2)))
    ensures r == Err(IndexError) ==> |Text.Split(field, ":")| < 3
  {
    PartsToRadians(Text.Split(field, ":"))
  }

  /** The conversion of the ':'-separated parts of a D:M:S field. The source
      reads part 1, then part 2, then part 0, so an error comes from the first
      of these that is missing or not a number. Parts after the third are ignored. */
  function PartsToRadians(parts: seq<string>): (r: Result<real, ConvertError>)
    ensures r.Ok? <==> AreDmsParts(parts)
    ensures r.Ok? ==> r.value == Radians(SignedDegrees(PartValue(parts, 0), PartValue(parts, 1), PartValue(parts, 2)))
    ensures r == Err(IndexError) ==> |parts| < 3
  {
    if |parts| < 2 then Err(IndexError)
    else match Numbers.ParseFloat(parts[1])
      case None => Err(ValueError(parts[1]))
      case Some(m) =>
        if |parts| < 3 then Err(IndexError)
        else match Numbers.ParseFloat(parts[2])
          case None => Err(ValueError(parts[2]))
          case Some(s) =>
            match Numbers.ParseFloat(parts[0])
            case None => Err(ValueError(parts[0]))
            case Some(d) => Ok(Radians(SignedDegrees(d, m, s)))
  }

  /** At least three parts, the first three of them numbers. */
  predicate AreDmsParts(parts: seq<string>)
  {
    |parts| >= 3 && Numbers.ParseFloat(parts[0]).Some? && Numbers.ParseFloat(parts[1]).Some?
    && Numbers.ParseFloat(parts[2]).Some?
  }

  function PartValue(parts: seq<string>, k: nat): real
    requires AreDmsParts(parts) && k < 3
  {
    if k == 0 then Numbers.ParseFloat(parts[0]).value
    else if k == 1 then Numbers.ParseFloat(parts[1]).value
    else Numbers.ParseFloat(parts[2]).value
  }

  /** A field that splits on ':' into at least three parts, the first three numbers. */
  predicate IsDms(field: string)
  {
    AreDmsParts(Text.Split(field, ":"))
  }

  /** The number in part `k` of a D:M:S field. */
  function DmsPart(field: string, k: nat): real
    requires IsDms(field) && k < 3
  {
    PartValue(Text.Split(field, ":"), k)
  }

  /** convert_coordinates(line): tokens 1 and 3 converted as D:M:S fields (the
      longitude first), token 5 read as a number; the result is ordered
      latitude, longitude, elevation. */
  function ConvertCoordinates(line: string): (r: Result<Coordinates, ConvertError>)
    ensures var w := Text.Words(line);
      r.Ok? <==> |w| >= 6 && IsDms(w[1]) && IsDms(w[3]) && Numbers.ParseFloat(w[5]).Some?
    ensures var w := Text.Words(line);
      r.Ok? ==> r.value == Coordinates(DmsToRadians(w[3]).value, DmsToRadians(w[1]).value, Numbers.ParseFloat(w[5]).value)
    ensures |Text.Words(line)| < 2 ==> r == Err(IndexError)
  {
    var w := Text.Words(line);
    if |w| < 2 then Err(IndexError)
    else match DmsToRadians(w[1])
      case Err(e) => Err(e)
      case Ok(lon) =>
        if |w| < 4 then Err(IndexError)
        else match DmsToRadians(w[3])
          case Err(e) => Err(e)
          case Ok(lat) =>
            if |w| < 6 then Err(IndexError)
            else match Numbers.ParseFloat(w[5])
              case None => Err(ValueError(w[5]))
              case Some(h) => Ok(Coordinates(lat, lon, h))
  }

  // ---------------------------------------------------------------------------
  // Building a coordinate line and reading it back
  // ---------------------------------------------------------------------------

  /** A D:M:S field printed from three numbers. */
  function DmsField(d: real, m: real, s: real): string
  {
    Text.Join([Numbers.Fmt14(d), Numbers.Fmt14(m), Numbers.Fmt14(s)], ":")
  }

  lemma Fmt14NoColon(x: real)
    ensures !Text.Contains(Numbers.Fmt14(x), ":")
  {
    Numbers.Fmt14Chars(x);
    Text.NotContainsChar(Numbers.Fmt14(x), ':');
  }

  /** Three ':'-free parts that read as numbers, joined with ':', convert to
      the angle of those numbers. */
  lemma FieldOfParts(p0: string, p1: string, p2: string, d: real, m: real, s: real)
    requires !Text.Contains(p0, ":") && !Text.Contains(p1, ":") && !Text.Contains(p2, ":")
    requires Numbers.ParseFloat(p0) == Some(d) && Numbers.ParseFloat(p1) == Some(m)
    requires Numbers.ParseFloat(p2) == Some(s)
    ensures DmsToRadians(Text.Join([p0, p1, p2], ":")) == Ok(Radians(SignedDegrees(d, m, s)))
  {
    var f := Text.Join([p0, p1, p2], ":");
    SplitOfThree(p0, p1, p2);
    PartsOfNumbers(p0, p1, p2, d, m, s);
    FieldOfSplit(f, [p0, p1, p2], Radians(SignedDegrees(d, m, s)));
  }

  lemma SplitOfThree(p0: string, p1: string, p2: string)
    requires !Text.Contains(p0, ":") && !Text.Contains(p1, ":") && !Text.Contains(p2, ":")
    ensures Text.Split(Text.Join([p0, p1, p2], ":"), ":") == [p0, p1, p2]
  {
    Text.JoinSplit([p0, p1, p2], ':');
  }

  /** Three parts that read as numbers convert to the angle of those numbers. */
  lemma PartsOfNumbers(p0: string, p1: string, p2: string, d: real, m: real, s: real)
    requires Numbers.ParseFloat(p0) == Some(d) && Numbers.ParseFloat(p1) == Some(m)
    requires Numbers.ParseFloat(p2) == Some(s)
    ensures PartsToRadians([p0, p1, p2]) == Ok(Radians(SignedDegrees(d, m, s)))
  {
  }

  lemma FieldOfSplit(f: string, parts: seq<string>, a: real)
    requires Text.Split(f, ":") == parts && PartsToRadians(parts) == Ok(a)
    ensures DmsToRadians(f) == Ok(a)
  {
  }

  /** Reading a printed D:M:S field gives the angle of the printed (rounded) parts. */
  lemma DmsFieldRoundTrip(d: real, m: real, s: real)
    ensures DmsToRadians(DmsField(d, m, s))
      == Ok(Radians(SignedDegrees(Numbers.Round14(d), Numbers.Round14(m), Numbers.Round14(s))))
  {
    Fmt14NoColon(d);
    Fmt14NoColon(m);
    Fmt14NoColon(s);
    Numbers.Fmt14RoundTrip(d);
    Numbers.Fmt14RoundTrip(m);
    Numbers.Fmt14RoundTrip(s);
    FieldOfParts(Numbers.Fmt14(d), Numbers.Fmt14(m), Numbers.Fmt14(s),
                 Numbers.Round14(d), Numbers.Round14(m), Numbers.Round14(s));
  }

  /** A printed D:M:S field never holds whitespace. */
  lemma DmsFieldIsWord(d: real, m: real, s: real)
    ensures DmsField(d, m, s) != [] && Text.NoSpace(DmsField(d, m, s))
  {
    Numbers.Fmt14Shape(d);
    Numbers.Fmt14Shape(m);
    Numbers.Fmt14Shape(s);
    JoinThreeNoSpace(Numbers.Fmt14(d), Numbers.Fmt14(m), Numbers.Fmt14(s));
  }

  lemma JoinThreeNoSpace(a: string, b: string, c: string)
    requires a != [] && Text.NoSpace(a) && Text.NoSpace(b) && Text.NoSpace(c)
    ensures Text.Join([a, b, c], ":") != [] && Text.NoSpace(Text.Join([a, b, c], ":"))
  {
    Text.JoinNoSpace([a, b, c], ":");
  }

  /** Parts of a D:M:S field after the third are never read. */
  lemma ExtraDmsPartsIgnored(field: string, extra: string)
    requires |Text.Split(field, ":")| >= 3
    ensures DmsToRadians(field + ":" + extra) == DmsToRadians(field)
  {
    var ps := Text.Split(field, ":");
    var qs := Text.Split(extra, ":");
    Text.SplitJoin(field, ":");
    Text.SplitJoin(extra, ":");
    Text.JoinAppend(ps, qs, ":");
    Text.JoinSplit(ps + qs, ':');
    assert (ps + qs)[..3] == ps[..3];
    SamePartsSameAngle(ps + qs, ps);
  }

  lemma SamePartsSameAngle(a: seq<string>, b: seq<string>)
    requires |a| >= 3 && |b| >= 3 && a[..3] == b[..3]
    ensures PartsToRadians(a) == PartsToRadians(b)
  {
    assert a[0] == b[0] && a[1] == b[1] && a[2] == b[2] by {
      assert a[0] == a[..3][0] && a[1] == a[..3][1] && a[2] == a[..3][2];
      assert b[0] == b[..3][0] && b[1] == b[..3][1] && b[2] == b[..3][2];
    }
  }

  /** A line of at least six whitespace-free tokens whose tokens 1, 3 and 5
      read as longitude, latitude and elevation converts to exactly those. */
  lemma ConvertOfTokens(ws: seq<string>, lon: real, lat: real, elev: real)
    requires |ws| >= 6 && forall i :: 0 <= i < |ws| ==> ws[i] != [] && Text.NoSpace(ws[i])
    requires DmsToRadians(ws[1]) == Ok(lon) && DmsToRadians(ws[3]) == Ok(lat)
    requires Numbers.ParseFloat(ws[5]) == Some(elev)
    ensures ConvertCoordinates(Text.Join(ws, " ")) == Ok(Coordinates(lat, lon, elev))
  {
    Text.WordsOfJoin(ws);
  }

  /** A line whose tokens 1, 3 and 5 are a printed longitude, latitude and
      elevation converts to those values as printed, whatever the other tokens
      are and however many follow. */
  lemma ConvertRoundTrip(t0: string, t2: string, t4: string, lon: (real, real, real), lat: (real, real, real), elev: real,
                         more: seq<string>)
    requires t0 != [] && Text.NoSpace(t0) && t2 != [] && Text.NoSpace(t2) && t4 != [] && Text.NoSpace(t4)
    requires forall i :: 0 <= i < |more| ==> more[i] != [] && Text.NoSpace(more[i])
    ensures ConvertCoordinates(Text.Join([t0, DmsField(lon.0, lon.1, lon.2), t2, DmsField(lat.0, lat.1, lat.2), t4,
                                          Numbers.Fmt14(elev)] + more, " "))
      == Ok(Coordinates(Radians(SignedDegrees(Numbers.Round14(lat.0), Numbers.Round14(lat.1), Numbers.Round14(lat.2))),
                        Radians(SignedDegrees(Numbers.Round14(lon.0), Numbers.Round14(lon.1), Numbers.Round14(lon.2))),
                        Numbers.Round14(elev)))
  {
    DmsFieldIsWord(lon.0, lon.1, lon.2);
    DmsFieldIsWord(lat.0, lat.1, lat.2);
    Numbers.Fmt14Shape(elev);
    DmsFieldRoundTrip(lon.0, lon.1, lon.2);
    DmsFieldRoundTrip(lat.0, lat.1, lat.2);
    Numbers.Fmt14RoundTrip(elev);
    ConvertOfWords(t0, DmsField(lon.0, lon.1, lon.2), t2, DmsField(lat.0, lat.1, lat.2), t4, Numbers.Fmt14(elev), more,
                   Radians(SignedDegrees(Numbers.Round14(lon.0), Numbers.Round14(lon.1), Numbers.Round14(lon.2))),
                   Radians(SignedDegrees(Numbers.Round14(lat.0), Numbers.Round14(lat.1), Numbers.Round14(lat.2))),
                   Numbers.Round14(elev));
  }

  /** Six words and more, of which words 1, 3 and 5 read as lon, lat and elev. */
  lemma ConvertOfWords(t0: string, t1: string, t2: string, t3: string, t4: string, t5: string, more: seq<string>,
                       lon: real, lat: real, elev: real)
    requires t0 != [] && Text.NoSpace(t0) && t1 != [] && Text.NoSpace(t1) && t2 != [] && Text.NoSpace(t2)
    requires t3 != [] && Text.NoSpace(t3) && t4 != [] && Text.NoSpace(t4) && t5 != [] && Text.NoSpace(t5)
    requires forall i :: 0 <= i < |more| ==> more[i] != [] && Text.NoSpace(more[i])
    requires DmsToRadians(t1) == Ok(lon) && DmsToRadians(t3) == Ok(lat) && Numbers.ParseFloat(t5) == Some(elev)
    ensures ConvertCoordinates(Text.Join([t0, t1, t2, t3, t4, t5] + more, " ")) == Ok(Coordinates(lat, lon, elev))
  {
    TokensAreWords(t0, t1, t2, t3, t4, t5, more);
    ConvertOfTokens([t0, t1, t2, t3, t4, t5] + more, lon, lat, elev);
  }

  lemma TokensAreWords(t0: string, t1: string, t2: string, t3: string, t4: string, t5: string, more: seq<string>)
    requires t0 != [] && Text.NoSpace(t0) && t1 != [] && Text.NoSpace(t1) && t2 != [] && Text.NoSpace(t2)
    requires t3 != [] && Text.NoSpace(t3) && t4 != [] && Text.NoSpace(t4) && t5 != [] && Text.NoSpace(t5)
    requires forall i :: 0 <= i < |more| ==> more[i] != [] && Text.NoSpace(more[i])
    ensures var ws := [t0, t1, t2, t3, t4, t5] + more;
      |ws| >= 6 && (forall i :: 0 <= i < |ws| ==> ws[i] != [] && Text.NoSpace(ws[i]))
      && ws[1] == t1 && ws[3] == t3 && ws[5] == t5
  {
    var ws := [t0, t1, t2, t3, t4, t5] + more;
    forall i | 0 <= i < |ws| ensures ws[i] != [] && Text.NoSpace(ws[i]) {
      if i >= 6 {
        assert ws[i] == more[i - 6];
      }
    }
  }

  /** float("-0") is 0.0, which is not below zero. */
  lemma MinusZero()
    ensures Numbers.ParseFloat("-0") == Some(0.0)
  {
    Numbers.ParseUnsignedOfDigits("0");
    ParseNegativeLiteral("-0", "0", 0.0);
  }

  /** float() of a minus sign and an unsigned number without trailing space. */
  lemma ParseNegativeLiteral(t: string, u: string, v: real)
    requires |t| >= 2 && t[0] == '-' && t[1..] == u && !Text.IsSpace(t[|t| - 1])
    requires Numbers.ParseUnsigned(u) == Some(v)
    ensures Numbers.ParseFloat(t) == Some(-v)
  {
    assert t == "-" + u;
    Numbers.StripUnpadded(t);
    Numbers.ParseTokenNegative(u, v);
    assert Numbers.ParseFloat(t) == Numbers.ParseFloatToken("-" + u);
  }

  /** A degree part that reads as zero, such as "-0" (see MinusZero), counts
      as non-negative: the minutes and seconds are added, so "-0:30:0" is half
      a degree, not minus half a degree. */
  lemma ZeroDegreesAddMinutes(p0: string, p1: string, p2: string, m: real, s: real)
    requires Numbers.ParseFloat(p0) == Some(0.0)
    requires Numbers.ParseFloat(p1) == Some(m) && Numbers.ParseFloat(p2) == Some(s)
    ensures PartsToRadians([p0, p1, p2]) == Ok(Radians(m / 60.0 + s / 3600.0))
  {
    PartsOfNumbers(p0, p1, p2, 0.0, m, s);
    ZeroDegreesSum(m, s);
  }

  lemma ZeroDegreesSum(m: real, s: real)
    ensures Radians(SignedDegrees(0.0, m, s)) == Radians(m / 60.0 + s / 3600.0)
  {
  }

  /** A whole number of degrees is printed and read back exactly. */
  lemma Round14OfInteger(n: int)
    ensures Numbers.Round14(n as real) == n as real
  {
    var a := if n < 0 then -n else n;
    assert Numbers.Units(n as real) == a * 100000000000000;
    Numbers.UnitValueScaled(a * 100000000000000);
  }

  /** -10:15:36 printed and read back is -(10 + 15/60 + 36/3600) = -10.26 degrees. */
  lemma NegativeDegrees()
    ensures DmsToRadians(DmsField(-10.0, 15.0, 36.0)) == Ok(Radians(-10.26))
  {
    DmsFieldRoundTrip(-10.0, 15.0, 36.0);
    Round14OfInteger(-10);
    Round14OfInteger(15);
    Round14OfInteger(36);
  }

  /** A marker on the last line hands "" to the converter, which raises. */
  lemma EmptyLineRaises()
    ensures ConvertCoordinates("") == Err(IndexError)
  {
  }
}
