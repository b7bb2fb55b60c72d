/** The point count on the second line of a .gpf file: how main reads it
    before appending, and how it rewrites that line once the new points are
    in. */
module Counts {
  import opened Outcomes
  import Text
  import Numbers

  /** readline() twice, strip() and int(): the count on the second line, or
      None where int() raises ValueError. */
  function ReadCount(text: string): Option<int>
  {
    Numbers.ParseInt(Text.Strip(Text.LineAt(Text.Lines(text), 1)))
  }

  /** ''.join(readlines()) after two readline() calls: the text of the lines
      from the third on. */
  function RestText(ls: seq<string>): string
  {
    if |ls| <= 2 then [] else Text.Concat(ls[2..])
  }

  /** first_line + second_line.replace(str(orig), str(count)) + rest: every
      occurrence of the old count on the second line becomes the new count. */
  function PatchCount(text: string, orig: int, count: int): string
  {
    var ls := Text.Lines(text);
    Text.LineAt(ls, 0) + Text.Replace(Text.LineAt(ls, 1), Numbers.IntToString(orig), Numbers.IntToString(count))
      + RestText(ls)
  }

  /** The text of a .gpf file whose second line is exactly the count `k`. */
  function WithCount(first: string, k: int, rest: string): string
  {
    first + Numbers.IntToString(k) + "\n" + rest
  }

  /** The count written on its own line is the count read. */
  lemma ReadCountOf(first: string, k: int, rest: string)
    requires Text.IsLine(first) && Text.EndsWithNewline(first)
    ensures ReadCount(WithCount(first, k, rest)) == Some(k)
  {
    var s := Numbers.IntToString(k);
    LinesOfWithCount(first, k, rest);
    Numbers.IntToStringEnds(k);
    Text.StripPadded([], s, "\n");
    assert [] + s + "\n" == s + "\n";
    Numbers.ParseIntOfIntToString([], k, []);
    assert [] + s + [] == s;
  }

  /** The lines of such a file: the first line, the count line, then the lines of the rest. */
  lemma LinesOfWithCount(first: string, k: int, rest: string)
    requires Text.IsLine(first) && Text.EndsWithNewline(first)
    ensures Text.Lines(WithCount(first, k, rest)) == [first, Numbers.IntToString(k) + "\n"] + Text.Lines(rest)
  {
    var s := Numbers.IntToString(k);
    var line := s + "\n";
    assert Text.IsLine(line) && Text.EndsWithNewline(line);
    assert WithCount(first, k, rest) == first + (line + rest);
    Text.LinesCons(first, line + rest);
    Text.LinesCons(line, rest);
  }

  /** When the second line holds exactly the old count, the patch puts the new
      count there and leaves the first line and all later lines as they were. */
  lemma PatchCountOf(first: string, k: int, rest: string, count: int)
    requires Text.IsLine(first) && Text.EndsWithNewline(first)
    ensures PatchCount(WithCount(first, k, rest), k, count) == WithCount(first, count, rest)
  {
    var line := Numbers.IntToString(k) + "\n";
    var patched := Numbers.IntToString(count) + "\n";
    LinesOfWithCount(first, k, rest);
    PatchLines(WithCount(first, k, rest), k, count, first, line, Text.Lines(rest));
    ReplaceCountLine(k, count);
    Text.AppendAssoc(first, Numbers.IntToString(count), "\n");
  }

  /** The patch on a text whose first lines are a and b: a, then b with the
      count replaced, then the text of the later lines. */
  lemma PatchLines(text: string, orig: int, count: int, a: string, b: string, tail: seq<string>)
    requires Text.Lines(text) == [a, b] + tail
    ensures PatchCount(text, orig, count)
      == a + Text.Replace(b, Numbers.IntToString(orig), Numbers.IntToString(count)) + Text.Concat(tail)
  {
    RestTextOf(a, b, tail);
  }

  /** Whatever the second line holds, the patch changes that line only:
      readlines() of the patched text gives the first line, the second line
      with every str(orig) replaced by str(count), and then the later lines as
      they were. */
  lemma PatchKeepsLines(text: string, orig: int, count: int, a: string, b: string, tail: seq<string>)
    requires Text.Lines(text) == [a, b] + tail
    requires Text.EndsWithNewline(b)
    ensures Text.Lines(PatchCount(text, orig, count))
      == [a, Text.Replace(b, Numbers.IntToString(orig), Numbers.IntToString(count))] + tail
  {
    var b' := Text.Replace(b, Numbers.IntToString(orig), Numbers.IntToString(count));
    LinesParts(Text.Lines(text), a, b, tail);
    Numbers.IntToStringOneLine(orig);
    Numbers.IntToStringOneLine(count);
    Text.ReplaceLine(b, Numbers.IntToString(orig), Numbers.IntToString(count));
    PatchLines(text, orig, count, a, b, tail);
    LinesOfParts(a, b', tail);
  }

  /** What readlines() promises of its first two lines and the rest. */
  lemma LinesParts(ls: seq<string>, a: string, b: string, tail: seq<string>)
    requires Text.WellFormedLines(ls) && ls == [a, b] + tail
    ensures Text.IsLine(a) && Text.EndsWithNewline(a) && Text.IsLine(b)
    ensures Text.WellFormedLines(tail)
  {
    assert ls[0] == a && ls[1] == b;
    forall i | 0 <= i < |tail| ensures Text.IsLine(tail[i]) && (i < |tail| - 1 ==> Text.EndsWithNewline(tail[i])) {
      assert tail[i] == ls[i + 2];
    }
  }

  lemma LinesOfParts(a: string, b: string, tail: seq<string>)
    requires Text.IsLine(a) && Text.EndsWithNewline(a) && Text.IsLine(b) && Text.EndsWithNewline(b)
    requires Text.WellFormedLines(tail)
    ensures Text.Lines(a + b + Text.Concat(tail)) == [a, b] + tail
  {
    var rest := Text.Concat(tail);
    Text.LinesOfConcat(tail);
    Text.LinesCons(b, rest);
    Text.LinesCons(a, b + rest);
    Text.AppendAssoc(a, b, rest);
    assert [a] + ([b] + tail) == [a, b] + tail;
  }

  /** Text appended after such a file stays after the patched count line, and
      the count read back is the new one. */
  lemma PatchAppended(first: string, k: int, body: string, added: string, count: int)
    requires Text.IsLine(first) && Text.EndsWithNewline(first)
    ensures PatchCount(WithCount(first, k, body) + added, k, count) == WithCount(first, count, body + added)
    ensures ReadCount(WithCount(first, count, body + added)) == Some(count)
  {
    assert WithCount(first, k, body) + added == WithCount(first, k, body + added);
    PatchCountOf(first, k, body + added, count);
    ReadCountOf(first, count, body + added);
  }

  lemma RestTextOf(a: string, b: string, ls: seq<string>)
    ensures RestText([a, b] + ls) == Text.Concat(ls)
  {
    assert ([a, b] + ls)[2..] == ls;
  }

  /** replace(str(k), str(count)) on the line "str(k)\n". */
  lemma ReplaceCountLine(k: int, count: int)
    ensures Text.Replace(Numbers.IntToString(k) + "\n", Numbers.IntToString(k), Numbers.IntToString(count))
      == Numbers.IntToString(count) + "\n"
  {
    var s := Numbers.IntToString(k);
    var line := s + "\n";
    assert line[..|s|] == s;
    assert Text.Find(line, s) == 0;
    assert line[|s|..] == "\n";
    assert s[0] != '\n';
    assert !Text.Contains("\n", s);
    Text.ReplaceAbsent("\n", s, Numbers.IntToString(count));
    assert line[..0] == [];
  }

  /** A patch that keeps the count changes nothing: with no points imported the
      .gpf text comes back as it was. */
  lemma PatchSameCount(text: string, k: int)
    ensures PatchCount(text, k, k) == text
  {
    var ls := Text.Lines(text);
    var s := Numbers.IntToString(k);
    Text.ReplaceSelf(Text.LineAt(ls, 1), s);
    if |ls| == 0 {
    } else if |ls| == 1 {
      Text.ConcatSingle(ls[0]);
      assert ls == [ls[0]];
    } else {
      assert ls == [ls[0], ls[1]] + ls[2..];
      Text.ConcatAppend([ls[0], ls[1]], ls[2..]);
      Text.ConcatAppend([ls[0]], [ls[1]]);
      Text.ConcatSingle(ls[0]);
      Text.ConcatSingle(ls[1]);
      assert [ls[0], ls[1]] == [ls[0]] + [ls[1]];
      if |ls| == 2 {
        assert ls[2..] == [];
      }
    }
  }
}
