/** A control file's points written one after another: the entries of a run
    carry consecutive point numbers, in the order the points were read, and
    readlines() on the result finds each entry's header and coordinates five
    lines apart. */
module Entries {
  import opened Outcomes
  import Text
  import Convert
  import opened GpfEntry
  import opened Runs

  /** The entry writer for one control file, as a function of the point number
      and the coordinates. */
  function EntryOf(name: string, useBox: bool): (int, Convert.Coordinates) -> string
  {
    (n, c) => EntryText(n, name, useBox, c)
  }

  /** The entries for consecutive point numbers from `start`, in order: what
      append_control_points writes for the points of one control file. */
  function EntriesText(start: int, name: string, useBox: bool, cs: seq<Convert.Coordinates>): string
  {
    Run(start, cs, EntryOf(name, useBox))
  }

  lemma EntryOfApply(name: string, useBox: bool, n: int, c: Convert.Coordinates)
    ensures EntryOf(name, useBox)(n, c) == EntryText(n, name, useBox, c)
  {
  }

  /** Writing one more point, numbered n = start + |cs|, after a run of
      entries extends the run. */
  lemma EntriesAppend(start: int, name: string, useBox: bool, cs: seq<Convert.Coordinates>, c: Convert.Coordinates, n: int)
    requires n == start + |cs|
    ensures EntriesText(start, name, useBox, cs + [c])
      == EntriesText(start, name, useBox, cs) + EntryText(n, name, useBox, c)
  {
    EntryOfApply(name, useBox, n, c);
    EntriesIsRun(start, name, useBox, cs);
    EntriesIsRun(start, name, useBox, cs + [c]);
    RunAppendAt(start, cs, c, EntryOf(name, useBox), n);
  }

  lemma EntriesIsRun(start: int, name: string, useBox: bool, cs: seq<Convert.Coordinates>)
    ensures EntriesText(start, name, useBox, cs) == Run(start, cs, EntryOf(name, useBox))
  {
  }

  /** What reading a point back should give: its number and its rounded
      coordinates. */
  function Expected(): (int, Convert.Coordinates) -> Option<(int, Convert.Coordinates)>
  {
    (n, c) => Some((n, Rounded(c)))
  }

  /** The lines of one entry, as a function of the point number and the coordinates. */
  function LinesOf(name: string, useBox: bool): (int, Convert.Coordinates) -> seq<string>
  {
    (n, c) => EntryLines(n, name, useBox, c)
  }

  /** Every entry ends in a newline, readlines() splits it into its five lines,
      and the first two decode to the expected point. */
  lemma EntryPieces(name: string, useBox: bool)
    requires NoNewline(name)
    ensures forall n, x ::
      EntryOf(name, useBox)(n, x) != [] && EntryOf(name, useBox)(n, x)[|EntryOf(name, useBox)(n, x)| - 1] == '\n'
      && Text.Lines(EntryOf(name, useBox)(n, x)) == LinesOf(name, useBox)(n, x)
    ensures forall n, x ::
      |LinesOf(name, useBox)(n, x)| == 5
      && DecodeEntry(LinesOf(name, useBox)(n, x)[0], LinesOf(name, useBox)(n, x)[1]) == Expected()(n, x)
  {
    forall n, x
      ensures EntryOf(name, useBox)(n, x) != [] && EntryOf(name, useBox)(n, x)[|EntryOf(name, useBox)(n, x)| - 1] == '\n'
      ensures Text.Lines(EntryOf(name, useBox)(n, x)) == LinesOf(name, useBox)(n, x)
      ensures |LinesOf(name, useBox)(n, x)| == 5
      ensures DecodeEntry(LinesOf(name, useBox)(n, x)[0], LinesOf(name, useBox)(n, x)[1]) == Expected()(n, x)
    {
      EntryPiece(name, useBox, n, x);
    }
  }

  lemma EntryPiece(name: string, useBox: bool, n: int, x: Convert.Coordinates)
    requires NoNewline(name)
    ensures EntryOf(name, useBox)(n, x) != [] && EntryOf(name, useBox)(n, x)[|EntryOf(name, useBox)(n, x)| - 1] == '\n'
    ensures Text.Lines(EntryOf(name, useBox)(n, x)) == LinesOf(name, useBox)(n, x)
    ensures |LinesOf(name, useBox)(n, x)| == 5
    ensures DecodeEntry(LinesOf(name, useBox)(n, x)[0], LinesOf(name, useBox)(n, x)[1]) == Expected()(n, x)
  {
    EntryOfApply(name, useBox, n, x);
    EntryLinesOf(n, name, useBox, x);
    DecodeEntryOf(n, name, useBox, x);
  }

  lemma EntriesDecodeRun(start: int, name: string, useBox: bool, cs: seq<Convert.Coordinates>, i: nat)
    requires i < |cs| && NoNewline(name)
    ensures var ls := Text.Lines(Run(start, cs, EntryOf(name, useBox)));
      |ls| == 5 * |cs| && DecodeEntry(ls[5 * i], ls[5 * i + 1]) == Expected()(start + i, cs[i])
  {
    EntryPieces(name, useBox);
    RunDecode(start, cs, EntryOf(name, useBox), LinesOf(name, useBox), DecodeEntry, Expected(), i);
  }

  /** Every point of a run decodes to its own number, start + i, and its
      coordinates as printed: the points are numbered consecutively, in order. */
  lemma DecodeEntries(start: int, name: string, useBox: bool, cs: seq<Convert.Coordinates>, i: nat)
    requires i < |cs| && NoNewline(name)
    ensures var ls := Text.Lines(EntriesText(start, name, useBox, cs));
      |ls| == 5 * |cs| && DecodeEntry(ls[5 * i], ls[5 * i + 1]) == Some((start + i, Rounded(cs[i])))
  {
    EntriesDecodeRun(start, name, useBox, cs, i);
  }
}
