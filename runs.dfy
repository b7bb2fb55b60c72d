/** Numbered runs: one piece of text per item, the items numbered
    consecutively, concatenated in order. The entries a control file adds to
    the .gpf file form such a run. */
module Runs {
  import Text

  /** f(start, cs[0]) + f(start + 1, cs[1]) + ...: one piece per item, numbered
      consecutively from `start`. */
  function Run<C>(start: int, cs: seq<C>, f: (int, C) -> string): string
    decreases |cs|
  {
    if cs == [] then [] else f(start, cs[0]) + Run(start + 1, cs[1..], f)
  }

  /** One more item adds its piece, numbered after the others, at the end. */
  lemma {:induction false} RunAppend<C>(start: int, cs: seq<C>, c: C, f: (int, C) -> string)
    ensures Run(start, cs + [c], f) == Run(start, cs, f) + f(start + |cs|, c)
    decreases |cs|
  {
    if cs == [] {
      assert cs + [c] == [c];
      assert [c][1..] == [];
    } else {
      assert (cs + [c])[0] == cs[0];
      assert (cs + [c])[1..] == cs[1..] + [c];
      RunAppend(start + 1, cs[1..], c, f);
    }
  }

  /** RunAppend with the new item's number given as n. */
  lemma RunAppendAt<C>(start: int, cs: seq<C>, c: C, f: (int, C) -> string, n: int)
    requires n == start + |cs|
    ensures Run(start, cs + [c], f) == Run(start, cs, f) + f(n, c)
  {
    RunAppend(start, cs, c, f);
  }

  /** Two runs one after the other, the second numbered on from the first,
      form one run. */
  lemma {:induction false} RunConcat<C>(start: int, a: seq<C>, b: seq<C>, f: (int, C) -> string)
    ensures Run(start, a + b, f) == Run(start, a, f) + Run(start + |a|, b, f)
    decreases |a|
  {
    if a == [] {
      assert a + b == b;
    } else {
      assert (a + b)[0] == a[0];
      assert (a + b)[1..] == a[1..] + b;
      RunConcat(start + 1, a[1..], b, f);
    }
  }

  /** The same, with the second run's first number given as n. */
  lemma RunConcatAt<C>(start: int, a: seq<C>, b: seq<C>, f: (int, C) -> string, n: int)
    requires n == start + |a|
    ensures Run(start, a + b, f) == Run(start, a, f) + Run(n, b, f)
  {
    RunConcat(start, a, b, f);
  }

  /** Two runs whose items give the same piece, position by position, are the same text. */
  lemma {:induction false} RunRelabel<C, D>(start: int, cs: seq<C>, ds: seq<D>, f: (int, C) -> string, g: (int, D) -> string)
    requires |cs| == |ds|
    requires forall n, k :: 0 <= k < |cs| ==> f(n, cs[k]) == g(n, ds[k])
    ensures Run(start, cs, f) == Run(start, ds, g)
    decreases |cs|
  {
    if cs != [] {
      assert f(start, cs[0]) == g(start, ds[0]);
      forall n, k | 0 <= k < |cs| - 1 ensures f(n, cs[1..][k]) == g(n, ds[1..][k]) {
        assert cs[1..][k] == cs[k + 1] && ds[1..][k] == ds[k + 1];
      }
      RunRelabel(start + 1, cs[1..], ds[1..], f, g);
    }
  }

  /** Item i of a run is written as piece start + i, after the pieces of the
      items before it and before those of the items after it. */
  lemma RunAt<C>(start: int, cs: seq<C>, f: (int, C) -> string, i: nat)
    requires i < |cs|
    ensures Run(start, cs, f) == Run(start, cs[..i], f) + f(start + i, cs[i]) + Run(start + i + 1, cs[i + 1..], f)
  {
    assert cs == cs[..i] + cs[i..];
    RunConcat(start, cs[..i], cs[i..], f);
    assert cs[i..][0] == cs[i] && cs[i..][1..] == cs[i + 1..];
  }

  /** g(start, cs[0]) + g(start + 1, cs[1]) + ...: the lists of lines of the
      pieces of a run, concatenated. */
  function RunLines<C>(start: int, cs: seq<C>, g: (int, C) -> seq<string>): seq<string>
    decreases |cs|
  {
    if cs == [] then [] else g(start, cs[0]) + RunLines(start + 1, cs[1..], g)
  }

  /** readlines() on a run is the lines of its pieces one after another, when
      g gives the lines of each piece and each piece ends in a newline. */
  lemma {:induction false} LinesOfRun<C>(start: int, cs: seq<C>, f: (int, C) -> string, g: (int, C) -> seq<string>)
    requires forall n, x :: f(n, x) != [] && f(n, x)[|f(n, x)| - 1] == '\n' && Text.Lines(f(n, x)) == g(n, x)
    ensures Text.Lines(Run(start, cs, f)) == RunLines(start, cs, g)
    decreases |cs|
  {
    if cs != [] {
      Text.LinesAppend(f(start, cs[0]), Run(start + 1, cs[1..], f));
      LinesOfRun(start + 1, cs[1..], f, g);
    }
  }

  /** Five lines per piece. */
  lemma {:induction false} RunLineCount<C>(start: int, cs: seq<C>, g: (int, C) -> seq<string>)
    requires forall n, x :: |g(n, x)| == 5
    ensures |RunLines(start, cs, g)| == 5 * |cs|
    decreases |cs|
  {
    if cs != [] {
      RunLineCount(start + 1, cs[1..], g);
    }
  }

  /** With five lines per piece, the first two lines of item i sit at 5i and
      5i + 1. */
  lemma {:induction false} RunLinesAt<C>(start: int, cs: seq<C>, g: (int, C) -> seq<string>, i: nat)
    requires forall n, x :: |g(n, x)| == 5
    requires i < |cs|
    ensures |RunLines(start, cs, g)| == 5 * |cs|
    ensures RunLines(start, cs, g)[5 * i] == g(start + i, cs[i])[0]
    ensures RunLines(start, cs, g)[5 * i + 1] == g(start + i, cs[i])[1]
    decreases i
  {
    RunLineCount(start, cs, g);
    var all := RunLines(start, cs, g);
    var head := g(start, cs[0]);
    var rest := RunLines(start + 1, cs[1..], g);
    var item := g(start + i, cs[i]);
    assert all == head + rest;
    if i == 0 {
      assert item == head;
      PrefixLines(all, head, rest);
    } else {
      RunLinesAt(start + 1, cs[1..], g, i - 1);
      assert g(start + 1 + (i - 1), cs[1..][i - 1]) == item;
      SuffixLines(all, head, rest, item, i);
    }
  }

  lemma PrefixLines<T>(all: seq<T>, head: seq<T>, rest: seq<T>)
    requires all == head + rest && |head| == 5
    ensures all[0] == head[0] && all[1] == head[1]
  {
  }

  lemma SuffixLines<T>(all: seq<T>, head: seq<T>, rest: seq<T>, item: seq<T>, i: nat)
    requires all == head + rest && |head| == 5 && |item| == 5 && i > 0
    requires 5 * (i - 1) + 1 < |rest| && rest[5 * (i - 1)] == item[0] && rest[5 * (i - 1) + 1] == item[1]
    ensures all[5 * i] == item[0] && all[5 * i + 1] == item[1]
  {
  }

  /** If g gives the five lines of every piece and the first two of them decode
      to h(n, x), then the first two lines of item i of the run, as readlines()
      finds them, decode to h(start + i, cs[i]). */
  lemma RunDecode<C, R>(start: int, cs: seq<C>, f: (int, C) -> string, g: (int, C) -> seq<string>,
                        d: (string, string) -> R, h: (int, C) -> R, i: nat)
    requires forall n, x :: f(n, x) != [] && f(n, x)[|f(n, x)| - 1] == '\n' && Text.Lines(f(n, x)) == g(n, x)
    requires forall n, x :: |g(n, x)| == 5 && d(g(n, x)[0], g(n, x)[1]) == h(n, x)
    requires i < |cs|
    ensures var ls := Text.Lines(Run(start, cs, f));
      |ls| == 5 * |cs| && d(ls[5 * i], ls[5 * i + 1]) == h(start + i, cs[i])
  {
    LinesOfRun(start, cs, f, g);
    RunLinesAt(start, cs, g, i);
    var e := g(start + i, cs[i]);
    assert d(e[0], e[1]) == h(start + i, cs[i]);
  }
}
