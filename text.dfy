/** The Python 2 `str` operations the importer relies on, on strings
    modelled as `seq<char>`: strip(), split() on whitespace, split(sep),
    join, find, `in`, replace, and reading a file line by line. */
module Text {

  /** Whitespace as Python 2's str.split() and str.strip() see it. */
  predicate IsSpace(c: char) {
    c == ' ' || c == '\t' || c == '\n' || c == '\r' || c == '\U{000B}' || c == '\U{000C}'
  }

  predicate AllSpace(s: string) {
    forall i :: 0 <= i < |s| ==> IsSpace(s[i])
  }

  predicate NoSpace(s: string) {
    forall i :: 0 <= i < |s| ==> !IsSpace(s[i])
  }

  lemma NoSpaceAppend(x: string, y: string)
    requires NoSpace(x) && NoSpace(y)
    ensures NoSpace(x + y)
  {
    assert forall i :: |x| <= i < |x + y| ==> (x + y)[i] == y[i - |x|];
  }

  /** `r` sits in `s` at offset `k` with only whitespace around it. */
  predicate PaddedAt(s: string, r: string, k: int) {
    0 <= k && k + |r| <= |s| && s[k..k + |r|] == r && AllSpace(s[..k]) && AllSpace(s[k + |r|..])
  }

  // ---------------------------------------------------------------------------
  // strip()
  // ---------------------------------------------------------------------------

  function StripLeft(s: string): (r: string)
    ensures |r| <= |s| && r == s[|s| - |r|..]
    ensures AllSpace(s[..|s| - |r|])
    ensures r == [] || !IsSpace(r[0])
    decreases |s|
  {
    if s != [] && IsSpace(s[0]) then
      var r := StripLeft(s[1..]);
      assert s[..|s| - |r|] == [s[0]] + s[1..][..|s| - 1 - |r|];
      r
    else s
  }

  function StripRight(s: string): (r: string)
    ensures |r| <= |s| && r == s[..|r|]
    ensures AllSpace(s[|r|..])
    ensures r == [] || !IsSpace(r[|r| - 1])
    decreases |s|
  {
    if s != [] && IsSpace(s[|s| - 1]) then
      var r := StripRight(s[..|s| - 1]);
      assert s[|r|..] == s[..|s| - 1][|r|..] + [s[|s| - 1]];
      r
    else s
  }

  /** str.strip(): the text between the leading and the trailing whitespace. */
  function Strip(s: string): (r: string)
    ensures |r| <= |s|
    ensures r == [] || (!IsSpace(r[0]) && !IsSpace(r[|r| - 1]))
  {
    var l := StripLeft(s);
    var r := StripRight(l);
    assert r != [] ==> r[0] == l[0];
    r
  }

  /** What strip() removed is whitespace on both sides of what it kept. */
  lemma {:induction false} StripDecompose(s: string)
    ensures PaddedAt(s, Strip(s), |s| - |StripLeft(s)|)
  {
    StripIs(s);
    PaddedOfParts(s, StripLeft(s), Strip(s));
  }

  lemma {:induction false} StripIs(s: string)
    ensures Strip(s) == StripRight(StripLeft(s))
  {
  }

  /** A suffix l of s after whitespace, and a prefix r of l before whitespace:
      r sits in s with only whitespace around it. */
  lemma PaddedOfParts(s: string, l: string, r: string)
    requires |l| <= |s| && l == s[|s| - |l|..] && AllSpace(s[..|s| - |l|])
    requires |r| <= |l| && r == l[..|r|] && AllSpace(l[|r|..])
    ensures PaddedAt(s, r, |s| - |l|)
  {
    var k := |s| - |l|;
    assert s[k..k + |r|] == l[..|r|];
    assert s[k + |r|..] == l[|r|..];
  }

  lemma {:induction false} StripLeftSpace(a: string, x: string)
    requires AllSpace(a)
    ensures StripLeft(a + x) == StripLeft(x)
    decreases |a|
  {
    if a != [] {
      assert (a + x)[0] == a[0];
      assert (a + x)[1..] == a[1..] + x;
      StripLeftSpace(a[1..], x);
    } else {
      assert a + x == x;
    }
  }

  lemma {:induction false} StripRightSpace(x: string, b: string)
    requires AllSpace(b)
    ensures StripRight(x + b) == StripRight(x)
    decreases |b|
  {
    if b != [] {
      var y := x + b;
      assert y[|y| - 1] == b[|b| - 1];
      assert y[..|y| - 1] == x + b[..|b| - 1];
      StripRightSpace(x, b[..|b| - 1]);
    } else {
      assert x + b == x;
    }
  }

  /** Strip recovers the text from any whitespace padding around it. */
  lemma {:induction false} StripPadded(a: string, t: string, b: string)
    requires AllSpace(a) && AllSpace(b)
    requires t == [] || (!IsSpace(t[0]) && !IsSpace(t[|t| - 1]))
    ensures Strip(a + t + b) == t
  {
    if t == [] {
      assert a + t + b == a + b;
      StripAllSpace(a, b);
    } else {
      StripWordPadded(a, t, b);
    }
  }

  lemma {:induction false} StripAllSpace(a: string, b: string)
    requires AllSpace(a) && AllSpace(b)
    ensures StripLeft(a + b) == []
  {
    StripLeftSpace(a, b);
    StripLeftSpace(b, []);
    assert b + [] == b;
  }

  lemma {:induction false} StripWordPadded(a: string, t: string, b: string)
    requires AllSpace(a) && AllSpace(b)
    requires t != [] && !IsSpace(t[0]) && !IsSpace(t[|t| - 1])
    ensures StripRight(StripLeft(a + t + b)) == t
  {
    StripLeftWord(a, t + b);
    assert a + t + b == a + (t + b);
    StripRightSpace(t, b);
  }

  lemma {:induction false} StripLeftWord(a: string, x: string)
    requires AllSpace(a) && x != [] && !IsSpace(x[0])
    ensures StripLeft(a + x) == x
  {
    StripLeftSpace(a, x);
  }

  // ---------------------------------------------------------------------------
  // split() with no argument
  // ---------------------------------------------------------------------------

  /** The longest prefix of `s` holding no whitespace. */
  function TakeWord(s: string): (w: string)
    ensures |w| <= |s| && w == s[..|w|] && NoSpace(w)
    ensures |w| == |s| || IsSpace(s[|w|])
    decreases |s|
  {
    if s == [] || IsSpace(s[0]) then [] else [s[0]] + TakeWord(s[1..])
  }

  /** str.split() with no argument: the maximal runs of non-whitespace, in order. */
  function Words(s: string): (ws: seq<string>)
    ensures forall i :: 0 <= i < |ws| ==> ws[i] != [] && NoSpace(ws[i])
    decreases |s|
  {
    if s == [] then []
    else if IsSpace(s[0]) then Words(s[1..])
    else
      var w := TakeWord(s);
      [w] + Words(s[|w|..])
  }

  lemma {:induction false} WordsSkipSpace(a: string, s: string)
    requires AllSpace(a)
    ensures Words(a + s) == Words(s)
    decreases |a|
  {
    if a != [] {
      assert (a + s)[0] == a[0];
      assert (a + s)[1..] == a[1..] + s;
      WordsSkipSpace(a[1..], s);
    } else {
      assert a + s == s;
    }
  }

  lemma {:induction false} TakeWordOf(w: string, rest: string)
    requires NoSpace(w)
    requires rest == [] || IsSpace(rest[0])
    ensures TakeWord(w + rest) == w
    decreases |w|
  {
    if w != [] {
      assert (w + rest)[1..] == w[1..] + rest;
      TakeWordOf(w[1..], rest);
    }
  }

  /** A whitespace-free prefix stays at the head of the first word. */
  lemma {:induction false} TakeWordPrefix(p: string, x: string)
    requires NoSpace(p)
    ensures TakeWord(p + x) == p + TakeWord(x)
    decreases |p|
  {
    if p != [] {
      assert (p + x)[0] == p[0];
      assert (p + x)[1..] == p[1..] + x;
      TakeWordPrefix(p[1..], x);
      assert p == [p[0]] + p[1..];
    } else {
      assert p + x == x;
    }
  }

  /** A word followed by whitespace (or by nothing) is split off as the first token. */
  lemma WordsCons(w: string, rest: string)
    requires w != [] && NoSpace(w)
    requires rest == [] || IsSpace(rest[0])
    ensures Words(w + rest) == [w] + Words(rest)
  {
    TakeWordOf(w, rest);
    assert (w + rest)[|w|..] == rest;
  }

  lemma {:induction false} WordsTrailingSpace(t: string, b: string)
    requires AllSpace(b)
    ensures Words(t + b) == Words(t)
    decreases |t|
  {
    if t == [] {
      assert t + b == b + [];
      WordsSkipSpace(b, []);
    } else if IsSpace(t[0]) {
      assert (t + b)[1..] == t[1..] + b;
      WordsTrailingSpace(t[1..], b);
    } else {
      var w := TakeWord(t);
      TakeWordOf(w, t[|w|..] + b);
      assert t + b == w + (t[|w|..] + b);
      assert (t + b)[|w|..] == t[|w|..] + b;
      WordsTrailingSpace(t[|w|..], b);
    }
  }

  /** Stripping a line first does not change how split() tokenises it. */
  lemma WordsOfStrip(s: string)
    ensures Words(Strip(s)) == Words(s)
  {
    StripDecompose(s);
    WordsOfStripAt(s, Strip(s), |s| - |StripLeft(s)|);
  }

  lemma WordsOfStripAt(s: string, r: string, k: int)
    requires PaddedAt(s, r, k)
    ensures Words(r) == Words(s)
  {
    WordsOfPadded(s[..k], r, s[k + |r|..]);
    SplitAround(s, k, k + |r|);
  }

  lemma WordsOfPadded(a: string, t: string, b: string)
    requires AllSpace(a) && AllSpace(b)
    ensures Words(a + (t + b)) == Words(t)
  {
    WordsSkipSpace(a, t + b);
    WordsTrailingSpace(t, b);
  }

  /** Cutting a string at two offsets and gluing the pieces back gives it back. */
  lemma SplitAround(s: string, i: int, j: int)
    requires 0 <= i <= j <= |s|
    ensures s[..i] + (s[i..j] + s[j..]) == s
  {
  }

  /** split() recovers the words of a line built by joining them with single spaces. */
  lemma {:induction false} WordsOfJoin(ws: seq<string>)
    requires forall i :: 0 <= i < |ws| ==> ws[i] != [] && NoSpace(ws[i])
    ensures Words(Join(ws, " ")) == ws
    decreases |ws|
  {
    if |ws| == 1 {
      WordsCons(ws[0], []);
      assert ws[0] + [] == ws[0];
    } else if |ws| > 1 {
      var rest := Join(ws[1..], " ");
      assert Join(ws, " ") == ws[0] + (" " + rest);
      WordsCons(ws[0], " " + rest);
      WordsSkipSpace(" ", rest);
      WordsOfJoin(ws[1..]);
    }
  }

  // ---------------------------------------------------------------------------
  // find, `in`
  // ---------------------------------------------------------------------------

  predicate OccursAt(s: string, pat: string, j: int) {
    0 <= j && j + |pat| <= |s| && s[j..j + |pat|] == pat
  }

  lemma OccursShift(s: string, pat: string, j: int)
    requires s != [] && 0 <= j
    ensures OccursAt(s, pat, j + 1) <==> OccursAt(s[1..], pat, j)
  {
    if 0 <= j && j + 1 + |pat| <= |s| {
      assert s[j + 1..j + 1 + |pat|] == s[1..][j..j + |pat|];
    }
  }

  /** str.find(pat): the first offset at which `pat` occurs, or -1. */
  function Find(s: string, pat: string): (r: int)
    ensures -1 <= r
    ensures r >= 0 ==> OccursAt(s, pat, r) && forall j :: 0 <= j < r ==> !OccursAt(s, pat, j)
    ensures r == -1 ==> forall j :: !OccursAt(s, pat, j)
    decreases |s|
  {
    if |s| < |pat| then -1
    else if s[..|pat|] == pat then 0
    else
      var k := Find(s[1..], pat);
      assert forall j | 0 <= j :: OccursAt(s, pat, j + 1) <==> OccursAt(s[1..], pat, j) by {
        forall j | 0 <= j ensures OccursAt(s, pat, j + 1) <==> OccursAt(s[1..], pat, j) {
          OccursShift(s, pat, j);
        }
      }
      assert forall j :: OccursAt(s, pat, j) ==> j == 0 || OccursAt(s[1..], pat, j - 1);
      if k < 0 then -1 else k + 1
  }

  /** Python's `pat in s`. */
  function Contains(s: string, pat: string): (b: bool)
    ensures b <==> exists j :: OccursAt(s, pat, j)
  {
    Find(s, pat) >= 0
  }

  lemma OccursInPrefix(s: string, pat: string, i: int, j: int)
    requires 0 <= i <= |s|
    requires OccursAt(s[..i], pat, j)
    ensures OccursAt(s, pat, j) && j + |pat| <= i
  {
    assert s[..i][j..j + |pat|] == s[j..j + |pat|];
  }

  /** A string none of whose characters is `c` does not contain [c]. */
  lemma NotContainsChar(s: string, c: char)
    requires forall i :: 0 <= i < |s| ==> s[i] != c
    ensures !Contains(s, [c])
  {
    forall j | 0 <= j < |s| ensures !OccursAt(s, [c], j) {
      assert s[j..j + 1] == [s[j]];
    }
    assert forall j :: !OccursAt(s, [c], j);
  }

  // ---------------------------------------------------------------------------
  // split(sep), join
  // ---------------------------------------------------------------------------

  /** str.split(sep) for a non-empty separator (Python raises on an empty one):
      the pieces between the non-overlapping occurrences of `sep`, left to right. */
  function Split(s: string, sep: string): (parts: seq<string>)
    requires sep != []
    ensures |parts| >= 1
    ensures forall i :: 0 <= i < |parts| ==> !Contains(parts[i], sep)
    decreases |s|
  {
    var i := Find(s, sep);
    if i < 0 then [s]
    else
      var head := s[..i];
      assert !Contains(head, sep) by {
        forall j | OccursAt(head, sep, j) ensures false {
          OccursInPrefix(s, sep, i, j);
        }
      }
      [head] + Split(s[i + |sep|..], sep)
  }

  /** sep.join(parts). */
  function Join(parts: seq<string>, sep: string): string
    decreases |parts|
  {
    if |parts| == 0 then []
    else if |parts| == 1 then parts[0]
    else parts[0] + sep + Join(parts[1..], sep)
  }

  /** Joining the pieces of a split with the same separator gives the text back. */
  lemma {:induction false} SplitJoin(s: string, sep: string)
    requires sep != []
    ensures Join(Split(s, sep), sep) == s
    decreases |s|
  {
    var i := Find(s, sep);
    if i >= 0 {
      var rest := s[i + |sep|..];
      var tail := Split(rest, sep);
      assert Split(s, sep) == [s[..i]] + tail;
      JoinCons(s[..i], tail, sep);
      SplitJoin(rest, sep);
      assert s[i..i + |sep|] == sep;
      assert s == s[..i] + s[i..i + |sep|] + rest;
    }
  }

  lemma FindAfterFree(p: string, c: char, rest: string)
    requires !Contains(p, [c])
    ensures Find(p + [c] + rest, [c]) == |p|
  {
    var s := p + [c] + rest;
    assert OccursAt(s, [c], |p|);
    forall j | 0 <= j < |p| ensures !OccursAt(s, [c], j) {
      assert s[j..j + 1] == p[j..j + 1];
      assert OccursAt(s, [c], j) <==> OccursAt(p, [c], j);
    }
  }

  /** Joining two non-empty lists of pieces puts one separator between their joins. */
  lemma {:induction false} JoinAppend(a: seq<string>, b: seq<string>, sep: string)
    requires |a| >= 1 && |b| >= 1
    ensures Join(a + b, sep) == Join(a, sep) + sep + Join(b, sep)
    decreases |a|
  {
    if |a| == 1 {
      assert (a + b)[1..] == b;
    } else {
      assert (a + b)[1..] == a[1..] + b;
      JoinAppend(a[1..], b, sep);
    }
  }

  /** Pieces and a separator free of whitespace join into one word. */
  lemma {:induction false} JoinNoSpace(parts: seq<string>, sep: string)
    requires NoSpace(sep) && forall i :: 0 <= i < |parts| ==> NoSpace(parts[i])
    ensures NoSpace(Join(parts, sep))
    ensures |parts| >= 1 ==> |Join(parts, sep)| >= |parts[0]|
    decreases |parts|
  {
    if |parts| > 1 {
      JoinNoSpace(parts[1..], sep);
      NoSpaceAppend(parts[0], sep);
      NoSpaceAppend(parts[0] + sep, Join(parts[1..], sep));
    }
  }

  /** For a one-character separator, split undoes join. */
  lemma {:induction false} JoinSplit(parts: seq<string>, c: char)
    requires |parts| >= 1
    requires forall i :: 0 <= i < |parts| ==> !Contains(parts[i], [c])
    ensures Split(Join(parts, [c]), [c]) == parts
    decreases |parts|
  {
    if |parts| == 1 {
      assert Find(parts[0], [c]) == -1;
    } else {
      var rest := Join(parts[1..], [c]);
      FindAfterFree(parts[0], c, rest);
      var s := parts[0] + [c] + rest;
      assert s[..|parts[0]|] == parts[0];
      assert s[|parts[0]| + 1..] == rest;
      JoinSplit(parts[1..], c);
    }
  }

  /** The number of occurrences of the character `c` in `s`. */
  function CountChar(s: string, c: char): nat
    decreases |s|
  {
    if s == [] then 0 else (if s[0] == c then 1 else 0) + CountChar(s[1..], c)
  }

  lemma {:induction false} CountCharAppend(a: string, b: string, c: char)
    ensures CountChar(a + b, c) == CountChar(a, c) + CountChar(b, c)
    decreases |a|
  {
    if a != [] {
      assert (a + b)[1..] == a[1..] + b;
      CountCharAppend(a[1..], b, c);
    } else {
      assert a + b == b;
    }
  }

  lemma {:induction false} CountCharFree(s: string, c: char)
    requires !Contains(s, [c])
    ensures CountChar(s, c) == 0
    decreases |s|
  {
    if s != [] {
      assert s[0] == c ==> OccursAt(s, [c], 0);
      assert !Contains(s[1..], [c]) by {
        forall j | OccursAt(s[1..], [c], j) ensures false {
          OccursShift(s, [c], j);
        }
      }
      CountCharFree(s[1..], c);
    }
  }

  /** Splitting on one character yields one more piece than there are separators. */
  lemma {:induction false} SplitCount(s: string, c: char)
    ensures |Split(s, [c])| == CountChar(s, c) + 1
    decreases |s|
  {
    var i := Find(s, [c]);
    if i < 0 {
      CountCharFree(s, c);
    } else {
      var rest := s[i + 1..];
      assert !Contains(s[..i], [c]) by {
        forall j | OccursAt(s[..i], [c], j) ensures false {
          OccursInPrefix(s, [c], i, j);
        }
      }
      CountCharFree(s[..i], c);
      assert s == s[..i] + ([c] + rest);
      CountCharAppend(s[..i], [c] + rest, c);
      assert ([c] + rest)[1..] == rest;
      SplitCount(rest, c);
    }
  }

  // ---------------------------------------------------------------------------
  // replace
  // ---------------------------------------------------------------------------

  /** str.replace(pat, repl): every non-overlapping occurrence of `pat`, found left
      to right, replaced by `repl`; an empty `pat` inserts `repl` around every character. */
  function Replace(s: string, pat: string, repl: string): string
    decreases |s|
  {
    if pat == [] then ReplaceEmpty(s, repl)
    else
      var i := Find(s, pat);
      if i < 0 then s else s[..i] + repl + Replace(s[i + |pat|..], pat, repl)
  }

  function ReplaceEmpty(s: string, repl: string): string
    decreases |s|
  {
    if s == [] then repl else repl + [s[0]] + ReplaceEmpty(s[1..], repl)
  }

  /** Python's identity `s.replace(p, r) == r.join(s.split(p))`. */
  lemma {:induction false} ReplaceIsSplitJoin(s: string, pat: string, repl: string)
    requires pat != []
    ensures Replace(s, pat, repl) == Join(Split(s, pat), repl)
    decreases |s|
  {
    var i := Find(s, pat);
    if i >= 0 {
      var rest := s[i + |pat|..];
      assert Split(s, pat) == [s[..i]] + Split(rest, pat);
      JoinCons(s[..i], Split(rest, pat), repl);
      ReplaceIsSplitJoin(rest, pat, repl);
    }
  }

  lemma JoinCons(x: string, tail: seq<string>, sep: string)
    requires |tail| >= 1
    ensures Join([x] + tail, sep) == x + sep + Join(tail, sep)
  {
    assert ([x] + tail)[1..] == tail;
  }

  lemma {:induction false} ReplaceEmptySelf(s: string)
    ensures ReplaceEmpty(s, []) == s
    decreases |s|
  {
    if s != [] {
      ReplaceEmptySelf(s[1..]);
    }
  }

  /** No character of `s` is `c`. */
  predicate Lacks(s: string, c: char) {
    forall i :: 0 <= i < |s| ==> s[i] != c
  }

  /** A pattern without `c` cannot end on a `c` put after the text, so its
      first occurrence is the one in the text. */
  lemma FindBeforeChar(s: string, pat: string, c: char)
    requires pat != [] && Lacks(pat, c)
    ensures Find(s + [c], pat) == Find(s, pat)
  {
    var t := s + [c];
    forall j ensures OccursAt(t, pat, j) <==> OccursAt(s, pat, j) {
      if 0 <= j && j + |pat| <= |s| {
        assert t[j..j + |pat|] == s[j..j + |pat|];
      } else if 0 <= j && j + |pat| == |t| {
        assert t[j..j + |pat|][|pat| - 1] == c;
      }
    }
  }

  /** replace() leaves alone a character its pattern lacks at the end of the text. */
  lemma {:induction false} ReplaceBeforeChar(s: string, pat: string, repl: string, c: char)
    requires pat != [] && Lacks(pat, c)
    ensures Replace(s + [c], pat, repl) == Replace(s, pat, repl) + [c]
    decreases |s|
  {
    FindBeforeChar(s, pat, c);
    var i := Find(s, pat);
    if i >= 0 {
      var t := s + [c];
      assert t[..i] == s[..i];
      assert t[i + |pat|..] == s[i + |pat|..] + [c];
      ReplaceBeforeChar(s[i + |pat|..], pat, repl, c);
    }
  }

  /** replace() brings in no character that neither the text nor the replacement holds. */
  lemma {:induction false} ReplaceLacks(s: string, pat: string, repl: string, c: char)
    requires pat != [] && Lacks(s, c) && Lacks(repl, c)
    ensures Lacks(Replace(s, pat, repl), c)
    decreases |s|
  {
    var i := Find(s, pat);
    if i >= 0 {
      var head, rest := s[..i], s[i + |pat|..];
      ReplaceAt(s, pat, repl, i);
      LacksAround(s, c, i, i + |pat|);
      ReplaceLacks(rest, pat, repl, c);
      LacksAppend(head, repl, c);
      LacksAppend(head + repl, Replace(rest, pat, repl), c);
    }
  }

  /** replace() at the first occurrence of the pattern. */
  lemma ReplaceAt(s: string, pat: string, repl: string, i: int)
    requires pat != [] && i == Find(s, pat) && i >= 0
    ensures Replace(s, pat, repl) == s[..i] + repl + Replace(s[i + |pat|..], pat, repl)
  {
  }

  lemma LacksAround(s: string, c: char, i: int, j: int)
    requires Lacks(s, c) && 0 <= i <= j <= |s|
    ensures Lacks(s[..i], c) && Lacks(s[j..], c)
  {
    forall k | 0 <= k < i ensures s[..i][k] != c {
      assert s[..i][k] == s[k];
    }
    forall k | 0 <= k < |s| - j ensures s[j..][k] != c {
      assert s[j..][k] == s[j + k];
    }
  }

  lemma LacksAppend(x: string, y: string, c: char)
    requires Lacks(x, c) && Lacks(y, c)
    ensures Lacks(x + y, c)
  {
    forall k | 0 <= k < |x + y| ensures (x + y)[k] != c {
      if k < |x| {
        assert (x + y)[k] == x[k];
      } else {
        assert (x + y)[k] == y[k - |x|];
      }
    }
  }

  /** replace() with a pattern and a replacement free of newlines turns a line
      ending in a newline into such a line. */
  lemma ReplaceLine(l: string, pat: string, repl: string)
    requires IsLine(l) && EndsWithNewline(l)
    requires pat != [] && Lacks(pat, '\n') && Lacks(repl, '\n')
    ensures IsLine(Replace(l, pat, repl)) && EndsWithNewline(Replace(l, pat, repl))
  {
    var c := l[..|l| - 1];
    assert l == c + ['\n'];
    ReplaceBeforeChar(c, pat, repl, '\n');
    ReplaceLacks(c, pat, repl, '\n');
  }

  /** Replacing a text by itself changes nothing. */
  lemma ReplaceSelf(s: string, pat: string)
    ensures Replace(s, pat, pat) == s
  {
    if pat == [] {
      ReplaceEmptySelf(s);
    } else {
      ReplaceIsSplitJoin(s, pat, pat);
      SplitJoin(s, pat);
    }
  }

  /** Replacing a text that does not occur changes nothing. */
  lemma ReplaceAbsent(s: string, pat: string, repl: string)
    requires pat != [] && !Contains(s, pat)
    ensures Replace(s, pat, repl) == s
  {
  }

  // ---------------------------------------------------------------------------
  // reading a file line by line
  // ---------------------------------------------------------------------------

  /** A line as readline() returns it: non-empty, with no newline before its last character. */
  predicate IsLine(l: string) {
    l != [] && forall i :: 0 <= i < |l| - 1 ==> l[i] != '\n'
  }

  predicate EndsWithNewline(l: string) {
    l != [] && l[|l| - 1] == '\n'
  }

  /** A sequence of lines as readlines() can return it: only the last may lack its newline. */
  predicate WellFormedLines(ls: seq<string>) {
    && (forall i :: 0 <= i < |ls| ==> IsLine(ls[i]))
    && (forall i :: 0 <= i < |ls| - 1 ==> EndsWithNewline(ls[i]))
  }

  /** ''.join(ls) */
  function Concat(ls: seq<string>): string
    decreases |ls|
  {
    if ls == [] then [] else ls[0] + Concat(ls[1..])
  }

  lemma {:induction false} ConcatAppend(a: seq<string>, b: seq<string>)
    ensures Concat(a + b) == Concat(a) + Concat(b)
    decreases |a|
  {
    if a != [] {
      assert (a + b)[0] == a[0];
      assert (a + b)[1..] == a[1..] + b;
      ConcatAppend(a[1..], b);
    } else {
      assert a + b == b;
    }
  }

  /** The length of the first line of `s`, its newline included. */
  function FirstLineLength(s: string): (k: nat)
    requires s != []
    ensures 0 < k <= |s|
    ensures forall i :: 0 <= i < k - 1 ==> s[i] != '\n'
    ensures s[k - 1] == '\n' || k == |s|
    decreases |s|
  {
    if s[0] == '\n' || |s| == 1 then 1 else 1 + FirstLineLength(s[1..])
  }

  /** file.readlines(): the lines of the text, each keeping its newline. */
  function Lines(s: string): (ls: seq<string>)
    ensures Concat(ls) == s
    ensures WellFormedLines(ls)
    decreases |s|
  {
    if s == [] then []
    else
      var k := FirstLineLength(s);
      var rest := Lines(s[k..]);
      assert s == s[..k] + s[k..];
      [s[..k]] + rest
  }

  /** What the n-th call of readline() returns: that line, or "" past the end. */
  function LineAt(ls: seq<string>, n: nat): string {
    if n < |ls| then ls[n] else []
  }

  lemma FirstLineOf(l: string, rest: string)
    requires IsLine(l) && EndsWithNewline(l)
    ensures FirstLineLength(l + rest) == |l|
  {
    var s := l + rest;
    assert s[..|l|] == l;
    assert forall i :: 0 <= i < |l| - 1 ==> s[i] != '\n';
    assert s[|l| - 1] == '\n';
  }

  /** Splitting well-formed lines that were joined gives them back. */
  lemma {:induction false} LinesOfConcat(ls: seq<string>)
    requires WellFormedLines(ls)
    ensures Lines(Concat(ls)) == ls
    decreases |ls|
  {
    if ls != [] {
      var rest := Concat(ls[1..]);
      if |ls| == 1 {
        assert ls[1..] == [];
      }
      LinesCons(ls[0], rest);
      LinesOfConcat(ls[1..]);
      assert ls == [ls[0]] + ls[1..];
    }
  }

  /** One line followed by text: the first line read is that line. */
  lemma LinesCons(l: string, rest: string)
    requires IsLine(l) && (EndsWithNewline(l) || rest == [])
    ensures Lines(l + rest) == [l] + Lines(rest)
  {
    var s := l + rest;
    if EndsWithNewline(l) {
      FirstLineOf(l, rest);
    } else {
      assert s == l;
      var k := FirstLineLength(s);
      assert k == |s|;
    }
    assert s[..|l|] == l && s[|l|..] == rest;
  }

  /** Text written after `o + run` extends the run. */
  lemma Extend(now: string, before: string, o: string, run: string, e: string, run2: string)
    requires before == o + run && now == before + e && run2 == run + e
    ensures now == o + run2
  {
  }

  lemma AppendAssoc(a: string, b: string, c: string)
    ensures (a + b) + c == a + (b + c)
  {
  }

  lemma ConcatSingle(l: string)
    ensures Concat([l]) == l
  {
    assert [l][1..] == [];
    assert Concat([l][1..]) == [];
  }

  lemma {:induction false} LastLineEnds(a: string)
    requires a != [] && a[|a| - 1] == '\n'
    ensures EndsWithNewline(Lines(a)[|Lines(a)| - 1])
    decreases |a|
  {
    var k := FirstLineLength(a);
    if k < |a| {
      LastLineEnds(a[k..]);
    }
  }

  lemma WellFormedAppend(la: seq<string>, lb: seq<string>)
    requires WellFormedLines(la) && WellFormedLines(lb)
    requires la == [] || EndsWithNewline(la[|la| - 1])
    ensures WellFormedLines(la + lb)
  {
  }

  /** Text appended after a newline only adds lines: the earlier ones are untouched. */
  lemma LinesAppend(a: string, b: string)
    requires a == [] || a[|a| - 1] == '\n'
    ensures Lines(a + b) == Lines(a) + Lines(b)
  {
    var la, lb := Lines(a), Lines(b);
    ConcatAppend(la, lb);
    if a != [] {
      LastLineEnds(a);
    }
    WellFormedAppend(la, lb);
    LinesOfConcat(la + lb);
  }
}
