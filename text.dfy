/** String helpers shared by the whole model: Python's `str.split(sep)[0]` and
    `str.split(sep)[-1]`, and the line structure that Python's text-file
    iteration (`readline`, `for line in fh`, `fileinput`) imposes on a file. */
module Text {

  /** `s.split(sep)[0]`: the text before the first `sep`, or all of `s`. */
  function FirstField(s: string, sep: char): (r: string)
    ensures r <= s
    ensures sep !in r
    ensures r == s || s[|r|] == sep
  {
    if s == [] || s[0] == sep then [] else [s[0]] + FirstField(s[1..], sep)
  }

  /** `s.split(sep)[-1]` (and `os.path.basename` for `sep == '/'`): the text
      after the last `sep`, or all of `s`. */
  function LastField(s: string, sep: char): (r: string)
    ensures |r| <= |s| && r == s[|s| - |r|..]
    ensures sep !in r
    ensures r == s || s[|s| - |r| - 1] == sep
  {
    if s == [] || s[|s| - 1] == sep then [] else LastField(s[..|s| - 1], sep) + [s[|s| - 1]]
  }

  /** The first field is the unique `sep`-free prefix that is followed by `sep`
      or by nothing. */
  lemma {:induction false} FirstFieldOfSplit(p: string, sep: char, rest: string)
    requires sep !in p
    ensures FirstField(p, sep) == p
    ensures FirstField(p + [sep] + rest, sep) == p
  {
    if p != [] {
      assert (p + [sep] + rest)[1..] == p[1..] + [sep] + rest;
      FirstFieldOfSplit(p[1..], sep, rest);
    }
  }

  /** The last field is the unique `sep`-free suffix that is preceded by `sep`
      or by nothing. */
  lemma {:induction false} LastFieldOfSplit(init: string, sep: char, p: string)
    requires sep !in p
    ensures LastField(p, sep) == p
    ensures LastField(init + [sep] + p, sep) == p
  {
    if p != [] {
      var q := p[..|p| - 1];
      assert (init + [sep] + p)[..|init + [sep] + p| - 1] == init + [sep] + q;
      assert q + [p[|p| - 1]] == p;
      LastFieldOfSplit(init, sep, q);
    }
  }

  /** Concatenation of a list of strings (`"".join(ls)`). */
  function Concat(ls: seq<string>): string
  {
    if ls == [] then [] else ls[0] + Concat(ls[1..])
  }

  lemma {:induction false} ConcatAppend(ls: seq<string>, l: string)
    ensures Concat(ls + [l]) == Concat(ls) + l
  {
    if ls != [] {
      assert (ls + [l])[1..] == ls[1..] + [l];
      ConcatAppend(ls[1..], l);
    }
  }

  lemma {:induction false} ConcatJoin(a: seq<string>, b: seq<string>)
    ensures Concat(a + b) == Concat(a) + Concat(b)
  {
    if a == [] {
      assert a + b == b;
    } else {
      assert (a + b)[1..] == a[1..] + b;
      ConcatJoin(a[1..], b);
    }
  }

  /** A line as `readline` returns it: non-empty, no line break before its
      last character. */
  predicate IsLine(l: string)
  {
    l != [] && '\n' !in l[..|l| - 1]
  }

  predicate Terminated(l: string)
  {
    l != [] && l[|l| - 1] == '\n'
  }

  /** The shape of a whole file read line by line: every line but the last
      ends with its line break. */
  predicate IsLines(ls: seq<string>)
  {
    (forall i | 0 <= i < |ls| :: IsLine(ls[i])) &&
    (forall i | 0 <= i < |ls| - 1 :: Terminated(ls[i]))
  }

  /** Length of the first line of `s`, line break included. */
  function LineLength(s: string): (n: nat)
    requires s != []
    ensures 0 < n <= |s|
    ensures '\n' !in s[..n - 1]
    ensures n == |s| || s[n - 1] == '\n'
  {
    if s[0] == '\n' || |s| == 1 then 1
    else
      var m := LineLength(s[1..]);
      assert s[..m] == [s[0]] + s[1..][..m - 1];
      1 + m
  }

  /** The lines Python yields when iterating over a text file holding `s`:
      each keeps its line break; a last line without one is kept as is. */
  function SplitLines(s: string): (ls: seq<string>)
    ensures Concat(ls) == s
    ensures IsLines(ls)
    decreases |s|
  {
    if s == [] then []
    else
      var n := LineLength(s);
      var rest := SplitLines(s[n..]);
      LinesCons(s[..n], rest);
      assert ([s[..n]] + rest)[1..] == rest;
      [s[..n]] + rest
  }

  lemma LinesCons(l: string, ls: seq<string>)
    requires IsLine(l) && IsLines(ls)
    requires ls != [] ==> Terminated(l)
    ensures IsLines([l] + ls)
  {
    var r := [l] + ls;
    forall i | 1 <= i < |r| ensures r[i] == ls[i - 1] { }
  }

  lemma LinesTail(ls: seq<string>)
    requires IsLines(ls) && ls != []
    ensures IsLines(ls[1..])
    ensures IsLine(ls[0]) && (|ls| > 1 ==> Terminated(ls[0]))
  {
    forall i | 0 <= i < |ls| - 1 ensures ls[1..][i] == ls[i + 1] { }
  }

  /** A well-formed line followed by more text is exactly the first line. */
  lemma LineLengthOfLine(l: string, rest: string)
    requires IsLine(l)
    requires rest != [] ==> Terminated(l)
    ensures LineLength(l + rest) == |l|
  {
    var s := l + rest;
    assert forall k | 0 <= k < |l| - 1 :: s[k] == l[k] && l[k] in l[..|l| - 1];
    assert s[|l| - 1] == l[|l| - 1];
    assert |l| < |s| ==> s[|l| - 1] in s[..|s| - 1];
  }

  /** Round trip: splitting the concatenation of well-formed lines gives the
      lines back (the other direction is the ensures of SplitLines). */
  lemma {:induction false} SplitConcat(ls: seq<string>)
    requires IsLines(ls)
    ensures SplitLines(Concat(ls)) == ls
  {
    if ls != [] {
      var l, rest := ls[0], Concat(ls[1..]);
      LinesTail(ls);
      LineLengthOfLine(l, rest);
      assert (l + rest)[|l|..] == rest;
      assert (l + rest)[..|l|] == l;
      SplitConcat(ls[1..]);
      assert [l] + ls[1..] == ls;
    }
  }

  /** A terminated first line splits off on its own. */
  lemma SplitFirstLine(h: string, rest: string)
    requires IsLine(h) && Terminated(h)
    ensures SplitLines(h + rest) == [h] + SplitLines(rest)
  {
    var ls := [h] + SplitLines(rest);
    assert ls[1..] == SplitLines(rest);
    LinesCons(h, SplitLines(rest));
    SplitConcat(ls);
  }

  /** Element `j` of a sequence, seen from its tail. */
  lemma TailAt<T>(xs: seq<T>, j: nat)
    requires 1 <= j < |xs|
    ensures xs[1..][j - 1] == xs[j]
  {
  }

  /** Element `j` of a sequence, seen from a prefix that holds it. */
  lemma TakeAt<T>(xs: seq<T>, k: nat, j: nat)
    requires j < k <= |xs|
    ensures xs[..k][j] == xs[j]
  {
  }

  /** The prefix of a sequence as long as the sequence is the sequence. */
  lemma TakeAll<T>(xs: seq<T>)
    ensures xs[..|xs|] == xs
  {
  }
}
