/** The consensus FASTA header rewrite of scripts/ncov-tools.py: each line of
    the linked file is printed back through `fileinput` with `inplace=True`;
    a header line (starting with `>`) is replaced by `">" + sample`, every
    line is printed with `end='\n'`. A non-header line still carries its own
    line break, so it comes out followed by an extra empty line. */
module Fasta {
  import opened Text

  /** `line.startswith('>')`. */
  predicate IsHeader(line: string)
    ensures IsHeader(line) <==> ">" <= line
  {
    line != [] && line[0] == '>'
  }

  /** What one `print(..., end='\n')` call emits for one input line.
      (`line.replace(line, new_header)` is `new_header` for a non-empty line.) */
  function RewriteLine(line: string, sample: string): (out: string)
    ensures Terminated(out)
  {
    if IsHeader(line) then ">" + sample + "\n" else line + "\n"
  }

  /** One emitted chunk per input line, in input order. */
  function RewriteLines(lines: seq<string>, sample: string): (out: seq<string>)
    ensures |out| == |lines|
  {
    seq(|lines|, i requires 0 <= i < |lines| => RewriteLine(lines[i], sample))
  }

  /** Rewriting one more line appends its chunk. */
  lemma RewriteLinesSnoc(lines: seq<string>, i: nat, sample: string)
    requires i < |lines|
    ensures RewriteLines(lines[..i + 1], sample) == RewriteLines(lines[..i], sample) + [RewriteLine(lines[i], sample)]
  {
  }

  /** The new content of a file rewritten in place. */
  function RewriteText(text: string, sample: string): string
  {
    Concat(RewriteLines(SplitLines(text), sample))
  }

  /** The lines a later reader sees for one rewritten input line: the new
      header; a terminated line followed by an empty line; an unterminated
      last line, now terminated. */
  function Reread(line: string, sample: string): seq<string>
  {
    if IsHeader(line) then [">" + sample + "\n"]
    else if Terminated(line) then [line, "\n"]
    else [line + "\n"]
  }

  function RereadAll(lines: seq<string>, sample: string): seq<string>
  {
    if lines == [] then [] else Reread(lines[0], sample) + RereadAll(lines[1..], sample)
  }

  /** Every line of a re-read rewritten file is a complete, terminated line. */
  predicate TerminatedLines(ls: seq<string>)
  {
    forall i | 0 <= i < |ls| :: IsLine(ls[i]) && Terminated(ls[i])
  }

  lemma TerminatedLinesAreLines(ls: seq<string>)
    requires TerminatedLines(ls)
    ensures IsLines(ls)
  {
  }

  lemma RereadShape(l: string, sample: string)
    requires IsLine(l)
    requires '\n' !in sample
    ensures Concat(Reread(l, sample)) == RewriteLine(l, sample)
    ensures TerminatedLines(Reread(l, sample))
  {
    var head := ">" + sample + "\n";
    assert head[..|head| - 1] == ">" + sample;
    if !IsHeader(l) {
      if Terminated(l) {
        assert [l, "\n"][1..] == ["\n"] && ["\n"][1..] == [];
      } else {
        assert l[|l| - 1] != '\n';
        assert '\n' !in l by {
          forall k | 0 <= k < |l| ensures l[k] != '\n' {
            if k < |l| - 1 { assert l[k] in l[..|l| - 1]; }
          }
        }
        assert (l + "\n")[..|l|] == l;
      }
    }
  }

  lemma {:induction false} RereadAllShape(lines: seq<string>, sample: string)
    requires IsLines(lines)
    requires '\n' !in sample
    ensures Concat(RereadAll(lines, sample)) == Concat(RewriteLines(lines, sample))
    ensures TerminatedLines(RereadAll(lines, sample))
  {
    if lines != [] {
      var l := lines[0];
      LinesTail(lines);
      RereadAllShape(lines[1..], sample);
      RereadShape(l, sample);
      var mid, tail := Reread(l, sample), RereadAll(lines[1..], sample);
      ConcatJoin(mid, tail);
      assert RewriteLines(lines, sample)[1..] == RewriteLines(lines[1..], sample);
      var all := RereadAll(lines, sample);
      assert all == mid + tail;
      forall i | 0 <= i < |all| ensures IsLine(all[i]) && Terminated(all[i]) {
        if i >= |mid| { assert all[i] == tail[i - |mid|]; } else { assert all[i] == mid[i]; }
      }
    }
  }

  /** Reading the rewritten file back line by line yields, for each input
      line in order, the new header `">" + sample`, or the line itself
      followed by an inserted empty line, or (for an unterminated last line)
      the line with a break added. */
  lemma RewriteTextLines(text: string, sample: string)
    requires '\n' !in sample
    ensures SplitLines(RewriteText(text, sample)) == RereadAll(SplitLines(text), sample)
  {
    var lines := SplitLines(text);
    RereadAllShape(lines, sample);
    TerminatedLinesAreLines(RereadAll(lines, sample));
    SplitConcat(RereadAll(lines, sample));
  }

  /** The original header text never reaches the output: files that differ
      only in what their header lines say are rewritten identically. */
  lemma RewriteIgnoresHeaderText(t1: string, t2: string, sample: string)
    requires |SplitLines(t1)| == |SplitLines(t2)|
    requires forall i | 0 <= i < |SplitLines(t1)| ::
      SplitLines(t1)[i] == SplitLines(t2)[i] || (IsHeader(SplitLines(t1)[i]) && IsHeader(SplitLines(t2)[i]))
    ensures RewriteText(t1, sample) == RewriteText(t2, sample)
  {
    assert RewriteLines(SplitLines(t1), sample) == RewriteLines(SplitLines(t2), sample);
  }

  /** Rewriting a text given as its lines. */
  lemma RewriteOfLines(ls: seq<string>, sample: string)
    requires IsLines(ls)
    ensures RewriteText(Concat(ls), sample) == Concat(RewriteLines(ls, sample))
  {
    SplitConcat(ls);
  }

  /** The example file `>h`, `ACGT` as its lines, and those lines rewritten. */
  lemma ExampleLines()
    ensures IsLines([">h\n", "ACGT\n"])
    ensures Concat([">h\n", "ACGT\n"]) == ">h\nACGT\n"
    ensures RewriteLines([">h\n", "ACGT\n"], "S1") == [">S1\n", "ACGT\n\n"]
    ensures Concat([">S1\n", "ACGT\n\n"]) == ">S1\nACGT\n\n"
  {
    var ls := [">h\n", "ACGT\n"];
    var out := [">S1\n", "ACGT\n\n"];
    assert IsLine(">h\n") by { assert ">h\n"[..2] == ">h"; }
    assert IsLine("ACGT\n") by { assert "ACGT\n"[..4] == "ACGT"; }
    assert Concat(ls[1..][1..]) == "";
    assert Concat(ls[1..]) == "ACGT\n";
    assert RewriteLines(ls, "S1")[0] == out[0] && RewriteLines(ls, "S1")[1] == out[1];
    assert Concat(out[1..][1..]) == "";
    assert Concat(out[1..]) == "ACGT\n\n";
  }

  /** The once-rewritten example as its lines, and those lines rewritten again. */
  lemma ExampleLinesAgain()
    ensures IsLines([">S1\n", "ACGT\n", "\n"])
    ensures Concat([">S1\n", "ACGT\n", "\n"]) == ">S1\nACGT\n\n"
    ensures RewriteLines([">S1\n", "ACGT\n", "\n"], "S1") == [">S1\n", "ACGT\n\n", "\n\n"]
    ensures Concat([">S1\n", "ACGT\n\n", "\n\n"]) == ">S1\nACGT\n\n\n\n"
  {
    var ls := [">S1\n", "ACGT\n", "\n"];
    var out := [">S1\n", "ACGT\n\n", "\n\n"];
    assert IsLine(">S1\n") by { assert ">S1\n"[..3] == ">S1"; }
    assert IsLine("ACGT\n") by { assert "ACGT\n"[..4] == "ACGT"; }
    assert IsLine("\n") by { assert "\n"[..0] == ""; }
    assert Concat(ls[1..][1..][1..]) == "";
    assert Concat(ls[1..][1..]) == "\n";
    assert Concat(ls[1..]) == "ACGT\n\n";
    assert RewriteLines(ls, "S1")[0] == out[0] && RewriteLines(ls, "S1")[1] == out[1];
    assert RewriteLines(ls, "S1")[2] == out[2];
    assert Concat(out[1..][1..][1..]) == "";
    assert Concat(out[1..][1..]) == "\n\n";
    assert Concat(out[1..]) == "ACGT\n\n\n\n";
  }

  /** The rewrite is not idempotent: a file rewritten a second time (as the
      FreeBayes fallback does) gains further empty lines. */
  lemma RewriteTwiceGrows()
    ensures RewriteText(">h\nACGT\n", "S1") == ">S1\nACGT\n\n"
    ensures RewriteText(RewriteText(">h\nACGT\n", "S1"), "S1") == ">S1\nACGT\n\n\n\n"
  {
    ExampleLines();
    RewriteOfLines([">h\n", "ACGT\n"], "S1");
    ExampleLinesAgain();
    RewriteOfLines([">S1\n", "ACGT\n", "\n"], "S1");
  }
}
