/** Negative-control detection in scripts/ncov-tools.py: the sample table is
    read line by line, its first (header) line is skipped, each remaining
    line's id is the text before its first comma, and an id is kept when it
    starts with one of the configured prefixes (`str.startswith` with a
    tuple). The ids are gathered in a set and then turned into a list. */
module NegativeControls {
  import opened Text

  /** `id.startswith(tuple(prefixes))`; false for an empty tuple. */
  predicate StartsWithAny(id: string, prefixes: seq<string>)
    ensures prefixes == [] ==> !StartsWithAny(id, prefixes)
    ensures "" in prefixes ==> StartsWithAny(id, prefixes)
  {
    exists k | 0 <= k < |prefixes| :: prefixes[k] <= id
  }

  /** `line.split(",")[0]`. A line without a comma keeps its line break. */
  function RowId(line: string): (id: string)
    ensures ',' !in id && id <= line
    ensures id == line || line[|id|] == ','
  {
    FirstField(line, ',')
  }

  /** The lines left after `fh.readline()` has consumed the header. */
  function DataRows(csv: string): (rows: seq<string>)
    ensures |rows| == if SplitLines(csv) == [] then 0 else |SplitLines(csv)| - 1
    ensures forall i | 0 <= i < |rows| :: rows[i] == SplitLines(csv)[i + 1]
  {
    var lines := SplitLines(csv);
    if lines == [] then [] else lines[1..]
  }

  /** The set `neg_samples` as the source builds it. */
  function NegativeSet(csv: string, prefixes: seq<string>): (neg: set<string>)
    ensures forall id | id in neg :: ',' !in id && StartsWithAny(id, prefixes)
  {
    set row | row in DataRows(csv) && StartsWithAny(RowId(row), prefixes) :: RowId(row)
  }

  /** The loop of the source over the table's lines. */
  method CollectNegatives(csv: string, prefixes: seq<string>) returns (neg: set<string>)
    ensures neg == NegativeSet(csv, prefixes)
  {
    var lines := SplitLines(csv);
    neg := {};
    if lines == [] {
      return;
    }
    var i := 1;
    while i < |lines|
      invariant 1 <= i <= |lines|
      invariant neg == set row | row in lines[1..i] && StartsWithAny(RowId(row), prefixes) :: RowId(row)
    {
      var id := RowId(lines[i]);
      if StartsWithAny(id, prefixes) {
        neg := neg + {id};
      }
      assert lines[1..i + 1] == lines[1..i] + [lines[i]];
      i := i + 1;
    }
    assert lines[1..i] == DataRows(csv);
  }

  lemma RowsMembership(lines: seq<string>, prefixes: seq<string>, id: string)
    requires lines != []
    ensures id in (set row | row in lines[1..] && StartsWithAny(RowId(row), prefixes) :: RowId(row)) <==>
      StartsWithAny(id, prefixes) && exists i | 1 <= i < |lines| :: RowId(lines[i]) == id
  {
    if exists i | 1 <= i < |lines| :: RowId(lines[i]) == id {
      var i :| 1 <= i < |lines| && RowId(lines[i]) == id;
      assert lines[1..][i - 1] == lines[i];
    }
    if exists row | row in lines[1..] :: RowId(row) == id {
      var row :| row in lines[1..] && RowId(row) == id;
      var j :| 0 <= j < |lines[1..]| && lines[1..][j] == row;
      assert lines[j + 1] == row;
    }
  }

  /** An id is a negative control exactly when some line after the first
      has it as its first field and it starts with a configured prefix. */
  lemma NegativeSetMembership(csv: string, prefixes: seq<string>, id: string)
    ensures id in NegativeSet(csv, prefixes) <==>
      StartsWithAny(id, prefixes) && exists i | 1 <= i < |SplitLines(csv)| :: RowId(SplitLines(csv)[i]) == id
  {
    var lines := SplitLines(csv);
    if lines != [] {
      RowsMembership(lines, prefixes, id);
    }
  }

  /** With no prefixes configured nothing is a negative control. */
  lemma NoPrefixesNoControls(csv: string)
    ensures NegativeSet(csv, []) == {}
  {
  }

  /** The header row is never considered: replacing it changes nothing. */
  lemma HeaderIgnored(h1: string, h2: string, rows: string, prefixes: seq<string>)
    requires IsLine(h1) && Terminated(h1)
    requires IsLine(h2) && Terminated(h2)
    ensures NegativeSet(h1 + rows, prefixes) == NegativeSet(h2 + rows, prefixes)
  {
    SplitFirstLine(h1, rows);
    SplitFirstLine(h2, rows);
    assert DataRows(h1 + rows) == SplitLines(rows) == DataRows(h2 + rows);
  }

  /** A table made of a header line alone has no negative controls. */
  lemma HeaderOnlyTable(header: string, prefixes: seq<string>)
    requires IsLine(header)
    ensures NegativeSet(header, prefixes) == {}
  {
    SplitConcat([header]);
    assert Concat([header]) == header;
  }

  /** In a table without commas the whole line, line break included, is the
      id: such an id matches its prefix but carries the break with it. */
  lemma CommaFreeRowKeepsBreak(header: string, row: string, prefix: string)
    requires IsLine(header) && Terminated(header)
    requires IsLine(row) && Terminated(row)
    requires ',' !in row && prefix <= row
    ensures row in NegativeSet(header + row, [prefix])
    ensures row[|row| - 1] == '\n'
  {
    SplitFirstLine(header, row);
    SplitConcat([row]);
    assert Concat([row]) == row;
    FirstFieldOfSplit(row, ',', "");
    assert StartsWithAny(row, [prefix]) by { assert [prefix][0] <= row; }
    assert DataRows(header + row) == [row];
    assert RowId(row) == row;
    assert row in DataRows(header + row) && StartsWithAny(RowId(row), [prefix]);
  }

  /** `list(neg_samples)`: every id once, in an order Python leaves
      unspecified (here: any order). */
  method ToList(neg: set<string>) returns (ids: seq<string>)
    ensures |ids| == |neg|
    ensures forall id :: id in ids <==> id in neg
    ensures forall i, j | 0 <= i < j < |ids| :: ids[i] != ids[j]
  {
    ids := [];
    var rest := neg;
    while rest != {}
      invariant forall id :: id in neg <==> id in ids || id in rest
      invariant forall id | id in ids :: id !in rest
      invariant |ids| + |rest| == |neg|
      invariant forall i, j | 0 <= i < j < |ids| :: ids[i] != ids[j]
      decreases |rest|
    {
      var id :| id in rest;
      ids := ids + [id];
      rest := rest - {id};
    }
  }
}
