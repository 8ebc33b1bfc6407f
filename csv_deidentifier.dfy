/**
 * The table handling of the CSV de-identifier: optional case folding of
 * the cells read from the file, transposition of the rows into a dict
 * from header to column values (what Presidio's dict analyzer receives),
 * and reassembly of the anonymized dict into output rows.
 *
 * Reading and writing the files, and the Presidio calls between
 * transposition and reassembly, are not modelled: the table comes in as
 * a sequence of rows of cells, and reassembly takes the anonymized dict
 * as its input.
 */
module CsvDeidentifier {
  import opened Wrappers
  import opened OrderedDicts

  type Row = seq<string>
  type Table = seq<Row>

  /** The constructor's fields (the analyzer and anonymizer engines are not modelled). */
  datatype Deidentifier = Deidentifier(
    inputCsvPath: string,
    outputCsvPath: string,
    language: string,
    entities: Option<seq<string>>,
    lowerCase: bool)

  // ---------------------------------------------------------------------
  // Case folding

  predicate IsUpper(c: char)
  {
    'A' <= c <= 'Z'
  }

  /** `str.lower` on one character, over ASCII. */
  function LowerChar(c: char): (r: char)
    ensures !IsUpper(r)
    ensures r == '<' <==> c == '<'
    ensures IsUpper(c) ==> r as int == c as int + 32
    ensures !IsUpper(c) ==> r == c
  {
    if IsUpper(c) then (c as int + 32) as char else c
  }

  /** `str.lower`, character by character. */
  function Lower(s: string): (r: string)
    ensures |r| == |s|
    ensures forall i :: 0 <= i < |s| ==> r[i] == LowerChar(s[i])
  {
    seq(|s|, i requires 0 <= i < |s| => LowerChar(s[i]))
  }

  /** Lower-casing neither adds nor removes the placeholder marker `<`. */
  lemma LowerKeepsMarker(s: string)
    ensures '<' in Lower(s) <==> '<' in s
  {
    var r := Lower(s);
    if '<' in r {
      var i :| 0 <= i < |r| && r[i] == '<';
      assert s[i] == '<';
    }
    if '<' in s {
      var i :| 0 <= i < |s| && s[i] == '<';
      assert r[i] == '<';
    }
  }

  /** The element expression of the folding comprehension. */
  function FoldCell(cell: string): (r: string)
    ensures '<' in cell ==> r == cell
    ensures '<' !in cell ==> r == Lower(cell) && '<' !in r
    ensures |r| == |cell|
  {
    LowerKeepsMarker(cell);
    if '<' !in cell then Lower(cell) else cell
  }

  /** The folding comprehension over every row, the header row included. */
  function FoldCase(rows: Table): (r: Table)
    ensures |r| == |rows|
    ensures forall i :: 0 <= i < |rows| ==> |r[i]| == |rows[i]|
    ensures forall i, j :: 0 <= i < |rows| && 0 <= j < |rows[i]| ==> r[i][j] == FoldCell(rows[i][j])
  {
    seq(|rows|, i requires 0 <= i < |rows| =>
      seq(|rows[i]|, j requires 0 <= j < |rows[i]| => FoldCell(rows[i][j])))
  }

  /** Folding a cell twice is folding it once. */
  lemma FoldCellIdempotent(cell: string)
    ensures FoldCell(FoldCell(cell)) == FoldCell(cell)
  {
    if '<' !in cell {
      var once := Lower(cell);
      assert Lower(once) == once;
    }
  }

  /** Folding a table twice is folding it once. */
  lemma FoldCaseIdempotent(rows: Table)
    ensures FoldCase(FoldCase(rows)) == FoldCase(rows)
  {
    var once := FoldCase(rows);
    var twice := FoldCase(once);
    forall i | 0 <= i < |rows|
      ensures twice[i] == once[i]
    {
      forall j | 0 <= j < |rows[i]|
        ensures twice[i][j] == once[i][j]
      {
        FoldCellIdempotent(rows[i][j]);
      }
    }
  }

  // ---------------------------------------------------------------------
  // Transposition

  function Min(a: nat, b: nat): nat
  {
    if a <= b then a else b
  }

  /** The number of tuples `zip(*rows)` yields: the shortest row's length, 0 for no rows. */
  function Width(rows: Table): (w: nat)
    ensures forall i :: 0 <= i < |rows| ==> w <= |rows[i]|
    ensures rows != [] ==> exists i :: 0 <= i < |rows| && w == |rows[i]|
    ensures rows == [] ==> w == 0
  {
    if rows == [] then 0
    else if |rows| == 1 then |rows[0]|
    else
      var rest := Width(rows[1..]);
      assert forall i :: 1 <= i < |rows| ==> rows[i] == rows[1..][i - 1];
      Min(|rows[0]|, rest)
  }

  /** `zip(*rows)`: tuple `j` holds cell `j` of every row; cells past the shortest row are dropped. */
  function Zip(rows: Table): (cols: Table)
    ensures |cols| == Width(rows)
    ensures forall j :: 0 <= j < |cols| ==> |cols[j]| == |rows|
    ensures forall j, i :: 0 <= j < |cols| && 0 <= i < |rows| ==> cols[j][i] == rows[i][j]
  {
    seq(Width(rows), j requires 0 <= j < Width(rows) =>
      seq(|rows|, i requires 0 <= i < |rows| => rows[i][j]))
  }

  /** The pairs `header, *values` bound by the transposing dict comprehension. */
  function HeaderColumns(rows: Table): (ps: seq<(string, seq<string>)>)
    ensures |ps| == Width(rows)
    ensures forall j :: 0 <= j < |ps| ==> ps[j].0 == rows[0][j] && |ps[j].1| == |rows| - 1
    ensures forall j, i :: 0 <= j < |ps| && 0 <= i < |rows| - 1 ==> ps[j].1[i] == rows[i + 1][j]
  {
    var cols := Zip(rows);
    seq(|cols|, j requires 0 <= j < |cols| => (cols[j][0], cols[j][1..]))
  }

  /** The transposing dict comprehension: header cell to the column below it. */
  function Transpose(rows: Table): (d: Dict<seq<string>>)
    ensures Valid(d)
  {
    FromPairs(HeaderColumns(rows))
  }

  /** Every row has as many cells as the header. */
  predicate Rectangular(rows: Table)
  {
    rows != [] && forall i :: 0 <= i < |rows| ==> |rows[i]| == |rows[0]|
  }

  lemma RectangularWidth(rows: Table)
    requires Rectangular(rows)
    ensures Width(rows) == |rows[0]|
  {
  }

  /** The keys are the header cells of the first `Width(rows)` columns, and only those. */
  lemma TransposeKeys(rows: Table, k: string)
    ensures k in Transpose(rows).vals <==> exists j :: 0 <= j < Width(rows) && rows[0][j] == k
  {
    var ps := HeaderColumns(rows);
    FromPairsKeys(ps, k);
    if exists j :: 0 <= j < Width(rows) && rows[0][j] == k {
      var j :| 0 <= j < Width(rows) && rows[0][j] == k;
      assert ps[j].0 == k;
    }
  }

  /**
   * The value for the header of column `j`, when no later column among the
   * first `Width(rows)` repeats that header, is column `j` below the header,
   * in row order.
   */
  lemma TransposeColumn(rows: Table, j: nat)
    requires j < Width(rows)
    requires forall j' :: j < j' < Width(rows) ==> rows[0][j'] != rows[0][j]
    ensures rows[0][j] in Transpose(rows).vals
    ensures |Transpose(rows).vals[rows[0][j]]| == |rows| - 1
    ensures forall i :: 0 <= i < |rows| - 1 ==> Transpose(rows).vals[rows[0][j]][i] == rows[i + 1][j]
  {
    FromPairsLast(HeaderColumns(rows), j);
  }

  /** Every value list has one entry per data row. */
  lemma TransposeValueLengths(rows: Table, k: string)
    requires k in Transpose(rows).vals
    ensures |Transpose(rows).vals[k]| == |rows| - 1
  {
    TransposeKeys(rows, k);
    var j :| 0 <= j < Width(rows) && rows[0][j] == k;
    while exists j' :: j < j' < Width(rows) && rows[0][j'] == k
      invariant 0 <= j < Width(rows) && rows[0][j] == k
      decreases Width(rows) - j
    {
      var later :| j < later < Width(rows) && rows[0][later] == k;
      j := later;
    }
    TransposeColumn(rows, j);
  }

  /** With distinct headers, the keys are the headers in column order. */
  lemma TransposeDistinctHeaders(rows: Table)
    requires rows != [] && Distinct(rows[0][..Width(rows)])
    ensures Transpose(rows).keys == rows[0][..Width(rows)]
  {
    var ps := HeaderColumns(rows);
    assert KeysOf(ps) == rows[0][..Width(rows)];
    FromPairsDistinct(ps);
  }

  /** Keys appear in the order of the FIRST column that carries each header. */
  lemma TransposeKeyOrder(rows: Table, a: nat, b: nat)
    requires rows != [] && a < b < |Transpose(rows).keys|
    ensures Transpose(rows).keys[a] in rows[0][..Width(rows)]
    ensures Transpose(rows).keys[b] in rows[0][..Width(rows)]
    ensures FirstIndex(rows[0][..Width(rows)], Transpose(rows).keys[a])
          < FirstIndex(rows[0][..Width(rows)], Transpose(rows).keys[b])
  {
    var ps := HeaderColumns(rows);
    assert KeysOf(ps) == rows[0][..Width(rows)];
    FromPairsOrder(ps, a, b);
  }

  /** A repeated header keeps its first position and the last column's values. */
  lemma DuplicateHeaderExample()
    ensures Transpose([["a", "b", "a"], ["1", "2", "3"]]) == Dict(["a", "b"], map["a" := ["3"], "b" := ["2"]])
  {
    var rows := [["a", "b", "a"], ["1", "2", "3"]];
    assert Width(rows[1..]) == 3;
    assert Width(rows) == 3;
    var ps := HeaderColumns(rows);
    assert ps[0].1 == ["1"] && ps[1].1 == ["2"] && ps[2].1 == ["3"];
    assert ps == [("a", ["1"]), ("b", ["2"]), ("a", ["3"])];
    assert ps[..2][..1][..0] == [];
    assert FromPairs(ps[..2][..1]) == Dict(["a"], map["a" := ["1"]]);
    assert ps[..2][..1] == ps[..1];
    assert FromPairs(ps[..2]) == Dict(["a", "b"], map["a" := ["1"], "b" := ["2"]]);
    assert map["a" := ["1"], "b" := ["2"]]["a" := ["3"]] == map["a" := ["3"], "b" := ["2"]];
  }

  /** A short row truncates every column to its length; nothing is raised. */
  lemma RaggedRowExample()
    ensures Transpose([["h1", "h2"], ["x"]]) == Dict(["h1"], map["h1" := ["x"]])
  {
    var rows := [["h1", "h2"], ["x"]];
    assert Width(rows[1..]) == 1;
    assert Width(rows) == 1;
    var ps := HeaderColumns(rows);
    assert ps[0].1 == ["x"];
    assert ps == [("h1", ["x"])];
  }

  /**
   * What `analyze_csv` hands to Presidio's dict analyzer: the rows, folded
   * when the deidentifier was built with `lower_case`, transposed.
   */
  function ColumnsForAnalysis(self: Deidentifier, rows: Table): (d: Dict<seq<string>>)
    ensures Valid(d)
    ensures !self.lowerCase ==> d == Transpose(rows)
    ensures self.lowerCase ==> d == Transpose(FoldCase(rows))
    ensures forall k :: k in d.vals ==> |d.vals[k]| == |rows| - 1
  {
    var table := if self.lowerCase then FoldCase(rows) else rows;
    TransposeAllValueLengths(table);
    Transpose(table)
  }

  lemma TransposeAllValueLengths(rows: Table)
    ensures forall k :: k in Transpose(rows).vals ==> |Transpose(rows).vals[k]| == |rows| - 1
  {
    forall k | k in Transpose(rows).vals
      ensures |Transpose(rows).vals[k]| == |rows| - 1
    {
      TransposeValueLengths(rows, k);
    }
  }

  /** Folding keeps every row's length, so it keeps the transposed width. */
  lemma FoldCaseWidth(rows: Table)
    ensures Width(FoldCase(rows)) == Width(rows)
  {
    var f := FoldCase(rows);
    if rows != [] {
      var i :| 0 <= i < |f| && Width(f) == |f[i]|;
      var i' :| 0 <= i' < |rows| && Width(rows) == |rows[i']|;
      assert Width(f) <= |f[i']| == |rows[i']|;
      assert Width(rows) <= |rows[i]| == |f[i]|;
    }
  }

  /** With `lower_case`, the keys are the folded header cells and the values the folded cells. */
  lemma FoldedColumns(self: Deidentifier, rows: Table, j: nat)
    requires self.lowerCase && j < Width(rows)
    requires forall j' :: j < j' < Width(rows) ==> FoldCell(rows[0][j']) != FoldCell(rows[0][j])
    ensures FoldCell(rows[0][j]) in ColumnsForAnalysis(self, rows).vals
    ensures forall i :: 0 <= i < |rows| - 1 ==>
      ColumnsForAnalysis(self, rows).vals[FoldCell(rows[0][j])][i] == FoldCell(rows[i + 1][j])
  {
    var f := FoldCase(rows);
    var d := ColumnsForAnalysis(self, rows);
    assert d == Transpose(f);
    FoldCaseWidth(rows);
    assert j < Width(f);
    assert f[0][j] == FoldCell(rows[0][j]);
    forall j' | j < j' < Width(f)
      ensures f[0][j'] != f[0][j]
    {
      assert f[0][j'] == FoldCell(rows[0][j']);
    }
    TransposeColumn(f, j);
    forall i | 0 <= i < |rows| - 1
      ensures d.vals[FoldCell(rows[0][j])][i] == FoldCell(rows[i + 1][j])
    {
      assert f[i + 1][j] == FoldCell(rows[i + 1][j]);
    }
  }

  // ---------------------------------------------------------------------
  // Reassembly

  /** The header list and the row dicts `write_output` hands to the CSV writer. */
  datatype Output = Output(headers: seq<string>, rows: seq<map<string, string>>)

  /** `dict(zip(headers, row))`: later headers overwrite earlier equal ones. */
  function RowDict(headers: seq<string>, row: seq<string>): (m: map<string, string>)
    ensures forall k :: k in m ==> k in headers && m[k] in row
    decreases |headers|
  {
    if headers == [] || row == [] then map[]
    else map[headers[0] := row[0]] + RowDict(headers[1..], row[1..])
  }

  /** With distinct headers, the row dict maps each header to the cell at its position. */
  lemma {:induction false} RowDictAt(headers: seq<string>, row: seq<string>)
    requires Distinct(headers) && |headers| <= |row|
    ensures forall k :: k in RowDict(headers, row) <==> k in headers
    ensures forall j :: 0 <= j < |headers| ==> RowDict(headers, row)[headers[j]] == row[j]
    decreases |headers|
  {
    if headers != [] {
      var h', r' := headers[1..], row[1..];
      assert Distinct(h');
      RowDictAt(h', r');
      assert forall j :: 1 <= j < |headers| ==> headers[j] == h'[j - 1] && row[j] == r'[j - 1];
      assert headers[0] !in h';
    }
  }

  /** The anonymized dict's values, in key order (`values()`). */
  function ValuesInOrder(d: Dict<seq<string>>): (cols: Table)
    requires Valid(d)
    ensures |cols| == |d.keys|
    ensures forall j :: 0 <= j < |d.keys| ==> cols[j] == d.vals[d.keys[j]]
  {
    seq(|d.keys|, j requires 0 <= j < |d.keys| => d.vals[d.keys[j]])
  }

  /** `write_output` without the file: headers from the keys, one row dict per tuple of `zip(*values)`. */
  function WriteOutput(d: Dict<seq<string>>): (out: Output)
    requires Valid(d)
    ensures out.headers == d.keys
    ensures forall i, k :: 0 <= i < |out.rows| && k in out.rows[i] ==> k in d.keys
  {
    var tuples := Zip(ValuesInOrder(d));
    Output(d.keys, seq(|tuples|, i requires 0 <= i < |tuples| => RowDict(d.keys, tuples[i])))
  }

  /**
   * The output headers are the keys in order, and there are as many rows
   * as the shortest value list holds (none when the dict is empty).
   */
  lemma WriteOutputShape(d: Dict<seq<string>>)
    requires Valid(d)
    ensures WriteOutput(d).headers == d.keys
    ensures forall k :: k in d.vals ==> |WriteOutput(d).rows| <= |d.vals[k]|
    ensures d.keys != [] ==> exists k :: k in d.vals && |WriteOutput(d).rows| == |d.vals[k]|
    ensures d.keys == [] ==> WriteOutput(d).rows == []
  {
    var cols := ValuesInOrder(d);
    forall k | k in d.vals
      ensures |WriteOutput(d).rows| <= |d.vals[k]|
    {
      var j :| 0 <= j < |d.keys| && d.keys[j] == k;
      assert cols[j] == d.vals[k];
    }
    if d.keys != [] {
      var j :| 0 <= j < |cols| && Width(cols) == |cols[j]|;
      assert d.keys[j] in d.vals && |WriteOutput(d).rows| == |d.vals[d.keys[j]]|;
    }
  }

  /** Row `i` maps each header to entry `i` of that header's value list. */
  lemma WriteOutputCells(d: Dict<seq<string>>, i: nat)
    requires Valid(d) && i < |WriteOutput(d).rows|
    ensures forall k :: k in WriteOutput(d).rows[i] <==> k in d.keys
    ensures forall j :: 0 <= j < |d.keys| ==> WriteOutput(d).rows[i][d.keys[j]] == d.vals[d.keys[j]][i]
  {
    var tuples := Zip(ValuesInOrder(d));
    RowDictAt(d.keys, tuples[i]);
  }

  /**
   * Transposing a rectangular table with distinct, non-empty headers and
   * reassembling it without anonymization gives back every data row, in
   * order, as the dict from header to cell.
   */
  lemma RoundTrip(rows: Table)
    requires Rectangular(rows) && |rows[0]| > 0 && Distinct(rows[0])
    ensures WriteOutput(Transpose(rows)).headers == rows[0]
    ensures |WriteOutput(Transpose(rows)).rows| == |rows| - 1
    ensures forall i :: 0 <= i < |rows| - 1 ==>
      forall k :: k in WriteOutput(Transpose(rows)).rows[i] <==> k in rows[0]
    ensures forall i, j :: 0 <= i < |rows| - 1 && 0 <= j < |rows[0]| ==>
      WriteOutput(Transpose(rows)).rows[i][rows[0][j]] == rows[i + 1][j]
  {
    var d := Transpose(rows);
    var out := WriteOutput(d);
    RectangularWidth(rows);
    assert rows[0][..Width(rows)] == rows[0];
    TransposeDistinctHeaders(rows);
    assert d.keys == rows[0];
    WriteOutputShape(d);
    var k :| k in d.vals && |out.rows| == |d.vals[k]|;
    TransposeValueLengths(rows, k);
    assert |out.rows| == |rows| - 1;
    forall i | 0 <= i < |rows| - 1
      ensures forall k :: k in out.rows[i] <==> k in rows[0]
      ensures forall j :: 0 <= j < |rows[0]| ==> out.rows[i][rows[0][j]] == rows[i + 1][j]
    {
      WriteOutputCells(d, i);
      forall j | 0 <= j < |rows[0]|
        ensures out.rows[i][rows[0][j]] == rows[i + 1][j]
      {
        TransposeColumn(rows, j);
      }
    }
  }
}
