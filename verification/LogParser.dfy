/** The log table: schema inference, row filtering, a sorted index and metrics per column. */
module LogParsers {
  import opened Prelude
  import opened LogOrder
  import Strings

  type Row = seq<string>

  /** A line cut at its tabs; nothing follows a tab that ends the line. */
  function Cells(line: string): Row {
    var parts := Strings.SplitOn(line, '\t');
    if parts[|parts| - 1] == "" then parts[..|parts| - 1] else parts
  }

  function RowTypes(c: CLib, row: Row): seq<DataType> {
    seq(|row|, i requires 0 <= i < |row| => ParseColumnDataType(c, row[i]))
  }

  /** The row's leading cells have the given types. */
  predicate Conforms(c: CLib, types: seq<DataType>, row: Row) {
    |types| <= |row| && forall i :: 0 <= i < |types| ==> ParseColumnDataType(c, row[i]) == types[i]
  }

  function Conforming(c: CLib, types: seq<DataType>, rows: seq<Row>): seq<Row> {
    if rows == [] then []
    else
      var before, row := Conforming(c, types, rows[..|rows| - 1]), rows[|rows| - 1];
      if Conforms(c, types, row) then before + [row] else before
  }

  lemma {:induction false} ConformingConcat(c: CLib, types: seq<DataType>, a: seq<Row>, b: seq<Row>)
    ensures Conforming(c, types, a + b) == Conforming(c, types, a) + Conforming(c, types, b)
    decreases |b|
  {
    if b == [] {
      assert a + b == a;
    } else {
      assert (a + b)[..|a| + |b| - 1] == a + b[..|b| - 1];
      ConformingConcat(c, types, a, b[..|b| - 1]);
    }
  }

  lemma {:induction false} ConformingRows(c: CLib, types: seq<DataType>, rows: seq<Row>)
    ensures forall row :: row in Conforming(c, types, rows) <==> row in rows && Conforms(c, types, row)
    ensures (forall row :: row in rows ==> Conforms(c, types, row)) ==> Conforming(c, types, rows) == rows
    decreases |rows|
  {
    if rows == [] {
    } else {
      ConformingRows(c, types, rows[..|rows| - 1]);
      assert rows == rows[..|rows| - 1] + [rows[|rows| - 1]];
    }
  }

  // ---------------------------------------------------------------- what a file holds

  datatype Table = Table(names: Row, types: seq<DataType>, rows: seq<Row>)

  function NonEmpty(lines: seq<string>): seq<string> {
    if lines == [] then []
    else
      var before, line := NonEmpty(lines[..|lines| - 1]), lines[|lines| - 1];
      if line == "" then before else before + [line]
  }

  /** The lines with as many cells as there are columns, cut into cells. */
  function FullRows(lines: seq<string>, width: nat): seq<Row> {
    if lines == [] then []
    else
      var before, row := FullRows(lines[..|lines| - 1], width), Cells(lines[|lines| - 1]);
      if |row| == width then before + [row] else before
  }

  /** The table of a file: names from the first line with text, types from the first full row
      after it, and the full rows that have these types. */
  function FileTable(c: CLib, lines: seq<string>): Option<Table> {
    var text := NonEmpty(lines);
    if text == [] then None
    else
      var names := Cells(text[0]);
      var full := FullRows(text[1..], |names|);
      if full == [] then None
      else
        var types := RowTypes(c, full[0]);
        Some(Table(names, types, Conforming(c, types, full)))
  }

  lemma {:induction false} FullRowsAreFull(lines: seq<string>, width: nat)
    ensures forall row :: row in FullRows(lines, width) ==> |row| == width
    decreases |lines|
  {
    if lines == [] {
    } else {
      FullRowsAreFull(lines[..|lines| - 1], width);
    }
  }

  /** A file's table has at least one row, and all its rows are full and have its types. */
  lemma FileTableIsUniform(c: CLib, lines: seq<string>)
    requires FileTable(c, lines).Some?
    ensures var t := FileTable(c, lines).value;
      && t.rows != [] && |t.types| == |t.names|
      && forall row :: row in t.rows ==> |row| == |t.names| && Conforms(c, t.types, row)
  {
    var text := NonEmpty(lines);
    var full := FullRows(text[1..], |Cells(text[0])|);
    FullRowsAreFull(text[1..], |Cells(text[0])|);
    ConformingRows(c, RowTypes(c, full[0]), full);
    assert full[0] in full && Conforms(c, RowTypes(c, full[0]), full[0]);
    assert full[0] in Conforming(c, RowTypes(c, full[0]), full);
  }

  /** The state of the reading loop after some lines. */
  datatype Reading = NoHeader | NoTypes(names: Row) | Rows(table: Table)

  function ReadSoFar(c: CLib, lines: seq<string>): Reading {
    ReadText(c, NonEmpty(lines))
  }

  function ReadText(c: CLib, text: seq<string>): Reading {
    if text == [] then NoHeader
    else ReadRows(c, Cells(text[0]), FullRows(text[1..], |Cells(text[0])|))
  }

  /** What the full rows after the header amount to. */
  function ReadRows(c: CLib, names: Row, full: seq<Row>): Reading {
    if full == [] then NoTypes(names)
    else Rows(Table(names, RowTypes(c, full[0]), Conforming(c, RowTypes(c, full[0]), full)))
  }

  /** When all lines have been read, the file's table is there if it has one. */
  lemma ReadingEndsWithTable(c: CLib, lines: seq<string>)
    ensures FileTable(c, lines) == match ReadSoFar(c, lines) case Rows(t) => Some(t) case _ => None
  {
  }

  function ReadLine(c: CLib, r: Reading, line: string): Reading {
    if line == "" then r else ReadCells(c, r, Cells(line))
  }

  function ReadCells(c: CLib, r: Reading, row: Row): Reading {
    match r
    case NoHeader => NoTypes(row)
    case NoTypes(names) =>
      if |row| != |names| then r else Rows(Table(names, RowTypes(c, row), [row]))
    case Rows(t) =>
      if |row| != |t.names| || !Conforms(c, t.types, row) then r else Rows(t.(rows := t.rows + [row]))
  }

  lemma OneMoreText(lines: seq<string>, line: string)
    ensures NonEmpty(lines + [line]) == NonEmpty(lines) + if line == "" then [] else [line]
  {
    assert (lines + [line])[..|lines|] == lines;
  }

  lemma OneMoreFullRow(lines: seq<string>, line: string, width: nat)
    ensures FullRows(lines + [line], width) == FullRows(lines, width) + if |Cells(line)| ==
      width then [Cells(line)] else []
  {
    assert (lines + [line])[..|lines|] == lines;
  }

  lemma OneMoreConforming(c: CLib, types: seq<DataType>, rows: seq<Row>, row: Row)
    ensures Conforming(c, types, rows + [row]) ==
      Conforming(c, types, rows) + if Conforms(c, types, row) then [row] else []
  {
    assert (rows + [row])[..|rows|] == rows;
  }

  lemma OneMoreRow(c: CLib, names: Row, full: seq<Row>, row: Row)
    requires |row| == |names|
    ensures ReadRows(c, names, full + [row]) ==
      match ReadRows(c, names, full)
      case Rows(t) => if Conforms(c, t.types, row) then Rows(t.(rows := t.rows + [row])) else Rows(t)
      case _ => Rows(Table(names, RowTypes(c, row), [row]))
  {
    if full == [] {
      OneMoreConforming(c, RowTypes(c, row), [], row);
      assert [] + [row] == [row];
    } else {
      OneMoreConforming(c, RowTypes(c, full[0]), full, row);
      assert (full + [row])[0] == full[0];
    }
  }

  lemma OneMoreTextLine(c: CLib, text: seq<string>, line: string)
    requires text != [] && line != ""
    ensures ReadText(c, text + [line]) == ReadLine(c, ReadText(c, text), line)
  {
    var names := Cells(text[0]);
    var full := FullRows(text[1..], |names|);
    assert (text + [line])[0] == text[0] && (text + [line])[1..] == text[1..] + [line];
    OneMoreFullRow(text[1..], line, |names|);
    if |Cells(line)| == |names| { OneMoreRow(c, names, full, Cells(line)); }
  }

  /** Reading line by line arrives at the file's table. */
  lemma ReadOneMore(c: CLib, lines: seq<string>, line: string)
    ensures ReadSoFar(c, lines + [line]) == ReadLine(c, ReadSoFar(c, lines), line)
  {
    OneMoreText(lines, line);
    if line != "" {
      if NonEmpty(lines) == [] {
        assert [line][1..] == [] && [] + [line] == [line];
      } else {
        OneMoreTextLine(c, NonEmpty(lines), line);
      }
    }
  }

  /** A line with text has a cell: a header is never without columns, and the source's branch
      for that case is dead. */
  lemma TextHasCells(line: string)
    requires line != ""
    ensures Cells(line) != []
  {
  }

  // ---------------------------------------------------------------- the integer sum

  const TWO_32 := 0x1_0000_0000
  const TWO_31 := 0x8000_0000
  const TWO_63 := 0x8000_0000_0000_0000

  /** Two's-complement narrowing to 32 bits. */
  function Wrap32(x: int): int {
    (x + TWO_31) % TWO_32 - TWO_31
  }

  function Total(vals: seq<int>): int {
    if vals == [] then 0 else Total(vals[..|vals| - 1]) + vals[|vals| - 1]
  }

  /** No single 64-bit addition of the accumulation overflows. */
  predicate AddsIn64(vals: seq<int>) {
    forall i :: 0 <= i < |vals| ==> -TWO_63 <= Wrap32(Total(vals[..i])) + vals[i] < TWO_63
  }

  lemma WrapOnceMore(x: int, v: int)
    ensures Wrap32(Wrap32(x) + v) == Wrap32(x + v)
  {
    var q := (x + TWO_31) / TWO_32;
    var y := x + v + TWO_31;
    assert Wrap32(x) == x - q * TWO_32;
    assert y - q * TWO_32 == (y / TWO_32 - q) * TWO_32 + y % TWO_32;
  }

  /** std::accumulate with an int start value: a 64-bit addition, then narrowed to 32 bits. */
  method Accumulate(vals: seq<int>) returns (sum: int)
    requires AddsIn64(vals)
    ensures sum == Wrap32(Total(vals))
    ensures sum == Total(vals) <==> -TWO_31 <= Total(vals) < TWO_31
  {
    sum := 0;
    for i := 0 to |vals|
      invariant sum == Wrap32(Total(vals[..i]))
    {
      assert vals[..i + 1][..i] == vals[..i];
      WrapOnceMore(Total(vals[..i]), vals[i]);
      sum := Wrap32(sum + vals[i]);
    }
    assert vals[..|vals|] == vals;
  }

  function RealTotal(vals: seq<real>): real {
    if vals == [] then 0.0 else RealTotal(vals[..|vals| - 1]) + vals[|vals| - 1]
  }

  method AccumulateReals(vals: seq<real>) returns (sum: real)
    ensures sum == RealTotal(vals)
  {
    sum := 0.0;
    for i := 0 to |vals|
      invariant sum == RealTotal(vals[..i])
    {
      assert vals[..i + 1][..i] == vals[..i];
      sum := sum + vals[i];
    }
    assert vals[..|vals|] == vals;
  }

  // ---------------------------------------------------------------- a column of a table

  function CellAt(rows: seq<Row>, row: nat, col: nat): string {
    if row < |rows| && col < |rows[row]| then rows[row][col] else ""
  }

  /** The comparator on row numbers that a column is sorted by. */
  function ColLess(c: CLib, t: DataType, rows: seq<Row>, col: nat): (nat, nat) -> bool {
    (i: nat, j: nat) => Less(c, t, CellAt(rows, i, col), CellAt(rows, j, col))
  }

  function ColumnCells(rows: seq<Row>, col: nat): set<string> {
    set i | 0 <= i < |rows| :: CellAt(rows, i, col)
  }

  function IntColumn(c: CLib, rows: seq<Row>, col: nat): seq<int> {
    seq(|rows|, i requires 0 <= i => c.strtol(CellAt(rows, i, col)).0)
  }

  function FloatColumn(c: CLib, rows: seq<Row>, col: nat): seq<real> {
    seq(|rows|, i requires 0 <= i => c.strtof(CellAt(rows, i, col)).0)
  }

  lemma ColLessRanks(c: CLib, t: DataType, rows: seq<Row>, col: nat)
    requires Sortable(c, t, ColumnCells(rows, col))
    ensures Ranking(ColLess(c, t, rows, col), |rows|)
  {
    forall i: nat | i < |rows| ensures CellAt(rows, i, col) in ColumnCells(rows, col) {}
  }

  /** An index vector of one column. */
  ghost predicate Indexes(c: CLib, t: DataType, rows: seq<Row>, col: nat, idx: seq<nat>) {
    && Permutation(idx, |rows|)
    && (Sortable(c, t, ColumnCells(rows, col)) ==> SortedBy(ColLess(c, t, rows, col), idx))
  }

  datatype Metric = Sum | Max | Min | Mean | Median

  /** A stored metric: a cell of the table, an integer sum, or a real number that the
      source rounds to a float. */
  datatype MetricValue = Cell(s: string) | IntSum(n: int) | Real(x: real)

  /** The metrics of one column: cells at the ends and in the middle of its index, and sums for numbers. */
  ghost predicate MetricsOf(c: CLib, t: DataType, rows: seq<Row>, col: nat, idx: seq<nat>, m: map<Metric, MetricValue>)
  {
    var n := |rows|;
    && 0 < n == |idx|
    && m.Keys == {Min, Max, Median} + (if t.Int? || t.Float? then {Sum, Mean} else {})
    && m[Min] == Cell(CellAt(rows, idx[0], col))
    && m[Max] == Cell(CellAt(rows, idx[n - 1], col))
    && m[Median] == Cell(CellAt(rows, idx[n / 2], col))
    && (t.Int? ==>
          var sum := Wrap32(Total(IntColumn(c, rows, col)));
          m[Sum] == IntSum(sum) && m[Mean] == Real(sum as real / n as real))
    && (t.Float? ==>
          var sum := RealTotal(FloatColumn(c, rows, col));
          m[Sum] == Real(sum) && m[Mean] == Real(sum / n as real))
  }

  /** A cell of the column with the given rank in the column's order. */
  ghost predicate IsOrderStatistic(c: CLib, t: DataType, rows: seq<Row>, col: nat, k: nat, v: MetricValue) {
    exists row: nat :: HasRank(ColLess(c, t, rows, col), |rows|, row, k) && v == Cell(CellAt(rows, row, col))
  }

  lemma PositionIsOrderStatistic(c: CLib, t: DataType, rows: seq<Row>, col: nat, idx: seq<nat>, k: nat)
    requires Indexes(c, t, rows, col, idx) && Sortable(c, t, ColumnCells(rows, col)) && k < |rows|
    ensures IsOrderStatistic(c, t, rows, col, k, Cell(CellAt(rows, idx[k], col)))
  {
    ColLessRanks(c, t, rows, col);
    OrderStatistic(ColLess(c, t, rows, col), idx, |rows|, k);
  }

  /** Min, max and median are the order statistics of rank 0, n - 1 and n / 2. */
  lemma MetricsAreOrderStatistics(c: CLib, t: DataType, rows: seq<Row>, col: nat, idx: seq<nat>,
                                  m: map<Metric, MetricValue>)
    requires rows != [] && Indexes(c, t, rows, col, idx) && MetricsOf(c, t, rows, col, idx, m)
    requires Sortable(c, t, ColumnCells(rows, col))
    ensures IsOrderStatistic(c, t, rows, col, 0, m[Min])
    ensures IsOrderStatistic(c, t, rows, col, |rows| - 1, m[Max])
    ensures IsOrderStatistic(c, t, rows, col, |rows| / 2, m[Median])
  {
    PositionIsOrderStatistic(c, t, rows, col, idx, 0);
    PositionIsOrderStatistic(c, t, rows, col, idx, |rows| - 1);
    PositionIsOrderStatistic(c, t, rows, col, idx, |rows| / 2);
  }

  // ---------------------------------------------------------------- a float column that cannot be sorted

  lemma LineOfOneCell(line: string)
    requires line != "" && '\t' !in line
    ensures Cells(line) == [line]
  {
    Strings.SplitWithoutSeparator(line, '\t');
  }

  function OneColumn(cells: seq<string>): seq<Row> {
    seq(|cells|, i requires 0 <= i < |cells| => [cells[i]])
  }

  /** A file with one column of cells of one type keeps all of them. */
  lemma {:induction false} FileOfOneColumn(c: CLib, name: string, t: DataType, cells: seq<string>)
    requires name != "" && '\t' !in name
    requires forall cell :: cell in cells ==> cell != "" && '\t' !in cell && ParseColumnDataType(c, cell) == t
    ensures ReadSoFar(c, [name] + cells) ==
      if cells == [] then NoTypes([name]) else Rows(Table([name], [t], OneColumn(cells)))
    decreases |cells|
  {
    if cells == [] {
      LineOfOneCell(name);
      ReadOneMore(c, [], name);
      assert [] + [name] == [name] + cells;
    } else {
      var init, last := cells[..|cells| - 1], cells[|cells| - 1];
      assert last in cells && forall cell :: cell in init ==> cell in cells;
      FileOfOneColumn(c, name, t, init);
      InitAndLast(cells);
      ConcatAssociative([name], init, [last]);
      OneMoreCell(init, last);
      OneMoreOfType(c, name, t, [name] + init, OneColumn(init), last);
    }
  }

  lemma OneMoreCell(cells: seq<string>, cell: string)
    ensures OneColumn(cells + [cell]) == OneColumn(cells) + [[cell]]
  {
  }

  lemma OneMoreOfType(c: CLib, name: string, t: DataType, lines: seq<string>, rows: seq<Row>, cell: string)
    requires cell != "" && '\t' !in cell && ParseColumnDataType(c, cell) == t
    requires ReadSoFar(c, lines) == if rows == [] then NoTypes([name]) else Rows(Table([name], [t], rows))
    ensures ReadSoFar(c, lines + [cell]) == Rows(Table([name], [t], rows + [[cell]]))
  {
    LineOfOneCell(cell);
    ReadOneMore(c, lines, cell);
    ReadOneCell(c, name, t, ReadSoFar(c, lines), rows, cell);
  }

  lemma ReadOneCell(c: CLib, name: string, t: DataType, r: Reading, rows: seq<Row>, cell: string)
    requires ParseColumnDataType(c, cell) == t
    requires r == if rows == [] then NoTypes([name]) else Rows(Table([name], [t], rows))
    ensures ReadCells(c, r, [cell]) == Rows(Table([name], [t], rows + [[cell]]))
  {
    assert RowTypes(c, [cell]) == [t];
    if rows == [] { assert [] + [[cell]] == [[cell]]; }
  }

  /** Invalid float cells survive the inference of types: this file's only column is of floats
      and keeps all its rows, and the comparator may not be given to std::sort. */
  lemma FloatColumnMayNotSort(c: CLib)
    requires ReadsLikeC(c)
    ensures var cells := ["1e5", "1.5", "2.5"];
      && FileTable(c, ["x"] + cells) == Some(Table(["x"], [Float], OneColumn(cells)))
      && !Sortable(c, Float, ColumnCells(OneColumn(cells), 0))
  {
    var cells := ["1e5", "1.5", "2.5"];
    ExponentsAreNotSortable(c);
    FileOfOneColumn(c, "x", Float, cells);
    ReadingEndsWithTable(c, ["x"] + cells);
    CellsOfOneColumn(cells);
    SetOfThree("1e5", "1.5", "2.5");
  }

  lemma SetOfThree<T>(a: T, b: T, d: T)
    ensures (set x | x in [a, b, d]) == {a, b, d}
  {
  }

  /** Two integers of ten digits, such as "1500000000": a file of them is one integer column, no
      addition overflows 64 bits, and the sum that is stored is negative. */
  lemma SumMayWrap(c: CLib, cell: string)
    requires |cell| == 10 && '\t' !in cell && c.strtol(cell) == (1_500_000_000, true)
    ensures var cells := [cell, cell];
      var sums := IntColumn(c, OneColumn(cells), 0);
      && FileTable(c, ["x"] + cells) == Some(Table(["x"], [Int], OneColumn(cells)))
      && AddsIn64(sums) && Total(sums) == 3_000_000_000 && Wrap32(Total(sums)) == -1_294_967_296
  {
    TwoIntegers(c, cell, 1_500_000_000);
    TotalOfTwo(1_500_000_000, 1_500_000_000);
  }

  lemma TwoIntegers(c: CLib, cell: string, v: int)
    requires cell != "" && '\t' !in cell && ParseColumnDataType(c, cell) == Int && c.strtol(cell).0 == v
    ensures FileTable(c, ["x"] + [cell, cell]) == Some(Table(["x"], [Int], OneColumn([cell, cell])))
    ensures IntColumn(c, OneColumn([cell, cell]), 0) == [v, v]
  {
    var cells := [cell, cell];
    FileOfOneColumn(c, "x", Int, cells);
    ReadingEndsWithTable(c, ["x"] + cells);
    assert forall i :: 0 <= i < 2 ==> CellAt(OneColumn(cells), i, 0) == cell;
  }

  /** A table in memory with a row, none of which fits. */
  lemma NoRowMayConform(c: CLib)
    requires !c.strtol("a").1
    ensures Conforming(c, [Int], [["a"]]) == []
  {
    assert [["a"]][..0] == [] && ParseColumnDataType(c, ["a"][0]) != Int;
    assert !Conforms(c, [Int], ["a"]);
  }

  lemma TotalOfTwo(x: int, y: int)
    requires -TWO_31 <= x < TWO_31 && -TWO_31 <= y < TWO_31
    ensures Total([x, y]) == x + y && AddsIn64([x, y])
  {
    assert [x, y][..1] == [x] && [x, y][..0] == [] && [x][..0] == [];
    assert Total([x]) == x;
  }

  lemma CellsOfOneColumn(cells: seq<string>)
    ensures ColumnCells(OneColumn(cells), 0) == set cell | cell in cells
  {
    forall i | 0 <= i < |cells| ensures CellAt(OneColumn(cells), i, 0) == cells[i] {}
    forall cell | cell in cells ensures cell in ColumnCells(OneColumn(cells), 0) {
      var i :| 0 <= i < |cells| && cells[i] == cell;
      assert CellAt(OneColumn(cells), i, 0) == cell;
    }
  }

  // ---------------------------------------------------------------- the parser

  class LogParser {
    const c: CLib
    const isFromFile: bool
    /** The lines of the file; None if it cannot be opened. */
    const file: Option<seq<string>>
    var rawContent: seq<Row>
    var colCnt: nat
    var rowCnt: nat
    var colNames: Row
    var colIndex: map<string, nat>
    var colTypes: seq<DataType>
    var sortedContentByCol: seq<seq<nat>>
    var metricsByCol: seq<map<Metric, MetricValue>>

    constructor FromFile(c: CLib, file: Option<seq<string>>)
      ensures this.c == c && isFromFile && this.file == file && Fresh()
    {
      this.c, isFromFile, this.file := c, true, file;
      rawContent, colCnt, rowCnt, colNames, colIndex, colTypes := [], 0, 0, [], map[], [];
      sortedContentByCol, metricsByCol := [], [];
    }

    /** A table given in memory; it is emptied when the column data do not fit together. */
    constructor FromRows(c: CLib, rows: seq<Row>, colIndex: map<string, nat>, colTypes: seq<DataType>, colNames: Row)
      ensures this.c == c && !isFromFile
      ensures this.colIndex == colIndex && this.colTypes == colTypes
      ensures this.colNames == colNames && colCnt == |colNames|
      ensures rawContent == if |colNames| == |colIndex| == |colTypes| then rows else []
      ensures sortedContentByCol == [] && metricsByCol == [] && rowCnt == 0
    {
      this.c, isFromFile, file := c, false, None;
      this.colIndex, this.colTypes, this.colNames, colCnt := colIndex, colTypes, colNames, |colNames|;
      rawContent := if |colNames| != |colIndex| || |colNames| != |colTypes| then [] else rows;
      sortedContentByCol, metricsByCol, rowCnt := [], [], 0;
    }

    ghost predicate Fresh()
      reads this
    {
      && rawContent == [] && colNames == [] && colTypes == [] && colIndex == map[] && colCnt == rowCnt == 0
      && sortedContentByCol == [] && metricsByCol == []
    }

    /** What has been read so far, as the fields show it. */
    ghost function Now(headerSeen: bool): Reading
      reads this
    {
      if !headerSeen then NoHeader
      else if rawContent == [] then NoTypes(colNames)
      else Rows(Table(colNames, colTypes, rawContent))
    }

    /** The fields agree on how far reading has come. */
    ghost predicate ReadingWell(validLines: nat)
      reads this
    {
      && validLines == (if validLines == 0 then 0 else 1 + |rawContent|)
      && (if validLines == 0 then rawContent == [] && colNames == [] else colNames != [])
      && colCnt == |colNames| && (rawContent != [] ==> |colTypes| == colCnt && colIndex == IndexOf(colNames))
      && rowCnt == 0 && sortedContentByCol == [] && metricsByCol == []
    }

    /** One line of the file, after validLines lines that counted. */
    method TakeLine(line: string, validLines: nat) returns (next: nat)
      requires ReadingWell(validLines)
      modifies this
      ensures ReadingWell(next) && Now(next > 0) == ReadLine(c, old(Now(validLines > 0)), line)
    {
      next := validLines;
      if line == "" {
        return;
      }
      var cells := Cells(line);
      if validLines == 0 {
        colNames, colCnt := cells, |cells|;
        TextHasCells(line);
        next := 1;
        return;
      }
      next := TakeRow(cells, validLines);
    }

    /** The cells of a line after the header. */
    method TakeRow(cells: Row, validLines: nat) returns (next: nat)
      requires ReadingWell(validLines) && validLines > 0
      modifies this
      ensures next > 0 && ReadingWell(next) && Now(true) == ReadCells(c, old(Now(true)), cells)
    {
      next := validLines;
      if |cells| != colCnt {
        return;
      }
      if validLines == 1 {
        colIndex, colTypes := IndexOf(colNames), RowTypes(c, cells);
      }
      if !Conforms(c, colTypes, cells) {
        return;
      }
      next := validLines + 1;
      rawContent := rawContent + [cells];
    }

    method ParseRawContentFromFile() returns (ok: bool)
      requires Fresh()
      modifies this
      ensures ok <==> file.Some? && FileTable(c, file.value).Some?
      ensures ok ==> Table(colNames, colTypes, rawContent) == FileTable(c, file.value).value
      ensures ok ==> 0 < colCnt == |colNames| && rowCnt == |rawContent| && colIndex == IndexOf(colNames)
      ensures sortedContentByCol == [] && metricsByCol == []
    {
      if file.None? {
        return false;
      }
      var lines := file.value;
      var validLines := 0;
      for i := 0 to |lines|
        invariant ReadingWell(validLines) && Now(validLines > 0) == ReadSoFar(c, lines[..i])
      {
        assert lines[..i + 1] == lines[..i] + [lines[i]];
        ReadOneMore(c, lines[..i], lines[i]);
        validLines := TakeLine(lines[i], validLines);
      }
      assert lines[..|lines|] == lines;
      ReadingEnds(validLines);
      ok := rawContent != [];
      rowCnt := |rawContent|;
    }

    /** The fields at the end of a file hold its table, if it has one. */
    lemma ReadingEnds(validLines: nat)
      requires file.Some? && ReadingWell(validLines) && Now(validLines > 0) == ReadSoFar(c, file.value)
      ensures FileTable(c, file.value).Some? <==> rawContent != []
      ensures rawContent != [] ==> Table(colNames, colTypes, rawContent) == FileTable(c, file.value).value
    {
      ReadingEndsWithTable(c, file.value);
    }

    /** Keeps the rows of a table given in memory that have the column types. */
    method ParseRawContent() returns (ok: bool)
      requires colCnt == |colTypes| || rawContent == []
      requires forall row :: row in rawContent ==> colCnt <= |row|
      modifies this`rawContent, this`rowCnt
      ensures ok <==> old(rawContent) != []
      ensures ok ==> rawContent == Conforming(c, colTypes, old(rawContent)) && rowCnt == |rawContent|
    {
      if rawContent == [] {
        return false;
      }
      var parsed: seq<Row> := [];
      for row := 0 to |rawContent|
        invariant parsed == Conforming(c, colTypes, rawContent[..row])
      {
        assert rawContent[..row + 1][..row] == rawContent[..row];
        assert rawContent[row] in rawContent;
        var mismatch := false;
        var col := 0;
        while col < colCnt && !mismatch
          invariant col <= colCnt && (mismatch ==> !Conforms(c, colTypes, rawContent[row]))
          invariant !mismatch ==> forall i :: 0 <= i < col ==> ParseColumnDataType(c, rawContent[row][i]) == colTypes[i]
        {
          if ParseColumnDataType(c, rawContent[row][col]) != colTypes[col] {
            mismatch := true;
          }
          col := col + 1;
        }
        if !mismatch {
          parsed := parsed + [rawContent[row]];
        }
      }
      assert rawContent[..|rawContent|] == rawContent;
      rawContent := parsed;
      rowCnt := |rawContent|;
      ok := true;
    }

    /** An index vector for every column. */
    method SortContent()
      requires colCnt == |colTypes| && rowCnt == |rawContent|
      modifies this`sortedContentByCol
      ensures |sortedContentByCol| == colCnt
      ensures forall col :: 0 <= col < colCnt ==> Indexes(c, colTypes[col], rawContent, col, sortedContentByCol[col])
    {
      sortedContentByCol := [];
      for col := 0 to colCnt
        invariant |sortedContentByCol| == col
        invariant forall k :: 0 <= k < col ==> Indexes(c, colTypes[k], rawContent, k, sortedContentByCol[k])
      {
        var idx := SortColumn(col);
        sortedContentByCol := sortedContentByCol + [idx];
      }
    }

    method SortColumn(col: nat) returns (sorted: seq<nat>)
      requires col < |colTypes| && rowCnt == |rawContent|
      ensures Indexes(c, colTypes[col], rawContent, col, sorted)
    {
      var idx := new nat[rowCnt](i => i);
      if Sortable(c, colTypes[col], ColumnCells(rawContent, col)) {
        ColLessRanks(c, colTypes[col], rawContent, col);
      }
      SortIndexes(ColLess(c, colTypes[col], rawContent, col), idx);
      sorted := idx[..];
    }

    method ColumnMetrics(col: nat) returns (m: map<Metric, MetricValue>)
      requires col < |colTypes| && col < |sortedContentByCol| && rowCnt == |rawContent| > 0
      requires Permutation(sortedContentByCol[col], rowCnt)
      requires colTypes[col].Int? ==> AddsIn64(IntColumn(c, rawContent, col))
      ensures MetricsOf(c, colTypes[col], rawContent, col, sortedContentByCol[col], m)
    {
      var idx := sortedContentByCol[col];
      m := map[Min := Cell(CellAt(rawContent, idx[0], col)),
               Max := Cell(CellAt(rawContent, idx[rowCnt - 1], col)),
               Median := Cell(CellAt(rawContent, idx[rowCnt / 2], col))];
      if colTypes[col].Int? {
        var sum := Accumulate(IntColumn(c, rawContent, col));
        m := m[Sum := IntSum(sum)][Mean := Real(sum as real / rowCnt as real)];
      } else if colTypes[col].Float? {
        var sum := AccumulateReals(FloatColumn(c, rawContent, col));
        m := m[Sum := Real(sum)][Mean := Real(sum / rowCnt as real)];
      }
    }

    method StoreMetrics()
      requires colCnt == |colTypes| == |sortedContentByCol| && rowCnt == |rawContent| > 0
      requires forall col :: 0 <= col < colCnt ==> Permutation(sortedContentByCol[col], rowCnt)
      requires forall col :: 0 <= col < colCnt && colTypes[col].Int? ==> AddsIn64(IntColumn(c, rawContent, col))
      modifies this`metricsByCol
      ensures |metricsByCol| == colCnt
      ensures forall col :: 0 <= col < colCnt ==>
        MetricsOf(c, colTypes[col], rawContent, col, sortedContentByCol[col], metricsByCol[col])
    {
      metricsByCol := [];
      for col := 0 to colCnt
        invariant |metricsByCol| == col
        invariant forall k :: 0 <= k < col ==>
          MetricsOf(c, colTypes[k], rawContent, k, sortedContentByCol[k], metricsByCol[k])
      {
        var m := ColumnMetrics(col);
        metricsByCol := metricsByCol + [m];
      }
    }

    /** The table is indexed, column by column, and its metrics are stored. */
    ghost predicate Indexed()
      reads this
    {
      && colCnt == |colTypes| == |sortedContentByCol| == |metricsByCol| && rowCnt == |rawContent| > 0
      && (forall col :: 0 <= col < colCnt ==> Indexes(c, colTypes[col], rawContent, col, sortedContentByCol[col]))
      && (forall col :: 0 <= col < colCnt ==>
            MetricsOf(c, colTypes[col], rawContent, col, sortedContentByCol[col], metricsByCol[col]))
    }

    ghost function Content(): Table
      reads this
    {
      Table(colNames, colTypes, rawContent)
    }

    method IndexContent()
      requires colCnt == |colTypes| && rowCnt == |rawContent| > 0 && SumsFit(c, Content())
      modifies this`sortedContentByCol, this`metricsByCol
      ensures Indexed()
    {
      SortContent();
      StoreMetrics();
    }

    method ParseFile() returns (ok: bool)
      requires isFromFile && Fresh()
      requires file.Some? && FileTable(c, file.value).Some? ==> SumsFit(c, FileTable(c, file.value).value)
      modifies this
      ensures ok <==> file.Some? && FileTable(c, file.value).Some?
      ensures ok ==> Indexed() && Content() == FileTable(c, file.value).value && colIndex == IndexOf(colNames)
    {
      ok := ParseRawContentFromFile();
      if ok {
        FileTableIsUniform(c, file.value);
        IndexContent();
      }
    }

    /** A table in memory. None of its rows may fit the column types; then there is no row to
        index, and the source reads the first entry of an empty index: the result is None. */
    method ParseRows() returns (ok: Option<bool>)
      requires !isFromFile && (colCnt == |colTypes| || rawContent == [])
      requires forall row :: row in rawContent ==> colCnt <= |row|
      requires SumsFit(c, Table(colNames, colTypes, Conforming(c, colTypes, rawContent)))
      modifies this
      ensures ok == Some(false) <==> old(rawContent) == []
      ensures ok == None <==> old(rawContent) != [] && Conforming(c, colTypes, old(rawContent)) == []
      ensures ok == Some(true) ==> Indexed() && rawContent == Conforming(c, colTypes, old(rawContent))
      ensures colNames == old(colNames) && colTypes == old(colTypes) && colIndex == old(colIndex)
    {
      var any := ParseRawContent();
      if !any {
        return Some(false);
      }
      if rowCnt == 0 {
        return None;
      }
      assert Content() == Table(old(colNames), old(colTypes), Conforming(c, old(colTypes), old(rawContent)));
      IndexContent();
      ok := Some(true);
    }

    /** The first rows of a column's order or of its reverse; None for an unknown column. A
        negative limit is converted to a huge unsigned one. */
    method Sort(colName: string, limit: int, isAsc: bool, isShowHeader: bool) returns (r: Option<seq<Row>>)
      requires Indexed() && forall name :: name in colIndex ==> colIndex[name] < colCnt
      ensures r.Some? <==> colName in colIndex
      ensures r.Some? ==>
        var n := if 0 <= limit < rowCnt then limit else rowCnt;
        r.value == (if isShowHeader then [colNames] else []) +
          FirstRows(rawContent, sortedContentByCol[colIndex[colName]], n, isAsc)
    {
      if colName !in colIndex {
        return None;
      }
      var idx := sortedContentByCol[colIndex[colName]];
      var actualLimit := if limit < 0 || limit >= rowCnt then rowCnt else limit;
      var rows := CollectRows(rawContent, idx, actualLimit, isAsc);
      r := Some((if isShowHeader then [colNames] else []) + rows);
    }

    static method CollectRows(rawContent: seq<Row>, idx: seq<nat>, limit: nat, isAsc: bool) returns (rows: seq<Row>)
      requires limit <= |idx| && forall i :: 0 <= i < |idx| ==> idx[i] < |rawContent|
      ensures rows == FirstRows(rawContent, idx, limit, isAsc)
    {
      rows := [];
      for i := 0 to limit
        invariant rows == FirstRows(rawContent, idx, i, isAsc)
      {
        if isAsc {
          rows := rows + [rawContent[idx[i]]];
        } else {
          rows := rows + [rawContent[idx[|idx| - 1 - i]]];
        }
      }
    }

    method Calculate(colName: string, metricName: string) returns (r: Option<MetricValue>)
      requires Indexed() && forall name :: name in colIndex ==> colIndex[name] < colCnt
      ensures r.Some? <==>
        colName in colIndex && MetricOf(metricName).Some? &&
          HasMetric(colTypes[colIndex[colName]], MetricOf(metricName).value)
      ensures r.Some? ==> r.value == metricsByCol[colIndex[colName]][MetricOf(metricName).value]
    {
      if colName !in colIndex {
        return None;
      }
      var metric := MetricOf(metricName);
      if metric.None? || metric.value !in metricsByCol[colIndex[colName]] {
        return None;
      }
      r := Some(metricsByCol[colIndex[colName]][metric.value]);
    }
  }

  /** Sums and means are for numbers only. */
  predicate HasMetric(t: DataType, m: Metric) {
    m in {Min, Max, Median} || t.Int? || t.Float?
  }

  function MetricOf(name: string): Option<Metric> {
    if name == "sum" then Some(Sum)
    else if name == "max" then Some(Max)
    else if name == "min" then Some(Min)
    else if name == "mean" then Some(Mean)
    else if name == "median" then Some(Median)
    else None
  }

  /** No addition of 64-bit numbers overflows while the integer columns are summed up. */
  predicate SumsFit(c: CLib, t: Table) {
    forall col: nat :: col < |t.types| && t.types[col].Int? ==> AddsIn64(IntColumn(c, t.rows, col))
  }

  /** The row at position i of an index read forwards or backwards. */
  function RowAt(idx: seq<nat>, i: nat, isAsc: bool): nat
    requires i < |idx|
  {
    if isAsc then idx[i] else idx[|idx| - 1 - i]
  }

  function FirstRows(rows: seq<Row>, idx: seq<nat>, n: nat, isAsc: bool): seq<Row>
    requires n <= |idx| && forall i :: 0 <= i < |idx| ==> idx[i] < |rows|
  {
    seq(n, i requires 0 <= i < n => rows[RowAt(idx, i, isAsc)])
  }

  /** Row a belongs before row b, in the column's order or in its reverse. */
  predicate Before(c: CLib, t: DataType, rows: seq<Row>, col: nat, isAsc: bool, a: nat, b: nat) {
    var x, y := CellAt(rows, a, col), CellAt(rows, b, col);
    if isAsc then Less(c, t, x, y) else Less(c, t, y, x)
  }

  /** What `Sort` shows is in order, each row once, and no row it leaves out belongs before one
      that it shows. */
  lemma FirstRowsComeFirst(c: CLib, t: DataType, rows: seq<Row>, col: nat, idx: seq<nat>, n: nat, isAsc: bool)
    requires Indexes(c, t, rows, col, idx) && Sortable(c, t, ColumnCells(rows, col)) && n <= |rows|
    ensures forall i, j :: 0 <= i < j < n ==> RowAt(idx, i, isAsc) != RowAt(idx, j, isAsc)
    ensures forall i, j :: 0 <= i < j < n ==>
      !Before(c, t, rows, col, isAsc, RowAt(idx, j, isAsc), RowAt(idx, i, isAsc))
    ensures forall row: nat, i ::
      row < |rows| && 0 <= i < n && (forall j :: 0 <= j < n ==> RowAt(idx, j, isAsc) != row) ==>
      !Before(c, t, rows, col, isAsc, row, RowAt(idx, i, isAsc))
  {
    var less := ColLess(c, t, rows, col);
    forall row: nat, i | row < |rows| && 0 <= i < n && (forall j :: 0 <= j < n ==> RowAt(idx, j, isAsc) != row)
      ensures !Before(c, t, rows, col, isAsc, row, RowAt(idx, i, isAsc))
    {
      var at := PositionOf(idx, |rows|, row);
      var place := if isAsc then at else |rows| - 1 - at;
      assert RowAt(idx, place, isAsc) == row;
      assert if isAsc then !less(idx[at], idx[i]) else !less(idx[|rows| - 1 - i], idx[at]);
    }
    forall i, j | 0 <= i < j < n
      ensures !Before(c, t, rows, col, isAsc, RowAt(idx, j, isAsc), RowAt(idx, i, isAsc))
    {
      assert if isAsc then !less(idx[j], idx[i]) else !less(idx[|rows| - 1 - i], idx[|rows| - 1 - j]);
    }
  }

  /** Column names with their positions; of equal names the last one counts. */
  function IndexOf(names: Row): map<string, nat> {
    if names == [] then map[] else IndexOf(names[..|names| - 1])[names[|names| - 1] := |names| - 1]
  }
}
