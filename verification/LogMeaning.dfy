/** What the log table shows and stores, told by the values of the cells. */
module LogMeaning {
  import opened Prelude
  import opened LogOrder
  import opened LogParsers
  import Strings

  /** Every row has a cell in the column. */
  predicate Wide(rows: seq<Row>, col: nat) {
    forall i :: 0 <= i < |rows| ==> col < |rows[i]|
  }

  // ---------------------------------------------------------------- the order of an index

  /** An index of an integer column goes by the numbers. */
  lemma IndexGoesByIntegers(c: CLib, rows: seq<Row>, col: nat, idx: seq<nat>)
    requires Indexes(c, Int, rows, col, idx) && Wide(rows, col)
    ensures |idx| == |rows| && forall i :: 0 <= i < |idx| ==> idx[i] < |rows|
    ensures forall i, j :: 0 <= i < j < |idx| ==> c.strtol(rows[idx[i]][col]).0 <= c.strtol(rows[idx[j]][col]).0
  {
    SortableIff(c, Int, ColumnCells(rows, col));
    forall i, j | 0 <= i < j < |idx| ensures c.strtol(rows[idx[i]][col]).0 <= c.strtol(rows[idx[j]][col]).0 {
      assert !ColLess(c, Int, rows, col)(idx[j], idx[i]);
    }
  }

  /** An index of a float column whose cells are all valid goes by the numbers. */
  lemma IndexGoesByFloats(c: CLib, rows: seq<Row>, col: nat, idx: seq<nat>)
    requires Indexes(c, Float, rows, col, idx) && Wide(rows, col)
    requires forall i :: 0 <= i < |rows| ==> ValidFloatStr(c, rows[i][col])
    ensures |idx| == |rows| && forall i :: 0 <= i < |idx| ==> idx[i] < |rows|
    ensures forall i, j :: 0 <= i < j < |idx| ==> c.strtof(rows[idx[i]][col]).0 <= c.strtof(rows[idx[j]][col]).0
  {
    SortableIff(c, Float, ColumnCells(rows, col));
    forall i, j | 0 <= i < j < |idx| ensures c.strtof(rows[idx[i]][col]).0 <= c.strtof(rows[idx[j]][col]).0 {
      assert !ColLess(c, Float, rows, col)(idx[j], idx[i]);
    }
  }

  /** An index of any other column goes by the text: a cell is equal to the later one, a proper
      prefix of it, or has the smaller character where they first differ. */
  lemma IndexGoesByText(c: CLib, t: DataType, rows: seq<Row>, col: nat, idx: seq<nat>, i: nat, j: nat)
    requires t != Int && t != Float && Indexes(c, t, rows, col, idx) && Wide(rows, col) && i < j < |rows|
    ensures |idx| == |rows| && idx[i] < |rows| && idx[j] < |rows|
    ensures var a, b := rows[idx[i]][col], rows[idx[j]][col];
      a == b || exists k :: Strings.SmallerAt(a, b, k)
  {
    SortableIff(c, t, ColumnCells(rows, col));
    assert !ColLess(c, t, rows, col)(idx[j], idx[i]);
    var a, b := rows[idx[i]][col], rows[idx[j]][col];
    Strings.LexLessIsTotal(a, b);
    Strings.LexLessMeans(a, b);
  }

  // ---------------------------------------------------------------- what is shown

  /** Row i that is shown is the one at place i of the index, counted from its end if descending. */
  lemma ShownRowIs(rows: seq<Row>, idx: seq<nat>, n: nat, isAsc: bool, i: nat)
    requires i < n <= |idx| && forall k :: 0 <= k < |idx| ==> idx[k] < |rows|
    ensures |FirstRows(rows, idx, n, isAsc)| == n
    ensures FirstRows(rows, idx, n, isAsc)[i] == if isAsc then rows[idx[i]] else rows[idx[|idx| - 1 - i]]
  {
  }

  /** The rows shown for an integer column ascend or descend by its numbers, and no row that is
      left out has a number that belongs before theirs. */
  lemma ShownByIntegers(c: CLib, rows: seq<Row>, col: nat, idx: seq<nat>, n: nat, isAsc: bool)
    requires Indexes(c, Int, rows, col, idx) && Wide(rows, col) && n <= |rows|
    ensures var shown := FirstRows(rows, idx, n, isAsc);
      && (forall i :: 0 <= i < n ==> shown[i] in rows)
      && (forall i, j :: 0 <= i < j < n ==>
            if isAsc then c.strtol(shown[i][col]).0 <= c.strtol(shown[j][col]).0
            else c.strtol(shown[i][col]).0 >= c.strtol(shown[j][col]).0)
      && (forall i, j :: 0 <= i < n <= j < |rows| ==>
            var left := rows[if isAsc then idx[j] else idx[|rows| - 1 - j]];
            if isAsc then c.strtol(shown[i][col]).0 <= c.strtol(left[col]).0
            else c.strtol(shown[i][col]).0 >= c.strtol(left[col]).0)
  {
    IndexGoesByIntegers(c, rows, col, idx);
    forall i | 0 <= i < n ensures FirstRows(rows, idx, n, isAsc)[i] in rows { ShownRowIs(rows, idx, n, isAsc, i); }
  }

  /** The same for a float column of valid cells. */
  lemma ShownByFloats(c: CLib, rows: seq<Row>, col: nat, idx: seq<nat>, n: nat, isAsc: bool)
    requires Indexes(c, Float, rows, col, idx) && Wide(rows, col) && n <= |rows|
    requires forall i :: 0 <= i < |rows| ==> ValidFloatStr(c, rows[i][col])
    ensures var shown := FirstRows(rows, idx, n, isAsc);
      && (forall i :: 0 <= i < n ==> shown[i] in rows)
      && (forall i, j :: 0 <= i < j < n ==>
            if isAsc then c.strtof(shown[i][col]).0 <= c.strtof(shown[j][col]).0
            else c.strtof(shown[i][col]).0 >= c.strtof(shown[j][col]).0)
      && (forall i, j :: 0 <= i < n <= j < |rows| ==>
            var left := rows[if isAsc then idx[j] else idx[|rows| - 1 - j]];
            if isAsc then c.strtof(shown[i][col]).0 <= c.strtof(left[col]).0
            else c.strtof(shown[i][col]).0 >= c.strtof(left[col]).0)
  {
    IndexGoesByFloats(c, rows, col, idx);
    forall i | 0 <= i < n ensures FirstRows(rows, idx, n, isAsc)[i] in rows { ShownRowIs(rows, idx, n, isAsc, i); }
  }

  // ---------------------------------------------------------------- what is stored

  /** Under the names by which they are asked for: the stored minimum and maximum of an integer
      column are its least and greatest number, at most half of the rows are below or above the
      median, the sum is the total narrowed to 32 bits, and the mean is the sum divided by the
      number of rows. */
  lemma IntegersByName(c: CLib, rows: seq<Row>, col: nat, idx: seq<nat>, m: map<Metric, MetricValue>)
    requires Indexes(c, Int, rows, col, idx) && MetricsOf(c, Int, rows, col, idx, m) && Wide(rows, col) && rows != []
    ensures NamedMetric(m, "min").Cell? && forall i :: 0 <= i < |rows| ==>
      c.strtol(NamedMetric(m, "min").s).0 <= c.strtol(rows[i][col]).0
    ensures NamedMetric(m, "max").Cell? && forall i :: 0 <= i < |rows| ==>
      c.strtol(rows[i][col]).0 <= c.strtol(NamedMetric(m, "max").s).0
    ensures forall name :: name in ["min", "max", "median"] ==>
      NamedMetric(m, name).Cell? && exists i :: 0 <= i < |rows| && rows[i][col] == NamedMetric(m, name).s
    ensures var median := c.strtol(NamedMetric(m, "median").s).0;
      && |set i | 0 <= i < |rows| && c.strtol(rows[i][col]).0 < median| <= |rows| / 2
      && |set i | 0 <= i < |rows| && c.strtol(rows[i][col]).0 > median| <= |rows| - 1 - |rows| / 2
    ensures NamedMetric(m, "sum").IntSum? && NarrowedTo32(Total(IntColumn(c, rows, col)), NamedMetric(m, "sum").n)
    ensures NamedMetric(m, "mean") == Real(NamedMetric(m, "sum").n as real / |rows| as real)
  {
    IndexGoesByIntegers(c, rows, col, idx);
    EndsAreExtreme(rows, idx, (row: Row) => if col < |row| then c.strtol(row[col]).0 as real else 0.0);
    MiddleIsMedian(rows, idx, |rows| / 2, (row: Row) => if col < |row| then c.strtol(row[col]).0 as real else 0.0);
    NamesOfCells(c, Int, rows, col, idx, m);
    SameSets(c, rows, col, c.strtol(rows[idx[|rows| / 2]][col]).0);
    WrapNarrows(Total(IntColumn(c, rows, col)));
  }

  /** The same for a float column of valid cells, over the reals. */
  lemma FloatsByName(c: CLib, rows: seq<Row>, col: nat, idx: seq<nat>, m: map<Metric, MetricValue>)
    requires Indexes(c, Float, rows, col, idx) && MetricsOf(c, Float, rows, col, idx, m)
    requires Wide(rows, col) && rows != []
    requires forall i :: 0 <= i < |rows| ==> ValidFloatStr(c, rows[i][col])
    ensures NamedMetric(m, "min").Cell? && forall i :: 0 <= i < |rows| ==>
      c.strtof(NamedMetric(m, "min").s).0 <= c.strtof(rows[i][col]).0
    ensures NamedMetric(m, "max").Cell? && forall i :: 0 <= i < |rows| ==>
      c.strtof(rows[i][col]).0 <= c.strtof(NamedMetric(m, "max").s).0
    ensures forall name :: name in ["min", "max", "median"] ==>
      NamedMetric(m, name).Cell? && exists i :: 0 <= i < |rows| && rows[i][col] == NamedMetric(m, name).s
    ensures NamedMetric(m, "sum") == Real(RealTotal(FloatColumn(c, rows, col)))
    ensures NamedMetric(m, "mean") == Real(RealTotal(FloatColumn(c, rows, col)) / |rows| as real)
  {
    IndexGoesByFloats(c, rows, col, idx);
    NamesOfCells(c, Float, rows, col, idx, m);
    FloatEnds(c, rows, col, idx);
  }

  lemma FloatEnds(c: CLib, rows: seq<Row>, col: nat, idx: seq<nat>)
    requires rows != [] && Permutation(idx, |rows|) && Wide(rows, col)
    requires forall i, j :: 0 <= i < j < |idx| ==> c.strtof(rows[idx[i]][col]).0 <= c.strtof(rows[idx[j]][col]).0
    ensures forall i :: 0 <= i < |rows| ==>
      c.strtof(rows[idx[0]][col]).0 <= c.strtof(rows[i][col]).0 <= c.strtof(rows[idx[|rows| - 1]][col]).0
  {
    forall i | 0 <= i < |rows|
      ensures c.strtof(rows[idx[0]][col]).0 <= c.strtof(rows[i][col]).0 <= c.strtof(rows[idx[|rows| - 1]][col]).0
    {
      var p := PositionOf(idx, |rows|, i);
    }
  }

  /** The cells behind the three names of order statistics. */
  lemma NamesOfCells(c: CLib, t: DataType, rows: seq<Row>, col: nat, idx: seq<nat>, m: map<Metric, MetricValue>)
    requires MetricsOf(c, t, rows, col, idx, m) && Wide(rows, col) && Permutation(idx, |rows|) && rows != []
    ensures NamedMetric(m, "min") == Cell(rows[idx[0]][col])
    ensures NamedMetric(m, "max") == Cell(rows[idx[|rows| - 1]][col])
    ensures NamedMetric(m, "median") == Cell(rows[idx[|rows| / 2]][col])
    ensures forall name :: name in ["min", "max", "median"] ==>
      NamedMetric(m, name).Cell? && exists i :: 0 <= i < |rows| && rows[i][col] == NamedMetric(m, name).s
  {
  }

  /** A metric is asked for by one of five names, in small letters. */
  lemma OtherNamesAreUnknown(name: string)
    ensures MetricOf(name).Some? <==> name in ["sum", "max", "min", "mean", "median"]
  {
  }

  /** The columns whose sums and totals are meant: cell by cell, and added up. */
  lemma ColumnsAndTotals(c: CLib, rows: seq<Row>, col: nat, i: nat, vals: seq<int>, more: seq<int>, x: int)
    requires Wide(rows, col) && i < |rows|
    ensures |IntColumn(c, rows, col)| == |FloatColumn(c, rows, col)| == |rows|
    ensures IntColumn(c, rows, col)[i] == c.strtol(rows[i][col]).0
    ensures FloatColumn(c, rows, col)[i] == c.strtof(rows[i][col]).0
    ensures Total([]) == 0 && Total([x]) == x && Total(vals + more) == Total(vals) + Total(more)
  {
    assert [x][..0] == [] && CellAt(rows, i, col) == rows[i][col];
    TotalOfConcat(vals, more);
  }

  lemma {:induction false} TotalOfConcat(vals: seq<int>, more: seq<int>)
    ensures Total(vals + more) == Total(vals) + Total(more)
    decreases |more|
  {
    if more == [] {
      assert vals + more == vals;
    } else {
      assert (vals + more)[..|vals| + |more| - 1] == vals + more[..|more| - 1];
      TotalOfConcat(vals, more[..|more| - 1]);
    }
  }

  lemma {:induction false} RealTotalOfConcat(vals: seq<real>, more: seq<real>, x: real)
    ensures RealTotal([]) == 0.0 && RealTotal([x]) == x
    ensures RealTotal(vals + more) == RealTotal(vals) + RealTotal(more)
    decreases |more|
  {
    assert [x][..0] == [];
    if more == [] {
      assert vals + more == vals;
    } else {
      assert (vals + more)[..|vals| + |more| - 1] == vals + more[..|more| - 1];
      RealTotalOfConcat(vals, more[..|more| - 1], x);
    }
  }

  /** The metric stored under a name. */
  function NamedMetric(m: map<Metric, MetricValue>, name: string): MetricValue {
    match MetricOf(name)
    case None => Real(0.0)
    case Some(metric) => if metric in m then m[metric] else Real(0.0)
  }

  /** y is x in 32 bits of two's complement. */
  predicate NarrowedTo32(x: int, y: int) {
    -0x8000_0000 <= y < 0x8000_0000 && (x - y) % 0x1_0000_0000 == 0
  }

  lemma WrapNarrows(x: int)
    ensures NarrowedTo32(x, Wrap32(x))
  {
    var q := (x + TWO_31) / TWO_32;
    assert x - Wrap32(x) == q * TWO_32;
  }

  ghost predicate OrderedBy(rows: seq<Row>, idx: seq<nat>, key: Row -> real) {
    && Permutation(idx, |rows|)
    && forall i, j :: 0 <= i < j < |idx| ==> key(rows[idx[i]]) <= key(rows[idx[j]])
  }

  lemma EndsAreExtreme(rows: seq<Row>, idx: seq<nat>, key: Row -> real)
    requires rows != [] && OrderedBy(rows, idx, key)
    ensures forall i :: 0 <= i < |rows| ==> key(rows[idx[0]]) <= key(rows[i]) <= key(rows[idx[|rows| - 1]])
  {
    forall i | 0 <= i < |rows| ensures key(rows[idx[0]]) <= key(rows[i]) <= key(rows[idx[|rows| - 1]]) {
      var p := PositionOf(idx, |rows|, i);
    }
  }

  lemma MiddleIsMedian(rows: seq<Row>, idx: seq<nat>, k: nat, key: Row -> real)
    requires k < |rows| && OrderedBy(rows, idx, key)
    ensures |set i | 0 <= i < |rows| && key(rows[i]) < key(rows[idx[k]])| <= k
    ensures |set i | 0 <= i < |rows| && key(rows[i]) > key(rows[idx[k]])| <= |rows| - 1 - k
  {
    var below := set i | 0 <= i < |rows| && key(rows[i]) < key(rows[idx[k]]);
    var above := set i | 0 <= i < |rows| && key(rows[i]) > key(rows[idx[k]]);
    forall i | i in below ensures i in idx[..k] {
      var p := PositionOf(idx, |rows|, i);
      assert idx[..k][p] == i;
    }
    forall i | i in above ensures i in idx[k + 1..] {
      var p := PositionOf(idx, |rows|, i);
      assert idx[k + 1..][p - (k + 1)] == i;
    }
    AtMost(below, idx[..k]);
    AtMost(above, idx[k + 1..]);
  }

  function Elements(s: seq<nat>): set<int> {
    set i | 0 <= i < |s| :: s[i] as int
  }

  lemma AtMost(s: set<int>, among: seq<nat>)
    requires forall i :: i in s ==> i in among
    ensures |s| <= |among|
  {
    forall i | i in s ensures i in Elements(among) {
      assert i in among;
      var k :| 0 <= k < |among| && among[k] == i;
    }
    SubsetSize(s, Elements(among));
    ElementsAreFew(among);
  }

  lemma {:induction false} ElementsAreFew(s: seq<nat>)
    ensures |Elements(s)| <= |s|
    decreases |s|
  {
    if s == [] {
    } else {
      var init, last: int := s[..|s| - 1], s[|s| - 1];
      ElementsAreFew(init);
      assert Elements(s) == Elements(init) + {last};
    }
  }

  lemma SameSets(c: CLib, rows: seq<Row>, col: nat, v: int)
    requires Wide(rows, col)
    ensures var key := (row: Row) => if col < |row| then c.strtol(row[col]).0 as real else 0.0;
      && (set i | 0 <= i < |rows| && c.strtol(rows[i][col]).0 < v) ==
         (set i | 0 <= i < |rows| && key(rows[i]) < v as real)
      && (set i | 0 <= i < |rows| && c.strtol(rows[i][col]).0 > v) ==
         (set i | 0 <= i < |rows| && key(rows[i]) > v as real)
  {
  }

  // ---------------------------------------------------------------- what is read

  /** The type of a cell: a whole integer is a timestamp, a telephone number or an integer; other
      cells are floats, dates or text. */
  lemma DataTypeOf(c: CLib, cell: string)
    ensures var (i, whole) := c.strtol(cell);
      var t := ParseColumnDataType(c, cell);
      && (t == Timestamp <==> whole && 1673503905 <= i <= 4102415999)
      && (t == Telephone <==> whole && t != Timestamp && |cell| == 11 && i / 1_0000_0000 in {130, 131, 132, 134})
      && (t == Int <==> whole && t != Timestamp && t != Telephone)
      && (t == Float <==> !whole && c.strtof(cell).1)
      && (t == Date <==> !whole && !c.strtof(cell).1 && |cell| == 10 && cell[4] == cell[7] == '-')
  {
  }

  /** A float cell is valid without a dot if it also reads as an integer, with one dot if both
      sides of it do, and never with two. */
  lemma ValidFloatOf(c: CLib, a: string, b: string, d: string)
    requires '.' !in a && '.' !in b
    ensures ValidFloatStr(c, a) <==> c.strtof(a).1 && c.strtol(a).1
    ensures ValidFloatStr(c, a + ['.'] + b) <==> c.strtof(a + ['.'] + b).1 && c.strtol(a).1 && c.strtol(b).1
    ensures !ValidFloatStr(c, a + ['.'] + (b + ['.'] + d))
  {
    Strings.SplitWithoutSeparator(a, '.');
    AroundTheDot(a, b);
    assert Strings.SplitOn(a, '.')[0] == a;
    assert Strings.SplitOn(a + ['.'] + b, '.')[0] == a && Strings.SplitOn(a + ['.'] + b, '.')[1] == b;
    Strings.SplitAtSeparator(a, '.', b + ['.'] + d);
    Strings.SplitAtSeparator(b, '.', d);
    Strings.SplitWithoutSeparator(b, '.');
  }

  /** Cells that can be written to a line: without tabs, the last one not empty. */
  predicate Writable(cells: Row) {
    cells != [] && cells[|cells| - 1] != "" && forall i :: 0 <= i < |cells| ==> '\t' !in cells[i]
  }

  /** A line of cells joined by tabs is cut back into these cells, with a tab at its end or not. */
  lemma CellsOfLine(cells: Row)
    requires Writable(cells)
    ensures Cells(Strings.Join(cells, '\t')) == cells
    ensures Cells(Strings.Join(cells, '\t') + ['\t'] + "") == cells
    ensures Strings.Join(cells, '\t') != ""
  {
    if |cells| > 1 { assert Strings.Join(cells, '\t') == cells[0] + ['\t'] + Strings.Join(cells[1..], '\t'); }
    Strings.SplitOfJoin(cells, '\t');
    Strings.SplitAtSeparator(Strings.Join(cells, '\t'), '\t', "");
    assert Strings.SplitOn("", '\t') == [""];
    assert (cells + [""])[..|cells|] == cells;
  }

  function ReadAll(c: CLib, r: Reading, lines: seq<string>): Reading {
    if lines == [] then r else ReadLine(c, ReadAll(c, r, lines[..|lines| - 1]), lines[|lines| - 1])
  }

  lemma {:induction false} ReadOn(c: CLib, before: seq<string>, lines: seq<string>)
    ensures ReadSoFar(c, before + lines) == ReadAll(c, ReadSoFar(c, before), lines)
    decreases |lines|
  {
    if lines == [] {
      assert before + lines == before;
    } else {
      var n := |lines| - 1;
      ReadOn(c, before, lines[..n]);
      InitAndLast(lines);
      ConcatAssociative(before, lines[..n], [lines[n]]);
      ReadOneMore(c, before + lines[..n], lines[n]);
    }
  }

  /** A line changes nothing if it is empty, has another number of cells than the header, or has
      cells of other types than the first full row. */
  lemma IgnoredLine(c: CLib, before: seq<string>, line: string, after: seq<string>)
    requires match ReadSoFar(c, before)
      case NoHeader => line == ""
      case NoTypes(names) => line == "" || |Cells(line)| != |names|
      case Rows(t) =>
        line == "" || |Cells(line)| != |t.names|
        || exists i :: 0 <= i < |t.types| && i < |t.names| && ParseColumnDataType(c, Cells(line)[i]) != t.types[i]
    ensures FileTable(c, before + [line] + after) == FileTable(c, before + after)
  {
    ReadOneMore(c, before, line);
    ReadOn(c, before + [line], after);
    ReadOn(c, before, after);
    ReadingEndsWithTable(c, before + [line] + after);
    ReadingEndsWithTable(c, before + after);
  }

  /** A table that can be written to a file: full rows of the types of the first one. */
  predicate WritableTable(c: CLib, t: Table) {
    && Writable(t.names) && t.rows != [] && |t.types| == |t.names|
    && forall i :: 0 <= i < |t.rows| ==>
         Writable(t.rows[i]) && |t.rows[i]| == |t.names|
         && forall j :: 0 <= j < |t.types| ==> ParseColumnDataType(c, t.rows[i][j]) == t.types[j]
  }

  function Written(rows: seq<Row>): seq<string> {
    seq(|rows|, i requires 0 <= i < |rows| => Strings.Join(rows[i], '\t'))
  }

  /** Reading the lines of a table, names first, gives the table back. */
  lemma ReadingInvertsWriting(c: CLib, t: Table)
    requires WritableTable(c, t)
    ensures FileTable(c, Written([t.names] + t.rows)) == Some(t)
  {
    ReadWritten(c, t.names, t.types, t.rows);
    ReadingEndsWithTable(c, Written([t.names] + t.rows));
  }

  lemma {:induction false} ReadWritten(c: CLib, names: Row, types: seq<DataType>, rows: seq<Row>)
    requires Writable(names) && |types| == |names|
    requires rows != [] ==> WritableTable(c, Table(names, types, rows))
    ensures ReadSoFar(c, Written([names] + rows)) ==
      if rows == [] then NoTypes(names) else Rows(Table(names, types, rows))
    decreases |rows|
  {
    if rows == [] {
      ReadWrittenLine(c, [], names);
      assert [] + [names] == [names] + rows && Written([]) == [];
    } else {
      var init, last := rows[..|rows| - 1], rows[|rows| - 1];
      ReadWritten(c, names, types, init);
      InitAndLast(rows);
      OneMoreWritten(c, names, types, init, last);
    }
  }

  lemma OneMoreWritten(c: CLib, names: Row, types: seq<DataType>, init: seq<Row>, last: Row)
    requires ReadSoFar(c, Written([names] + init)) ==
      if init == [] then NoTypes(names) else Rows(Table(names, types, init))
    requires Writable(last) && |types| == |names| == |last|
    requires forall j :: 0 <= j < |types| ==> ParseColumnDataType(c, last[j]) == types[j]
    ensures ReadSoFar(c, Written([names] + (init + [last]))) == Rows(Table(names, types, init + [last]))
  {
    ReadWrittenLine(c, [names] + init, last);
    WrittenRow(c, names, types, init, last);
    ConcatAssociative([names], init, [last]);
  }

  lemma ReadWrittenLine(c: CLib, before: seq<Row>, row: Row)
    requires Writable(row)
    ensures ReadSoFar(c, Written(before + [row])) == ReadCells(c, ReadSoFar(c, Written(before)), row)
  {
    assert Written(before + [row]) == Written(before) + [Strings.Join(row, '\t')];
    ReadOneMore(c, Written(before), Strings.Join(row, '\t'));
    CellsOfLine(row);
  }

  lemma WrittenRow(c: CLib, names: Row, types: seq<DataType>, init: seq<Row>, last: Row)
    requires |types| == |names| == |last|
    requires forall j :: 0 <= j < |types| ==> ParseColumnDataType(c, last[j]) == types[j]
    ensures ReadCells(c, if init == [] then NoTypes(names) else Rows(Table(names, types, init)), last) ==
      Rows(Table(names, types, init + [last]))
  {
    assert RowTypes(c, last) == types;
    if init == [] { EmptyConcat([last]); }
  }

  /** A column name stands for its last position. */
  lemma {:induction false} IndexIsLastPosition(names: Row)
    ensures forall name :: name in IndexOf(names) <==> name in names
    ensures forall name :: name in IndexOf(names) ==>
      IndexOf(names)[name] < |names| && names[IndexOf(names)[name]] == name
      && forall j :: IndexOf(names)[name] < j < |names| ==> names[j] != name
    decreases |names|
  {
    if names == [] {
    } else {
      IndexIsLastPosition(names[..|names| - 1]);
      assert names == names[..|names| - 1] + [names[|names| - 1]];
    }
  }
}
