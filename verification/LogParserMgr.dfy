/** Many log files: parse each, drop the failures, merge the rest under the first one's schema. */
module LogParserMgrs {
  import opened Prelude
  import opened LogOrder
  import opened LogParsers

  type Disk = string -> Option<seq<string>>

  function TableAt(c: CLib, disk: Disk, path: string): Option<Table> {
    match disk(path) case None => None case Some(lines) => FileTable(c, lines)
  }

  /** The paths that parse, in order. */
  function Parsable(c: CLib, disk: Disk, paths: seq<string>): seq<string> {
    if paths == [] then []
    else
      var before, path := Parsable(c, disk, paths[..|paths| - 1]), paths[|paths| - 1];
      if TableAt(c, disk, path).Some? then before + [path] else before
  }

  /** The rows of all the files that parse, file by file. */
  function AllRows(c: CLib, disk: Disk, paths: seq<string>): seq<Row> {
    if paths == [] then []
    else
      var before, table := AllRows(c, disk, paths[..|paths| - 1]), TableAt(c, disk, paths[|paths| - 1]);
      if table.Some? then before + table.value.rows else before
  }

  /** The table of the first file that parses. */
  function FirstTable(c: CLib, disk: Disk, paths: seq<string>): Option<Table> {
    var good := Parsable(c, disk, paths);
    if good == [] then None else TableAt(c, disk, good[0])
  }

  lemma OneMoreFile(c: CLib, disk: Disk, paths: seq<string>, i: nat)
    requires i < |paths|
    ensures var table := TableAt(c, disk, paths[i]);
      && Parsable(c, disk, paths[..i + 1]) == Parsable(c, disk, paths[..i]) + (if table.Some? then [paths[i]] else [])
      && AllRows(c, disk, paths[..i + 1]) ==
        AllRows(c, disk, paths[..i]) + (if table.Some? then table.value.rows else [])
  {
    assert paths[..i + 1][..i] == paths[..i];
  }

  lemma {:induction false} ParsableParse(c: CLib, disk: Disk, paths: seq<string>)
    ensures forall path :: path in Parsable(c, disk, paths) <==> path in paths && TableAt(c, disk, path).Some?
    decreases |paths|
  {
    if paths == [] {
    } else {
      ParsableParse(c, disk, paths[..|paths| - 1]);
      assert paths == paths[..|paths| - 1] + [paths[|paths| - 1]];
    }
  }

  /** The first table's rows lead the merged ones. */
  lemma {:induction false} AllRowsBeginWithFirst(c: CLib, disk: Disk, paths: seq<string>)
    requires FirstTable(c, disk, paths).Some?
    ensures FirstTable(c, disk, paths).value.rows <= AllRows(c, disk, paths)
    decreases |paths|
  {
    var init := paths[..|paths| - 1];
    if Parsable(c, disk, init) == [] {
      NothingParsed(c, disk, init);
    } else {
      AllRowsBeginWithFirst(c, disk, init);
    }
  }

  lemma {:induction false} NothingParsed(c: CLib, disk: Disk, paths: seq<string>)
    requires Parsable(c, disk, paths) == []
    ensures AllRows(c, disk, paths) == []
    decreases |paths|
  {
    if paths == [] {
    } else {
      NothingParsed(c, disk, paths[..|paths| - 1]);
    }
  }

  lemma {:induction false} RowsComeFromFiles(c: CLib, disk: Disk, paths: seq<string>, row: Row)
    ensures row in AllRows(c, disk, paths) <==>
      exists path :: path in paths && TableAt(c, disk, path).Some? && row in TableAt(c, disk, path).value.rows
    decreases |paths|
  {
    if paths == [] {
    } else {
      var init, last := paths[..|paths| - 1], paths[|paths| - 1];
      assert paths == init + [last] && last in paths;
      RowsComeFromFiles(c, disk, init, row);
      if row in AllRows(c, disk, init) {
        var path :| path in init && TableAt(c, disk, path).Some? && row in TableAt(c, disk, path).value.rows;
        assert path in paths;
      }
    }
  }

  /** All files that parse infer the same column types. */
  ghost predicate SameSchema(c: CLib, disk: Disk, paths: seq<string>) {
    forall p, q :: p in paths && q in paths && TableAt(c, disk, p).Some? && TableAt(c, disk, q).Some? ==>
      TableAt(c, disk, p).value.types == TableAt(c, disk, q).value.types
  }

  /** The rows the merged parser keeps. */
  function MergedRows(c: CLib, disk: Disk, paths: seq<string>): seq<Row> {
    match FirstTable(c, disk, paths)
    case None => []
    case Some(first) => Conforming(c, first.types, AllRows(c, disk, paths))
  }

  /** The first file's rows are all kept, so the merged table is never empty; with the same
      schema everywhere nothing is lost: it holds exactly the rows of all files. */
  lemma MergedIsUnion(c: CLib, disk: Disk, paths: seq<string>)
    requires FirstTable(c, disk, paths).Some?
    ensures FirstTable(c, disk, paths).value.rows <= MergedRows(c, disk, paths)
    ensures MergedRows(c, disk, paths) != []
    ensures SameSchema(c, disk, paths) ==> MergedRows(c, disk, paths) == AllRows(c, disk, paths)
  {
    var good := Parsable(c, disk, paths);
    ParsableParse(c, disk, paths);
    assert good[0] in good;
    var first, all := FirstTable(c, disk, paths).value, AllRows(c, disk, paths);
    FileTableIsUniform(c, disk(good[0]).value);
    AllRowsBeginWithFirst(c, disk, paths);
    assert all == first.rows + all[|first.rows|..];
    ConformingConcat(c, first.types, first.rows, all[|first.rows|..]);
    ConformingRows(c, first.types, first.rows);
    if SameSchema(c, disk, paths) {
      AllRowsConform(c, disk, paths, good[0]);
      ConformingRows(c, first.types, all);
    }
  }

  lemma AllRowsConform(c: CLib, disk: Disk, paths: seq<string>, first: string)
    requires SameSchema(c, disk, paths) && first in paths && TableAt(c, disk, first).Some?
    ensures forall row :: row in AllRows(c, disk, paths) ==> Conforms(c, TableAt(c, disk, first).value.types, row)
  {
    forall row | row in AllRows(c, disk, paths) ensures Conforms(c, TableAt(c, disk, first).value.types, row) {
      RowsComeFromFiles(c, disk, paths, row);
      var path :| path in paths && TableAt(c, disk, path).Some? && row in TableAt(c, disk, path).value.rows;
      FileTableIsUniform(c, disk(path).value);
    }
  }

  /** Files one after the other: what is kept and gathered of them adds up. */
  lemma {:induction false} FilesAddUp(c: CLib, disk: Disk, paths: seq<string>, more: seq<string>)
    ensures Parsable(c, disk, paths + more) == Parsable(c, disk, paths) + Parsable(c, disk, more)
    ensures AllRows(c, disk, paths + more) == AllRows(c, disk, paths) + AllRows(c, disk, more)
    decreases |more|
  {
    if more == [] {
      assert paths + more == paths;
    } else {
      var init, last := more[..|more| - 1], more[|more| - 1];
      FilesAddUp(c, disk, paths, init);
      InitAndLast(more);
      LastFile(c, disk, init, last);
      LastFile(c, disk, paths + init, last);
      ConcatAssociative(paths, init, [last]);
      ConcatAssociative(Parsable(c, disk, paths), Parsable(c, disk, init), KeptPath(c, disk, last));
      ConcatAssociative(AllRows(c, disk, paths), AllRows(c, disk, init), RowsOf(c, disk, last));
    }
  }

  function KeptPath(c: CLib, disk: Disk, path: string): seq<string> {
    if TableAt(c, disk, path).Some? then [path] else []
  }

  function RowsOf(c: CLib, disk: Disk, path: string): seq<Row> {
    var table := TableAt(c, disk, path);
    if table.Some? then table.value.rows else []
  }

  lemma LastFile(c: CLib, disk: Disk, paths: seq<string>, path: string)
    ensures Parsable(c, disk, paths + [path]) == Parsable(c, disk, paths) + KeptPath(c, disk, path)
    ensures AllRows(c, disk, paths + [path]) == AllRows(c, disk, paths) + RowsOf(c, disk, path)
  {
    assert (paths + [path])[..|paths|] == paths;
  }

  /** One file: its path and the rows of its table, or nothing. */
  lemma OneFile(c: CLib, disk: Disk, path: string)
    ensures Parsable(c, disk, [path]) == if TableAt(c, disk, path).Some? then [path] else []
    ensures AllRows(c, disk, [path]) == match TableAt(c, disk, path) case Some(t) => t.rows case None => []
    ensures TableAt(c, disk, path).Some? <==> disk(path).Some? && FileTable(c, disk(path).value).Some?
    ensures TableAt(c, disk, path).Some? ==> TableAt(c, disk, path) == FileTable(c, disk(path).value)
  {
    assert [path][..0] == [];
  }

  /** The schema is that of the first file that parses. */
  lemma FirstTableIsFirst(c: CLib, disk: Disk, before: seq<string>, path: string, after: seq<string>)
    requires forall p :: p in before ==> TableAt(c, disk, p).None?
    requires TableAt(c, disk, path).Some?
    ensures FirstTable(c, disk, before + [path] + after) == TableAt(c, disk, path)
  {
    ParsableParse(c, disk, before);
    assert Parsable(c, disk, before) == [] by {
      if Parsable(c, disk, before) != [] { assert Parsable(c, disk, before)[0] in Parsable(c, disk, before); }
    }
    OneFile(c, disk, path);
    FilesAddUp(c, disk, before, [path]);
    FilesAddUp(c, disk, before + [path], after);
  }

  // ---------------------------------------------------------------- extremes

  /** The ends of a sorted index are extreme among all rows. */
  lemma IndexEndsAreExtreme(c: CLib, t: DataType, rows: seq<Row>, col: nat, idx: seq<nat>, row: nat)
    requires Indexes(c, t, rows, col, idx) && Sortable(c, t, ColumnCells(rows, col)) && row < |rows|
    ensures !Less(c, t, CellAt(rows, row, col), CellAt(rows, idx[0], col))
    ensures !Less(c, t, CellAt(rows, idx[|rows| - 1], col), CellAt(rows, row, col))
  {
    var i := PositionOf(idx, |rows|, row);
    var less := ColLess(c, t, rows, col);
    ColLessRanks(c, t, rows, col);
    NotBefore(less, idx, 0, i);
    NotBefore(less, idx, i, |rows| - 1);
  }

  lemma NotBefore(less: (nat, nat) -> bool, idx: seq<nat>, i: nat, j: nat)
    requires SortedBy(less, idx) && i <= j < |idx| && (i == j ==> !less(idx[i], idx[i]))
    ensures !less(idx[j], idx[i])
  {
  }

  /** The minimum of a table whose rows include a file's rows is not above the file's minimum,
      and not below it if it is one of the file's cells; likewise for the maximum. */
  lemma ExtremesOfPart(c: CLib, t: DataType, all: seq<Row>, part: seq<Row>, col: nat, idx: seq<nat>, partIdx: seq<nat>)
    requires all != [] && part != [] && forall row :: row in part ==> row in all
    requires Indexes(c, t, all, col, idx) && Indexes(c, t, part, col, partIdx)
    requires Sortable(c, t, ColumnCells(all, col))
    ensures var min, partMin := CellAt(all, idx[0], col), CellAt(part, partIdx[0], col);
      !Less(c, t, partMin, min) && (all[idx[0]] in part ==> !Less(c, t, min, partMin))
    ensures var max, partMax := CellAt(all, idx[|all| - 1], col), CellAt(part, partIdx[|part| - 1], col);
      !Less(c, t, max, partMax) && (all[idx[|all| - 1]] in part ==> !Less(c, t, partMax, max))
  {
    var n, m := |all|, |part|;
    PartIsSortable(c, t, all, part, col);
    var lo := RowOfPart(all, part, partIdx[0]);
    var hi := RowOfPart(all, part, partIdx[m - 1]);
    IndexEndsAreExtreme(c, t, all, col, idx, lo);
    IndexEndsAreExtreme(c, t, all, col, idx, hi);
    if all[idx[0]] in part {
      var r :| 0 <= r < m && part[r] == all[idx[0]];
      IndexEndsAreExtreme(c, t, part, col, partIdx, r);
    }
    if all[idx[n - 1]] in part {
      var r :| 0 <= r < m && part[r] == all[idx[n - 1]];
      IndexEndsAreExtreme(c, t, part, col, partIdx, r);
    }
  }

  lemma RowOfPart(all: seq<Row>, part: seq<Row>, r: nat) returns (row: nat)
    requires r < |part| && forall x :: x in part ==> x in all
    ensures row < |all| && all[row] == part[r]
  {
    assert part[r] in part;
    row :| 0 <= row < |all| && all[row] == part[r];
  }

  lemma PartIsSortable(c: CLib, t: DataType, all: seq<Row>, part: seq<Row>, col: nat)
    requires Sortable(c, t, ColumnCells(all, col)) && forall row :: row in part ==> row in all
    ensures Sortable(c, t, ColumnCells(part, col))
  {
    forall x | x in ColumnCells(part, col) ensures x in ColumnCells(all, col) {
      var r: nat :| r < |part| && CellAt(part, r, col) == x;
      var row := RowOfPart(all, part, r);
      assert CellAt(all, row, col) == x;
    }
  }

  /** The first cell of a column by its index, and the last one. */
  function Least(rows: seq<Row>, col: nat, idx: seq<nat>): string
    requires 0 < |idx| == |rows|
  {
    CellAt(rows, idx[0], col)
  }

  function Greatest(rows: seq<Row>, col: nat, idx: seq<nat>): string
    requires 0 < |idx| == |rows|
  {
    CellAt(rows, idx[|rows| - 1], col)
  }

  /** How the extremes of a table compare with those of a part of it. */
  ghost predicate Bounds(c: CLib, t: DataType, col: nat, rows: seq<Row>, idx: seq<nat>, part: seq<Row>,
                         partIdx: seq<nat>) {
    && 0 < |idx| == |rows| && 0 < |partIdx| == |part|
    && (forall i :: 0 <= i < |idx| ==> idx[i] < |rows|)
    && !Less(c, t, Least(part, col, partIdx), Least(rows, col, idx))
    && !Less(c, t, Greatest(rows, col, idx), Greatest(part, col, partIdx))
    && (rows[idx[0]] in part ==> !Less(c, t, Least(rows, col, idx), Least(part, col, partIdx)))
    && (rows[idx[|rows| - 1]] in part ==> !Less(c, t, Greatest(part, col, partIdx), Greatest(rows, col, idx)))
  }

  lemma PartIsBounded(c: CLib, t: DataType, all: seq<Row>, part: seq<Row>, col: nat, idx: seq<nat>, partIdx: seq<nat>)
    requires all != [] && part != [] && forall row :: row in part ==> row in all
    requires Indexes(c, t, all, col, idx) && Indexes(c, t, part, col, partIdx)
    requires Sortable(c, t, ColumnCells(all, col))
    ensures Bounds(c, t, col, all, idx, part, partIdx)
  {
    ExtremesOfPart(c, t, all, part, col, idx, partIdx);
  }

  /** The rows of a file that parses are among the merged ones if all files infer the same types. */
  lemma FileIsPart(c: CLib, disk: Disk, paths: seq<string>, path: string)
    requires FirstTable(c, disk, paths).Some? && SameSchema(c, disk, paths) && path in Parsable(c, disk, paths)
    ensures path in paths && TableAt(c, disk, path).Some? && TableAt(c, disk, path).value.rows != []
    ensures TableAt(c, disk, path).value.types == FirstTable(c, disk, paths).value.types
    ensures forall row :: row in TableAt(c, disk, path).value.rows ==> row in MergedRows(c, disk, paths)
  {
    ParsableParse(c, disk, paths);
    MergedIsUnion(c, disk, paths);
    FileTableIsUniform(c, disk(path).value);
    assert Parsable(c, disk, paths)[0] in Parsable(c, disk, paths);
    forall row | row in TableAt(c, disk, path).value.rows ensures row in MergedRows(c, disk, paths) {
      RowsComeFromFiles(c, disk, paths, row);
    }
  }

  /** With the same schema everywhere, no file has a cell below the merged minimum or above the
      merged maximum. */
  lemma MergedExtremesBound(c: CLib, disk: Disk, paths: seq<string>, col: nat, idx: seq<nat>, path: string,
                            partIdx: seq<nat>)
    requires FirstTable(c, disk, paths).Some? && SameSchema(c, disk, paths) && path in Parsable(c, disk, paths)
    requires col < |FirstTable(c, disk, paths).value.types|
    requires var t, rows := FirstTable(c, disk, paths).value.types[col], MergedRows(c, disk, paths);
      Indexes(c, t, rows, col, idx) && Sortable(c, t, ColumnCells(rows, col))
    requires TableAt(c, disk, path).Some? &&
      Indexes(c, FirstTable(c, disk, paths).value.types[col], TableAt(c, disk, path).value.rows, col, partIdx)
    ensures Bounds(c, FirstTable(c, disk, paths).value.types[col], col, MergedRows(c, disk, paths), idx,
                   TableAt(c, disk, path).value.rows, partIdx)
  {
    FileIsPart(c, disk, paths, path);
    MergedIsUnion(c, disk, paths);
    PartIsBounded(c, FirstTable(c, disk, paths).value.types[col], MergedRows(c, disk, paths),
                  TableAt(c, disk, path).value.rows, col, idx, partIdx);
  }

  /** Every merged row stands in a file that parses. */
  lemma FileOfRow(c: CLib, disk: Disk, paths: seq<string>, row: Row) returns (path: string)
    requires FirstTable(c, disk, paths).Some? && row in MergedRows(c, disk, paths)
    ensures path in Parsable(c, disk, paths) && TableAt(c, disk, path).Some? && row in TableAt(c, disk, path).value.rows
  {
    ConformingRows(c, FirstTable(c, disk, paths).value.types, AllRows(c, disk, paths));
    RowsComeFromFiles(c, disk, paths, row);
    path :| path in paths && TableAt(c, disk, path).Some? && row in TableAt(c, disk, path).value.rows;
    ParsableParse(c, disk, paths);
  }

  // ---------------------------------------------------------------- the manager

  lemma {:induction false} IndexOfSize(names: Row)
    ensures forall name :: name in IndexOf(names) <==> name in names
    ensures forall name :: name in IndexOf(names) ==> IndexOf(names)[name] < |names|
    ensures |IndexOf(names)| <= |names| && (|IndexOf(names)| == |names| <==> NoDup(names))
    decreases |names|
  {
    if names == [] {
    } else {
      var init, last := names[..|names| - 1], names[|names| - 1];
      IndexOfSize(init);
      assert names == init + [last];
      NoDupLast(init, last);
      OneMoreEntry(IndexOf(init), last, |init|);
    }
  }

  lemma OneMoreEntry(index: map<string, nat>, name: string, at: nat)
    ensures |index[name := at]| == |index| + if name in index then 0 else 1
  {
    assert index[name := at].Keys == index.Keys + {name};
    if name in index { assert index.Keys + {name} == index.Keys; }
  }

  lemma NoDupLast(names: Row, last: string)
    ensures NoDup(names + [last]) <==> NoDup(names) && last !in names
  {
    var all := names + [last];
    if NoDup(all) {
      forall i, j | 0 <= i < j < |names| ensures names[i] != names[j] { assert all[i] != all[j]; }
      forall i | 0 <= i < |names| ensures names[i] != last { assert all[i] != all[|names|]; }
    }
  }

  class LogParserMgr {
    const c: CLib
    const disk: Disk
    var logFilePathList: seq<string>
    var logParserList: seq<LogParser>
    var logName2LogParser: map<string, LogParser>
    var mergedLogParser: LogParser?

    constructor (c: CLib, disk: Disk, paths: seq<string>)
      ensures this.c == c && this.disk == disk && logFilePathList == paths
      ensures logParserList == [] && logName2LogParser == map[] && mergedLogParser == null
    {
      this.c, this.disk, logFilePathList := c, disk, paths;
      logParserList, logName2LogParser, mergedLogParser := [], map[], null;
    }

    /** The parser holds the indexed table of the file. */
    ghost predicate Holds(p: LogParser, path: string)
      reads p
    {
      && p.c == c && p.Indexed() && Some(p.Content()) == TableAt(c, disk, path)
      && p.colIndex == IndexOf(p.colNames)
    }

    /** What is kept of the given files: those that parse, each with its parser. */
    ghost predicate Collected(given: seq<string>)
      reads this, logParserList, logName2LogParser.Values
    {
      logFilePathList == Parsable(c, disk, given) && Parsed(logFilePathList, logParserList, logName2LogParser)
    }

    /** One parser for each path, by position and by name. */
    ghost predicate Parsed(paths: seq<string>, parsers: seq<LogParser>, byName: map<string, LogParser>)
      reads parsers, byName.Values
    {
      && |parsers| == |paths|
      && (forall i :: 0 <= i < |parsers| ==> Holds(parsers[i], paths[i]))
      && (forall path :: path in byName <==> path in paths)
      && forall path :: path in byName ==> Holds(byName[path], path)
    }

    lemma OneMoreParsed(paths: seq<string>, parsers: seq<LogParser>, byName: map<string, LogParser>,
                        path: string, parser: LogParser)
      requires Parsed(paths, parsers, byName) && Holds(parser, path)
      ensures Parsed(paths + [path], parsers + [parser], byName[path := parser])
    {
    }

    /** Every file has a parser; the results say which ones hold a table. */
    ghost predicate Outcomes(paths: seq<string>, parsers: seq<LogParser>, results: seq<bool>)
      reads parsers
    {
      && |results| == |parsers| == |paths|
      && forall i :: 0 <= i < |paths| ==>
           results[i] == TableAt(c, disk, paths[i]).Some? && (results[i] ==> Holds(parsers[i], paths[i]))
    }

    lemma OneMoreOutcome(paths: seq<string>, parsers: seq<LogParser>, results: seq<bool>, path: string,
                         parser: LogParser, parsed: bool)
      requires Outcomes(paths, parsers, results)
      requires parsed == TableAt(c, disk, path).Some? && (parsed ==> Holds(parser, path))
      ensures Outcomes(paths + [path], parsers + [parser], results + [parsed])
    {
    }

    /** One parser per file, each run once; the jobs share nothing, so their order is immaterial. */
    method ParseFiles() returns (results: seq<bool>)
      requires logParserList == []
      requires forall path :: path in logFilePathList && TableAt(c, disk, path).Some? ==>
        SumsFit(c, TableAt(c, disk, path).value)
      modifies this`logParserList
      ensures Outcomes(logFilePathList, logParserList, results) && forall p :: p in logParserList ==> fresh(p)
    {
      var parsers;
      parsers, results := ParseEach(logFilePathList);
      logParserList := parsers;
    }

    method ParseEach(paths: seq<string>) returns (parsers: seq<LogParser>, results: seq<bool>)
      requires forall path :: path in paths && TableAt(c, disk, path).Some? ==> SumsFit(c, TableAt(c, disk, path).value)
      ensures Outcomes(paths, parsers, results) && forall p :: p in parsers ==> fresh(p)
    {
      parsers, results := [], [];
      for i := 0 to |paths|
        invariant Outcomes(paths[..i], parsers, results)
        invariant forall p :: p in parsers ==> fresh(p)
      {
        assert paths[i] in paths && paths[..i + 1] == paths[..i] + [paths[i]];
        var parser, parsed := ParseOne(paths[i]);
        OneMoreOutcome(paths[..i], parsers, results, paths[i], parser, parsed);
        parsers := parsers + [parser];
        results := results + [parsed];
      }
      assert paths[..|paths|] == paths;
    }

    method ParseOne(path: string) returns (parser: LogParser, parsed: bool)
      requires TableAt(c, disk, path).Some? ==> SumsFit(c, TableAt(c, disk, path).value)
      ensures fresh(parser) && parsed == TableAt(c, disk, path).Some? && (parsed ==> Holds(parser, path))
    {
      parser := new LogParser.FromFile(c, disk(path));
      parsed := parser.ParseFile();
      parsed := parsed && parser.rowCnt > 0;
    }

    /** Keeps the files that parsed and gathers their rows. */
    method Collect(results: seq<bool>) returns (rows: seq<Row>)
      requires Outcomes(logFilePathList, logParserList, results) && logName2LogParser == map[]
      modifies this`logFilePathList, this`logParserList, this`logName2LogParser
      ensures Collected(old(logFilePathList)) && rows == AllRows(c, disk, old(logFilePathList))
    {
      var paths, parsers, byName;
      paths, parsers, byName, rows := Successes(results);
      Keep(paths, parsers, byName);
    }

    method Keep(paths: seq<string>, parsers: seq<LogParser>, byName: map<string, LogParser>)
      requires Parsed(paths, parsers, byName)
      modifies this`logFilePathList, this`logParserList, this`logName2LogParser
      ensures logFilePathList == paths && logParserList == parsers && logName2LogParser == byName
      ensures Parsed(paths, parsers, byName)
    {
      logFilePathList, logParserList, logName2LogParser := paths, parsers, byName;
    }

    method Successes(results: seq<bool>)
      returns (paths: seq<string>, parsers: seq<LogParser>, byName: map<string, LogParser>, rows: seq<Row>)
      requires Outcomes(logFilePathList, logParserList, results) && logName2LogParser == map[]
      ensures paths == Parsable(c, disk, logFilePathList) && rows == AllRows(c, disk, logFilePathList)
      ensures Parsed(paths, parsers, byName)
    {
      paths, parsers, byName, rows := [], [], logName2LogParser, [];
      for i := 0 to |logFilePathList|
        invariant paths == Parsable(c, disk, logFilePathList[..i]) && rows == AllRows(c, disk, logFilePathList[..i])
        invariant Parsed(paths, parsers, byName)
      {
        OneMoreFile(c, disk, logFilePathList, i);
        if results[i] {
          OneMoreParsed(paths, parsers, byName, logFilePathList[i], logParserList[i]);
          paths := paths + [logFilePathList[i]];
          parsers := parsers + [logParserList[i]];
          byName := byName[logFilePathList[i] := logParserList[i]];
          rows := rows + logParserList[i].rawContent;
        }
      }
      assert logFilePathList[..|logFilePathList|] == logFilePathList;
    }

    /** Succeeds exactly when some file parses and the first one that does has distinct column
        names; then the merged table is the first schema over the rows it fits. */
    method Parse() returns (ok: bool)
      requires logParserList == [] && logName2LogParser == map[]
      requires forall path :: path in logFilePathList && TableAt(c, disk, path).Some? ==>
        SumsFit(c, TableAt(c, disk, path).value)
      requires FirstTable(c, disk, logFilePathList).Some? ==>
        Fits(c, FirstTable(c, disk, logFilePathList).value, AllRows(c, disk, logFilePathList))
      modifies this
      ensures Collected(old(logFilePathList))
      ensures var first := FirstTable(c, disk, old(logFilePathList));
        && (ok <==> first.Some? && NoDup(first.value.names))
        && (ok ==> Merged(first.value, AllRows(c, disk, old(logFilePathList))))
    {
      var results := ParseFiles();
      var rows := Collect(results);
      ok := MergeAll(rows, old(logFilePathList));
    }

    /** The merge of what was kept of the given files. */
    method MergeAll(rows: seq<Row>, ghost given: seq<string>) returns (ok: bool)
      requires Collected(given) && rows == AllRows(c, disk, given)
      requires FirstTable(c, disk, given).Some? ==> Fits(c, FirstTable(c, disk, given).value, rows)
      modifies this`mergedLogParser
      ensures Collected(given)
      ensures var first := FirstTable(c, disk, given);
        (ok <==> first.Some? && NoDup(first.value.names)) && (ok ==> Merged(first.value, rows))
    {
      if logParserList == [] {
        return false;
      }
      FirstIsMergeable(c, disk, given);
      if rows == [] {
        return false;
      }
      assert Holds(logParserList[0], logFilePathList[0]);
      ok := Merge(logParserList[0], rows);
    }

    /** The merged parser holds the indexed table of the rows that fit the schema. */
    ghost predicate Merged(schema: Table, rows: seq<Row>)
      reads this, mergedLogParser
    {
      && mergedLogParser != null && mergedLogParser.c == c && mergedLogParser.Indexed()
      && mergedLogParser.Content() == Table(schema.names, schema.types, Conforming(c, schema.types, rows))
      && mergedLogParser.colIndex == IndexOf(schema.names)
    }

    /** After a successful parse of files with one schema: the stored minimum of every sortable
        column is not above that of any file and not below that of some file; likewise the
        maximum. */
    lemma MergedExtremes(given: seq<string>, col: nat)
      requires FirstTable(c, disk, given).Some? && SameSchema(c, disk, given) && Collected(given)
      requires Merged(FirstTable(c, disk, given).value, AllRows(c, disk, given))
      requires col < |FirstTable(c, disk, given).value.types|
      requires Sortable(c, FirstTable(c, disk, given).value.types[col], ColumnCells(MergedRows(c, disk, given), col))
      ensures forall i :: 0 <= i < |logParserList| ==> NotBeyond(logParserList[i], col)
      ensures exists i :: 0 <= i < |logParserList| && ReachesMin(logParserList[i], col)
      ensures exists i :: 0 <= i < |logParserList| && ReachesMax(logParserList[i], col)
    {
      forall i | 0 <= i < |logParserList| ensures NotBeyond(logParserList[i], col) {
        PartIsBound(given, col, i);
        BoundsAreStored(logParserList[i], col);
      }
      var i := FileOfMin(given, col);
      var j := FileOfMax(given, col);
    }

    lemma FileOfMin(given: seq<string>, col: nat) returns (i: nat)
      requires FirstTable(c, disk, given).Some? && SameSchema(c, disk, given) && Collected(given)
      requires Merged(FirstTable(c, disk, given).value, AllRows(c, disk, given))
      requires col < |FirstTable(c, disk, given).value.types|
      requires Sortable(c, FirstTable(c, disk, given).value.types[col], ColumnCells(MergedRows(c, disk, given), col))
      ensures i < |logParserList| && ReachesMin(logParserList[i], col)
    {
      IndexedColumn(mergedLogParser, col);
      i := FileOfEnd(given, col, 0);
      PartIsBound(given, col, i);
      BoundsAreStored(logParserList[i], col);
    }

    lemma FileOfMax(given: seq<string>, col: nat) returns (i: nat)
      requires FirstTable(c, disk, given).Some? && SameSchema(c, disk, given) && Collected(given)
      requires Merged(FirstTable(c, disk, given).value, AllRows(c, disk, given))
      requires col < |FirstTable(c, disk, given).value.types|
      requires Sortable(c, FirstTable(c, disk, given).value.types[col], ColumnCells(MergedRows(c, disk, given), col))
      ensures i < |logParserList| && ReachesMax(logParserList[i], col)
    {
      IndexedColumn(mergedLogParser, col);
      i := FileOfEnd(given, col, |mergedLogParser.rawContent| - 1);
      PartIsBound(given, col, i);
      BoundsAreStored(logParserList[i], col);
    }

    /** The stored minimum and maximum of a file do not lie beyond the merged ones. */
    ghost predicate NotBeyond(p: LogParser, col: nat)
      reads this, mergedLogParser, p
    {
      && mergedLogParser != null && StoresEnds(p, col) && StoresEnds(mergedLogParser, col)
      && !Less(c, mergedLogParser.colTypes[col], Stored(p, col, Min), Stored(mergedLogParser, col, Min))
      && !Less(c, mergedLogParser.colTypes[col], Stored(mergedLogParser, col, Max), Stored(p, col, Max))
    }

    ghost predicate ReachesMin(p: LogParser, col: nat)
      reads this, mergedLogParser, p
    {
      NotBeyond(p, col) &&
        !Less(c, mergedLogParser.colTypes[col], Stored(mergedLogParser, col, Min), Stored(p, col, Min))
    }

    ghost predicate ReachesMax(p: LogParser, col: nat)
      reads this, mergedLogParser, p
    {
      NotBeyond(p, col) &&
        !Less(c, mergedLogParser.colTypes[col], Stored(p, col, Max), Stored(mergedLogParser, col, Max))
    }

    ghost predicate StoresEnds(p: LogParser, col: nat)
      reads p
    {
      && col < |p.metricsByCol| && col < |p.colTypes|
      && Min in p.metricsByCol[col] && p.metricsByCol[col][Min].Cell?
      && Max in p.metricsByCol[col] && p.metricsByCol[col][Max].Cell?
    }

    ghost function Stored(p: LogParser, col: nat, m: Metric): string
      requires StoresEnds(p, col) && m in {Min, Max}
      reads p
    {
      p.metricsByCol[col][m].s
    }

    static lemma IndexedColumn(p: LogParser, col: nat)
      requires p.Indexed() && col < |p.colTypes|
      ensures p.rawContent != [] && col < |p.sortedContentByCol| && col < |p.metricsByCol|
      ensures Indexes(p.c, p.colTypes[col], p.rawContent, col, p.sortedContentByCol[col])
      ensures MetricsOf(p.c, p.colTypes[col], p.rawContent, col, p.sortedContentByCol[col], p.metricsByCol[col])
    {
    }

    /** The file whose row stands at one place of the merged index. */
    lemma FileOfEnd(given: seq<string>, col: nat, place: int) returns (i: nat)
      requires FirstTable(c, disk, given).Some? && Collected(given)
      requires Merged(FirstTable(c, disk, given).value, AllRows(c, disk, given))
      requires col < |FirstTable(c, disk, given).value.types| && 0 <= place < |mergedLogParser.rawContent|
      ensures i < |logParserList|
      ensures mergedLogParser.rawContent[mergedLogParser.sortedContentByCol[col][place]] in logParserList[i].rawContent
    {
      IndexedColumn(mergedLogParser, col);
      var row := mergedLogParser.rawContent[mergedLogParser.sortedContentByCol[col][place]];
      var path := FileOfRow(c, disk, given, row);
      i :| 0 <= i < |logFilePathList| && logFilePathList[i] == path;
      assert Holds(logParserList[i], path);
    }

    /** What the kept parsers hold, in terms of the files. */
    lemma PartHoldsFile(given: seq<string>, col: nat, i: nat)
      requires FirstTable(c, disk, given).Some? && SameSchema(c, disk, given) && Collected(given)
      requires col < |FirstTable(c, disk, given).value.types| && i < |logParserList|
      ensures var p := logParserList[i];
        && logFilePathList[i] in Parsable(c, disk, given) && TableAt(c, disk, logFilePathList[i]).Some?
        && p.rawContent == TableAt(c, disk, logFilePathList[i]).value.rows
        && p.Indexed() && col < |p.colTypes| && p.c == c
        && p.colTypes[col] == FirstTable(c, disk, given).value.types[col]
    {
      assert Holds(logParserList[i], logFilePathList[i]);
      FileIsPart(c, disk, given, logFilePathList[i]);
    }

    lemma PartIsBound(given: seq<string>, col: nat, i: nat)
      requires FirstTable(c, disk, given).Some? && SameSchema(c, disk, given) && Collected(given)
      requires Merged(FirstTable(c, disk, given).value, AllRows(c, disk, given))
      requires col < |FirstTable(c, disk, given).value.types| && i < |logParserList|
      requires Sortable(c, FirstTable(c, disk, given).value.types[col], ColumnCells(MergedRows(c, disk, given), col))
      ensures var m, p := mergedLogParser, logParserList[i];
        && m.Indexed() && p.Indexed() && col < |m.colTypes| && col < |p.colTypes|
        && Bounds(c, m.colTypes[col], col, m.rawContent, m.sortedContentByCol[col], p.rawContent,
                  p.sortedContentByCol[col])
    {
      PartHoldsFile(given, col, i);
      IndexedColumn(logParserList[i], col);
      IndexedColumn(mergedLogParser, col);
      MergedExtremesBound(c, disk, given, col, mergedLogParser.sortedContentByCol[col],
                          logFilePathList[i], logParserList[i].sortedContentByCol[col]);
    }

    /** The stored cells are the ends of the indexes. */
    lemma BoundsAreStored(p: LogParser, col: nat)
      requires mergedLogParser != null && mergedLogParser.Indexed() && p.Indexed()
      requires col < |mergedLogParser.colTypes| && col < |p.colTypes|
      requires Bounds(c, mergedLogParser.colTypes[col], col, mergedLogParser.rawContent,
                      mergedLogParser.sortedContentByCol[col], p.rawContent, p.sortedContentByCol[col])
      ensures NotBeyond(p, col)
      ensures var rows, idx := mergedLogParser.rawContent, mergedLogParser.sortedContentByCol[col];
        && (rows[idx[0]] in p.rawContent ==> ReachesMin(p, col))
        && (rows[idx[|rows| - 1]] in p.rawContent ==> ReachesMax(p, col))
    {
      IndexedColumn(p, col);
      IndexedColumn(mergedLogParser, col);
    }

    method Merge(first: LogParser, rows: seq<Row>) returns (ok: bool)
      requires first.colIndex == IndexOf(first.colNames) && Mergeable(c, first.Content(), rows)
      modifies this`mergedLogParser
      ensures ok <==> NoDup(first.colNames)
      ensures ok ==> Merged(first.Content(), rows)
    {
      IndexOfSize(first.colNames);
      var merged := new LogParser.FromRows(c, rows, first.colIndex, first.colTypes, first.colNames);
      mergedLogParser := merged;
      var outcome := merged.ParseRows();
      ok := outcome.Some? && outcome.value;
    }
  }

  /** No row is narrower than the schema, and the sums of the merged columns stay in range. */
  predicate Fits(c: CLib, schema: Table, rows: seq<Row>) {
    && (forall row :: row in rows ==> |schema.names| <= |row|)
    && SumsFit(c, Table(schema.names, schema.types, Conforming(c, schema.types, rows)))
  }

  predicate Mergeable(c: CLib, schema: Table, rows: seq<Row>) {
    && Fits(c, schema, rows) && |schema.types| == |schema.names|
    && rows != [] && Conforming(c, schema.types, rows) != []
  }

  lemma FirstIsMergeable(c: CLib, disk: Disk, paths: seq<string>)
    requires Parsable(c, disk, paths) != []
    requires FirstTable(c, disk, paths).Some? ==>
      Fits(c, FirstTable(c, disk, paths).value, AllRows(c, disk, paths))
    ensures FirstTable(c, disk, paths) == TableAt(c, disk, Parsable(c, disk, paths)[0])
    ensures FirstTable(c, disk, paths).Some?
    ensures Mergeable(c, FirstTable(c, disk, paths).value, AllRows(c, disk, paths))
  {
    var good := Parsable(c, disk, paths);
    ParsableParse(c, disk, paths);
    assert good[0] in good;
    MergedIsUnion(c, disk, paths);
    FileTableIsUniform(c, disk(good[0]).value);
  }
}
