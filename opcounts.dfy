/**
 * The data side of `plot_opcounts`
 * (darshan-util/pydarshan/darshan/experimental/plots/plot_opcounts.py):
 * turning the aggregated per-layer operation counters into four rows of seven
 * bars (Read, Write, Open, Stat, Seek, Mmap, Fsync), and `as_csv`, which writes
 * those rows as text.
 */
module OpCounts {
  import opened DarshanTypes
  import opened TextFormat

  /** One layer's entry of `self.summary['agg_ioops']`: counter name to value. */
  type LayerCounters = map<string, int>
  /** `self.summary['agg_ioops']`: layer name to its counters. */
  type Summary = map<string, LayerCounters>

  /** `labels`: the seven operation kinds, one bar each. */
  const Labels: seq<string> := ["Read", "Write", "Open", "Stat", "Seek", "Mmap", "Fsync"]

  const ReadSlot: nat := 0
  const WriteSlot: nat := 1
  const OpenSlot: nat := 2
  const StatSlot: nat := 3
  const SeekSlot: nat := 4
  const MmapSlot: nat := 5
  const FsyncSlot: nat := 6

  /** The default row of a layer the summary does not mention. */
  const ZeroRow: seq<int> := [0, 0, 0, 0, 0, 0, 0]

  /** The counters each layer's row reads, in the order Python evaluates them. */
  const PosixKeys: seq<string> :=
    ["POSIX_READS", "POSIX_WRITES", "POSIX_OPENS", "POSIX_STATS", "POSIX_SEEKS", "POSIX_FSYNCS", "POSIX_FDSYNCS"]
  const MpiioKeys: seq<string> :=
    ["MPIIO_INDEP_READS", "MPIIO_INDEP_WRITES", "MPIIO_INDEP_OPENS",
     "MPIIO_COLL_READS", "MPIIO_COLL_WRITES", "MPIIO_COLL_OPENS", "MPIIO_SYNCS"]
  const StdioKeys: seq<string> :=
    ["STDIO_READS", "STDIO_WRITES", "STDIO_OPENS", "STDIO_SEEKS", "STDIO_FLUSHES"]

  /** The `KeyError` Python raises when a layer's dictionary lacks a counter. */
  datatype KeyError = KeyError(key: string)

  /** The position of the first of `keys[from..]` that `d` lacks, if any. */
  function FirstMissing(d: LayerCounters, keys: seq<string>, from: nat): (r: Option<nat>)
    requires from <= |keys|
    ensures r.None? <==> forall k :: from <= k < |keys| ==> keys[k] in d
    ensures r.Some? ==> from <= r.value < |keys| && keys[r.value] !in d
    ensures r.Some? ==> forall k :: from <= k < r.value ==> keys[k] in d
    decreases |keys| - from
  {
    if from == |keys| then None
    else if keys[from] !in d then Some(from)
    else FirstMissing(d, keys, from + 1)
  }

  /** `d` has every one of `keys`. */
  predicate HasAll(d: LayerCounters, keys: seq<string>)
  {
    forall key :: key in keys ==> key in d
  }

  /** Looks up `keys` in order: the first missing one raises. */
  function Lookup(d: LayerCounters, keys: seq<string>): (r: Result<(), KeyError>)
    ensures r.Success? <==> HasAll(d, keys)
    ensures r.Failure? ==> r.error.key in keys && r.error.key !in d
    ensures r.Failure? ==> exists i :: 0 <= i < |keys| && keys[i] == r.error.key && forall k :: 0 <= k < i ==> keys[k] in d
  {
    match FirstMissing(d, keys, 0)
    case None => Success(())
    case Some(i) => Failure(KeyError(keys[i]))
  }

  /** The four rows `plot_opcounts` plots, one per I/O layer. */
  datatype Rows = Rows(posix: seq<int>, mpiInd: seq<int>, mpiCol: seq<int>, stdio: seq<int>)

  /**
   * `posix_vals`: zeros without a POSIX entry; otherwise reads, writes, opens,
   * stats, seeks, an mmap bar held at 0, and fsyncs plus fdatasyncs.
   */
  function PosixRow(mods: Summary): (r: Result<seq<int>, KeyError>)
    ensures "POSIX" !in mods ==> r == Success(ZeroRow)
    ensures "POSIX" in mods ==> (r.Success? <==> HasAll(mods["POSIX"], PosixKeys))
    ensures r.Failure? ==> "POSIX" in mods && r.error.key in PosixKeys && r.error.key !in mods["POSIX"]
    ensures r.Failure? ==> "POSIX" in mods && Lookup(mods["POSIX"], PosixKeys) == Failure(r.error)
    ensures r.Success? ==> |r.value| == |Labels| && r.value[MmapSlot] == 0
    ensures r.Success? && "POSIX" in mods ==>
              var p := mods["POSIX"];
              && r.value[ReadSlot] == p["POSIX_READS"]
              && r.value[WriteSlot] == p["POSIX_WRITES"]
              && r.value[OpenSlot] == p["POSIX_OPENS"]
              && r.value[StatSlot] == p["POSIX_STATS"]
              && r.value[SeekSlot] == p["POSIX_SEEKS"]
              && r.value[FsyncSlot] == p["POSIX_FSYNCS"] + p["POSIX_FDSYNCS"]
  {
    if "POSIX" !in mods then Success(ZeroRow)
    else
      var p := mods["POSIX"];
      match Lookup(p, PosixKeys)
      case Failure(e) => Failure(e)
      case Success(_) =>
        Success([p["POSIX_READS"], p["POSIX_WRITES"], p["POSIX_OPENS"], p["POSIX_STATS"], p["POSIX_SEEKS"],
                 0, p["POSIX_FSYNCS"] + p["POSIX_FDSYNCS"]])
  }

  /**
   * `mpiind_vals` and `mpicol_vals`: zeros without an MPI-IO entry; otherwise
   * the independent and the collective read, write and open counts, with
   * stat, seek and mmap at 0, and the syncs on the collective row only.
   */
  function MpiioRows(mods: Summary): (r: Result<(seq<int>, seq<int>), KeyError>)
    ensures "MPI-IO" !in mods ==> r == Success((ZeroRow, ZeroRow))
    ensures "MPI-IO" in mods ==> (r.Success? <==> HasAll(mods["MPI-IO"], MpiioKeys))
    ensures r.Failure? ==> "MPI-IO" in mods && r.error.key in MpiioKeys && r.error.key !in mods["MPI-IO"]
    ensures r.Failure? ==> "MPI-IO" in mods && Lookup(mods["MPI-IO"], MpiioKeys) == Failure(r.error)
    ensures r.Success? ==>
              var (ind, col) := r.value;
              && |ind| == |Labels| && |col| == |Labels|
              && ind[StatSlot] == 0 && ind[SeekSlot] == 0 && ind[MmapSlot] == 0 && ind[FsyncSlot] == 0
              && col[StatSlot] == 0 && col[SeekSlot] == 0 && col[MmapSlot] == 0
    ensures r.Success? && "MPI-IO" in mods ==>
              var m := mods["MPI-IO"];
              var (ind, col) := r.value;
              && ind[ReadSlot] == m["MPIIO_INDEP_READS"]
              && ind[WriteSlot] == m["MPIIO_INDEP_WRITES"]
              && ind[OpenSlot] == m["MPIIO_INDEP_OPENS"]
              && col[ReadSlot] == m["MPIIO_COLL_READS"]
              && col[WriteSlot] == m["MPIIO_COLL_WRITES"]
              && col[OpenSlot] == m["MPIIO_COLL_OPENS"]
              && col[FsyncSlot] == m["MPIIO_SYNCS"]
  {
    if "MPI-IO" !in mods then Success((ZeroRow, ZeroRow))
    else
      var m := mods["MPI-IO"];
      match Lookup(m, MpiioKeys)
      case Failure(e) => Failure(e)
      case Success(_) =>
        Success(([m["MPIIO_INDEP_READS"], m["MPIIO_INDEP_WRITES"], m["MPIIO_INDEP_OPENS"], 0, 0, 0, 0],
                 [m["MPIIO_COLL_READS"], m["MPIIO_COLL_WRITES"], m["MPIIO_COLL_OPENS"], 0, 0, 0, m["MPIIO_SYNCS"]]))
  }

  /**
   * `stdio_vals`: zeros without a STDIO entry; otherwise reads, writes, opens,
   * no stats, seeks, no mmaps, and flushes in the sync column.
   */
  function StdioRow(mods: Summary): (r: Result<seq<int>, KeyError>)
    ensures "STDIO" !in mods ==> r == Success(ZeroRow)
    ensures "STDIO" in mods ==> (r.Success? <==> HasAll(mods["STDIO"], StdioKeys))
    ensures r.Failure? ==> "STDIO" in mods && r.error.key in StdioKeys && r.error.key !in mods["STDIO"]
    ensures r.Failure? ==> "STDIO" in mods && Lookup(mods["STDIO"], StdioKeys) == Failure(r.error)
    ensures r.Success? ==> |r.value| == |Labels| && r.value[StatSlot] == 0 && r.value[MmapSlot] == 0
    ensures r.Success? && "STDIO" in mods ==>
              var s := mods["STDIO"];
              && r.value[ReadSlot] == s["STDIO_READS"]
              && r.value[WriteSlot] == s["STDIO_WRITES"]
              && r.value[OpenSlot] == s["STDIO_OPENS"]
              && r.value[SeekSlot] == s["STDIO_SEEKS"]
              && r.value[FsyncSlot] == s["STDIO_FLUSHES"]
  {
    if "STDIO" !in mods then Success(ZeroRow)
    else
      var s := mods["STDIO"];
      match Lookup(s, StdioKeys)
      case Failure(e) => Failure(e)
      case Success(_) =>
        Success([s["STDIO_READS"], s["STDIO_WRITES"], s["STDIO_OPENS"], 0, s["STDIO_SEEKS"], 0, s["STDIO_FLUSHES"]])
  }

  /** Every row has one entry per label. */
  predicate Shaped(rows: Rows)
  {
    |rows.posix| == |Labels| && |rows.mpiInd| == |Labels| && |rows.mpiCol| == |Labels| && |rows.stdio| == |Labels|
  }

  /**
   * The row building of `plot_opcounts`, in its order: POSIX, then MPI-IO, then
   * STDIO; the first missing counter raises. Every row built has seven
   * entries, and no layer ever reports an mmap.
   */
  function GatherRows(mods: Summary): (r: Result<Rows, KeyError>)
    ensures r.Success? <==> PosixRow(mods).Success? && MpiioRows(mods).Success? && StdioRow(mods).Success?
    ensures r.Success? ==> Shaped(r.value)
    ensures r.Success? ==>
              r.value.posix[MmapSlot] == 0 && r.value.mpiInd[MmapSlot] == 0
              && r.value.mpiCol[MmapSlot] == 0 && r.value.stdio[MmapSlot] == 0
    ensures r.Success? ==> r.value.posix == PosixRow(mods).value && r.value.stdio == StdioRow(mods).value
    ensures r.Success? ==> (r.value.mpiInd, r.value.mpiCol) == MpiioRows(mods).value
    ensures PosixRow(mods).Failure? ==> r == Failure(PosixRow(mods).error)
    ensures PosixRow(mods).Success? && MpiioRows(mods).Failure? ==> r == Failure(MpiioRows(mods).error)
    ensures PosixRow(mods).Success? && MpiioRows(mods).Success? && StdioRow(mods).Failure? ==>
              r == Failure(StdioRow(mods).error)
  {
    match PosixRow(mods)
    case Failure(e) => Failure(e)
    case Success(posix) =>
      match MpiioRows(mods)
      case Failure(e) => Failure(e)
      case Success((ind, col)) =>
        match StdioRow(mods)
        case Failure(e) => Failure(e)
        case Success(stdio) => Success(Rows(posix, ind, col, stdio))
  }

  /** A summary without any of the three layers plots four rows of zeros. */
  lemma EmptySummaryPlotsZeros(mods: Summary)
    requires "POSIX" !in mods && "MPI-IO" !in mods && "STDIO" !in mods
    ensures GatherRows(mods) == Success(Rows(ZeroRow, ZeroRow, ZeroRow, ZeroRow))
  {
  }

  /** The header line: the labels, then the layer column. */
  const HeaderLine: string := Join(Labels, ',') + ",Layer"

  /** One row's line: `','.join(str(x) for x in row) + ',' + tag`. */
  function RowLine(row: seq<int>, tag: string): (line: string)
  {
    Join(Strings(row), ',') + [','] + tag
  }

  /** Lines of text, each followed by a newline. */
  function Terminated(lines: seq<string>): (text: string)
    decreases |lines|
  {
    if |lines| == 0 then "" else lines[0] + "\n" + Terminated(lines[1..])
  }

  lemma {:induction false} TerminatedSnoc(lines: seq<string>, line: string)
    ensures Terminated(lines + [line]) == Terminated(lines) + line + "\n"
    decreases |lines|
  {
    if |lines| > 0 {
      TerminatedSnoc(lines[1..], line);
      assert (lines + [line])[1..] == lines[1..] + [line];
    }
  }

  /** Splitting newline-terminated lines gives the lines and a final empty piece. */
  lemma {:induction false} SplitTerminated(lines: seq<string>)
    requires forall k :: 0 <= k < |lines| ==> '\n' !in lines[k]
    ensures Split(Terminated(lines), '\n') == lines + [""]
    decreases |lines|
  {
    if |lines| > 0 {
      SplitTerminated(lines[1..]);
      SplitAfter(lines[0], '\n', Terminated(lines[1..]));
      assert lines[0] + "\n" + Terminated(lines[1..]) == lines[0] + ['\n'] + Terminated(lines[1..]);
    }
  }

  /** Reads one row line back: its cells, the last of which must be `tag`. */
  function ParseRowLine(line: string, tag: string): (row: Option<seq<int>>)
  {
    var cells := Split(line, ',');
    if |cells| >= 2 && cells[|cells| - 1] == tag then ParseInts(cells[..|cells| - 1]) else None
  }

  /**
   * Reads the CSV text back: five newline-terminated lines, the header, then
   * the POSIX, MPIIND, MPICOL and STDIO rows in that order.
   */
  function ParseCsv(text: string): (rows: Option<Rows>)
  {
    var lines := Split(text, '\n');
    if |lines| != 6 || lines[5] != "" || Split(lines[0], ',') != Labels + ["Layer"] then None
    else
      match (ParseRowLine(lines[1], "POSIX"), ParseRowLine(lines[2], "MPIIND"),
             ParseRowLine(lines[3], "MPICOL"), ParseRowLine(lines[4], "STDIO"))
      case (Some(p), Some(i), Some(c), Some(s)) => Some(Rows(p, i, c, s))
      case _ => None
  }

  lemma {:induction false} JoinWithout(parts: seq<string>, sep: char, c: char)
    requires c != sep
    requires forall k :: 0 <= k < |parts| ==> c !in parts[k]
    ensures c !in Join(parts, sep)
    decreases |parts|
  {
    if |parts| > 1 {
      JoinWithout(parts[1..], sep, c);
    }
  }

  /** Neither separator occurs inside a cell `str` produces. */
  lemma StringsWithoutSeparators(row: seq<int>)
    ensures forall k :: 0 <= k < |Strings(row)| ==> ',' !in Strings(row)[k] && '\n' !in Strings(row)[k]
  {
    forall k | 0 <= k < |Strings(row)|
      ensures ',' !in Strings(row)[k] && '\n' !in Strings(row)[k]
    {
      IntToStringHasNo(row[k], ',');
      IntToStringHasNo(row[k], '\n');
    }
  }

  lemma HeaderLineCells()
    ensures Split(HeaderLine, ',') == Labels + ["Layer"]
    ensures '\n' !in HeaderLine
  {
    var cells := Labels + ["Layer"];
    assert forall k :: 0 <= k < |cells| ==> ',' !in cells[k] && '\n' !in cells[k];
    JoinSnoc(Labels, "Layer", ',');
    assert ",Layer" == [','] + "Layer";
    assert HeaderLine == Join(Labels, ',') + [','] + "Layer";
    assert Join(cells, ',') == HeaderLine;
    SplitJoin(cells, ',');
    JoinWithout(cells, ',', '\n');
  }

  /** A row line holds no newline when its tag holds none. */
  lemma RowLineHasNoNewline(row: seq<int>, tag: string)
    requires '\n' !in tag
    ensures '\n' !in RowLine(row, tag)
  {
    StringsWithoutSeparators(row);
    JoinWithout(Strings(row), ',', '\n');
  }

  /** A row line holds no newline, and a non-empty row reads back from it. */
  lemma RowLineRoundTrip(row: seq<int>, tag: string)
    requires ',' !in tag && '\n' !in tag
    ensures '\n' !in RowLine(row, tag)
    ensures |row| > 0 ==> ParseRowLine(RowLine(row, tag), tag) == Some(row)
  {
    StringsWithoutSeparators(row);
    JoinWithout(Strings(row), ',', '\n');
    if |row| > 0 {
      var cells := Strings(row) + [tag];
      JoinSnoc(Strings(row), tag, ',');
      SplitJoin(cells, ',');
      assert cells[..|cells| - 1] == Strings(row);
      ParseIntsRoundTrip(row);
    }
  }

  /** The five lines `as_csv` writes: the header, then one line per layer. */
  function CsvLines(rows: Rows): (lines: seq<string>)
    ensures |lines| == 5 && lines[0] == HeaderLine
  {
    [HeaderLine, RowLine(rows.posix, "POSIX"), RowLine(rows.mpiInd, "MPIIND"),
     RowLine(rows.mpiCol, "MPICOL"), RowLine(rows.stdio, "STDIO")]
  }

  /** The newline-terminated lines split back into the lines and a final empty piece. */
  lemma CsvLinesSplit(rows: Rows)
    ensures Split(Terminated(CsvLines(rows)), '\n') == CsvLines(rows) + [""]
  {
    var lines := CsvLines(rows);
    HeaderLineCells();
    RowLineHasNoNewline(rows.posix, "POSIX");
    RowLineHasNoNewline(rows.mpiInd, "MPIIND");
    RowLineHasNoNewline(rows.mpiCol, "MPICOL");
    RowLineHasNoNewline(rows.stdio, "STDIO");
    assert forall k :: 0 <= k < |lines| ==> '\n' !in lines[k];
    SplitTerminated(lines);
  }

  /** Each of the four row lines reads back as its row. */
  lemma RowLinesRoundTrip(rows: Rows)
    requires Shaped(rows)
    ensures ParseRowLine(RowLine(rows.posix, "POSIX"), "POSIX") == Some(rows.posix)
    ensures ParseRowLine(RowLine(rows.mpiInd, "MPIIND"), "MPIIND") == Some(rows.mpiInd)
    ensures ParseRowLine(RowLine(rows.mpiCol, "MPICOL"), "MPICOL") == Some(rows.mpiCol)
    ensures ParseRowLine(RowLine(rows.stdio, "STDIO"), "STDIO") == Some(rows.stdio)
  {
    RowLineRoundTrip(rows.posix, "POSIX");
    RowLineRoundTrip(rows.mpiInd, "MPIIND");
    RowLineRoundTrip(rows.mpiCol, "MPICOL");
    RowLineRoundTrip(rows.stdio, "STDIO");
  }

  /** Text that splits into the five lines reads back as the rows its row lines read back as. */
  lemma ParseCsvOfLines(text: string, rows: Rows)
    requires Split(text, '\n') == CsvLines(rows) + [""]
    requires ParseRowLine(RowLine(rows.posix, "POSIX"), "POSIX") == Some(rows.posix)
    requires ParseRowLine(RowLine(rows.mpiInd, "MPIIND"), "MPIIND") == Some(rows.mpiInd)
    requires ParseRowLine(RowLine(rows.mpiCol, "MPICOL"), "MPICOL") == Some(rows.mpiCol)
    requires ParseRowLine(RowLine(rows.stdio, "STDIO"), "STDIO") == Some(rows.stdio)
    ensures ParseCsv(text) == Some(rows)
  {
    var lines := Split(text, '\n');
    HeaderLineCells();
    assert |lines| == 6 && lines[5] == "" && Split(lines[0], ',') == Labels + ["Layer"];
    assert lines[1] == RowLine(rows.posix, "POSIX") && lines[2] == RowLine(rows.mpiInd, "MPIIND");
    assert lines[3] == RowLine(rows.mpiCol, "MPICOL") && lines[4] == RowLine(rows.stdio, "STDIO");
  }

  /** The text of the five newline-terminated lines reads back as its rows. */
  lemma CsvRoundTrip(rows: Rows)
    requires Shaped(rows)
    ensures ParseCsv(Terminated(CsvLines(rows))) == Some(rows)
  {
    CsvLinesSplit(rows);
    RowLinesRoundTrip(rows);
    ParseCsvOfLines(Terminated(CsvLines(rows)), rows);
  }

  /** What the text of the five lines promises: its shape, and that it reads back. */
  lemma CsvText(rows: Rows)
    ensures Split(Terminated(CsvLines(rows)), '\n') == CsvLines(rows) + [""]
    ensures var lines := Split(Terminated(CsvLines(rows)), '\n');
            && |lines| == 6 && lines[5] == ""
            && Split(lines[0], ',') == Labels + ["Layer"]
    ensures Shaped(rows) ==> ParseCsv(Terminated(CsvLines(rows))) == Some(rows)
  {
    CsvLinesSplit(rows);
    HeaderLineCells();
    if Shaped(rows) {
      CsvRoundTrip(rows);
    }
  }

  /** The header statement of `as_csv` writes the header line. */
  lemma AppendHeaderLine()
    ensures "" + Join(Labels, ',') + ",Layer" + "\n" == Terminated([HeaderLine])
  {
  }

  /** Appending one `as_csv` row statement's text adds that row's line. */
  lemma AppendRowLine(lines: seq<string>, text: string, row: seq<int>, tag: string, csvTag: string)
    requires text == Terminated(lines)
    requires csvTag == [','] + tag
    ensures text + Join(Strings(row), ',') + csvTag + "\n" == Terminated(lines + [RowLine(row, tag)])
  {
    TerminatedSnoc(lines, RowLine(row, tag));
  }

  /**
   * `as_csv`: five newline-terminated lines, the header and then the four
   * rows, each tagged with its layer. The text determines the rows: reading
   * it back gives them again.
   */
  method AsCsv(rows: Rows) returns (text: string)
    ensures text == Terminated(CsvLines(rows))
    ensures var lines := Split(text, '\n');
            && |lines| == 6 && lines[5] == ""
            && Split(lines[0], ',') == Labels + ["Layer"]
    ensures Shaped(rows) ==> ParseCsv(text) == Some(rows)
  {
    text := "";
    AppendHeaderLine();
    text := text + Join(Labels, ',') + ",Layer" + "\n";
    ghost var lines := [HeaderLine];
    AppendRowLine(lines, text, rows.posix, "POSIX", ",POSIX");
    text := text + Join(Strings(rows.posix), ',') + ",POSIX" + "\n";
    lines := lines + [RowLine(rows.posix, "POSIX")];
    AppendRowLine(lines, text, rows.mpiInd, "MPIIND", ",MPIIND");
    text := text + Join(Strings(rows.mpiInd), ',') + ",MPIIND" + "\n";
    lines := lines + [RowLine(rows.mpiInd, "MPIIND")];
    AppendRowLine(lines, text, rows.mpiCol, "MPICOL", ",MPICOL");
    text := text + Join(Strings(rows.mpiCol), ',') + ",MPICOL" + "\n";
    lines := lines + [RowLine(rows.mpiCol, "MPICOL")];
    AppendRowLine(lines, text, rows.stdio, "STDIO", ",STDIO");
    text := text + Join(Strings(rows.stdio), ',') + ",STDIO" + "\n";
    lines := lines + [RowLine(rows.stdio, "STDIO")];
    assert lines == CsvLines(rows);
    CsvText(rows);
  }
}
