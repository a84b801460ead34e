/**
 * The table parser of lib/extrator.py (`markdown_para_dataframe`): it turns the
 * language model's Markdown reply into rows of (TÍTULO, AUTOR, E-MAIL).
 *
 * A pandas DataFrame with the three columns is modelled as a sequence of `Row`s,
 * in the DataFrame's row order.
 */
module MarkdownTable {
  import opened Text

  /** One DataFrame row: the columns TÍTULO, AUTOR and E-MAIL, in that order. */
  datatype Row = Row(title: string, author: string, email: string)

  /** The single row returned when no line of the reply yields three cells. */
  const Sentinel: Row := Row("Erro no arquivo", "", "Tabela Markdown não reconhecida")

  /** A cell as the parser produces it: trimmed and free of the `|` delimiter. */
  predicate CleanCell(s: string) {
    IsStripped(s) && '|' !in s
  }

  predicate CleanRow(r: Row) {
    CleanCell(r.title) && CleanCell(r.author) && CleanCell(r.email)
  }

  /** The lines that contain `|`, in their original order. */
  function PipeLines(lines: seq<string>): (kept: seq<string>)
    ensures |kept| <= |lines|
    ensures forall k :: 0 <= k < |kept| ==> '|' in kept[k]
    ensures forall x :: x in kept <==> x in lines && '|' in x
  {
    if lines == [] then []
    else (if '|' in lines[0] then [lines[0]] else []) + PipeLines(lines[1..])
  }

  /** The candidate lines: the stripped reply split at line breaks, keeping only lines with a `|`. */
  function CandidateLines(reply: string): (lines: seq<string>)
    ensures |lines| <= Count(Strip(reply), '\n') + 1
    ensures forall k :: 0 <= k < |lines| ==> '|' in lines[k] && '\n' !in lines[k]
    ensures forall x :: x in lines <==> x in Split(Strip(reply), '\n') && '|' in x
  {
    PipeLines(Split(Strip(reply), '\n'))
  }

  /** Python's `lines[2:]`: everything after the header and separator lines. */
  function DropHeader(lines: seq<string>): (body: seq<string>)
    ensures |lines| >= 2 ==> lines == lines[..2] + body
    ensures |lines| < 2 ==> body == []
  {
    if |lines| >= 2 then lines[2..] else []
  }

  /**
   * The cells of one line: split at `|`, drop the first and the last segment
   * (Python's `[1:-1]`), strip each remaining segment.
   */
  function Cells(line: string): (cells: seq<string>)
    ensures '|' in line ==> |cells| == Count(line, '|') - 1
    ensures forall k :: 0 <= k < |cells| ==> CleanCell(cells[k])
  {
    var segments := Split(line, '|');
    var inner := if |segments| >= 2 then segments[1..|segments| - 1] else [];
    StripEachKeepsAbsent(inner, '|');
    seq(|inner|, k requires 0 <= k < |inner| => Strip(inner[k]))
  }

  /** The rows contributed by data lines: one per line with exactly three cells, in line order. */
  function RowsOf(lines: seq<string>): (rows: seq<Row>)
    ensures |rows| <= |lines|
    ensures forall k :: 0 <= k < |rows| ==> CleanRow(rows[k])
  {
    if lines == [] then []
    else
      var cells := Cells(lines[0]);
      (if |cells| == 3 then [Row(cells[0], cells[1], cells[2])] else []) + RowsOf(lines[1..])
  }

  /**
   * The DataFrame `markdown_para_dataframe` returns for a reply: never empty,
   * every cell trimmed and free of `|`, and the sentinel row exactly when no
   * data line yields three cells.
   */
  function TableOf(reply: string): (df: seq<Row>)
    ensures |df| >= 1
    ensures forall k :: 0 <= k < |df| ==> CleanRow(df[k])
    ensures RowsOf(DropHeader(CandidateLines(reply))) == [] ==> df == [Sentinel]
    ensures RowsOf(DropHeader(CandidateLines(reply))) != [] ==> df == RowsOf(DropHeader(CandidateLines(reply)))
  {
    var rows := RowsOf(DropHeader(CandidateLines(reply)));
    if rows == [] then SentinelClean(); [Sentinel] else rows
  }

  /** The sentinel's own cells are trimmed and free of `|`. */
  lemma SentinelClean()
    ensures CleanRow(Sentinel)
  {
    assert !IsSpace('E') && !IsSpace('o') && !IsSpace('T') && !IsSpace('a');
  }

  /** `markdown_para_dataframe`, with the loop that collects the rows of the data lines. */
  method MarkdownToDataFrame(reply: string) returns (df: seq<Row>)
    ensures df == TableOf(reply)
  {
    var lines := CandidateLines(reply);
    var body := DropHeader(lines);
    var rows: seq<Row> := [];
    for i := 0 to |body|
      invariant rows == RowsOf(body[..i])
    {
      var cells := Cells(body[i]);
      RowsOfPrefixStep(body, i);
      RowsOfSingle(body[i]);
      if |cells| == 3 {
        rows := rows + [Row(cells[0], cells[1], cells[2])];
      }
    }
    assert body[..|body|] == body;
    assert rows == RowsOf(DropHeader(CandidateLines(reply)));
    if rows == [] {
      return [Sentinel];
    }
    return rows;
  }

  /** Rows of a concatenation are the rows of each part, in order: each line is parsed on its own. */
  lemma {:induction false} RowsOfAppend(a: seq<string>, b: seq<string>)
    ensures RowsOf(a + b) == RowsOf(a) + RowsOf(b)
  {
    if a == [] {
      assert a + b == b;
    } else {
      assert (a + b)[0] == a[0];
      assert (a + b)[1..] == a[1..] + b;
      RowsOfAppend(a[1..], b);
    }
  }

  /**
   * A line with only inner pipes, like the header `TÍTULO | AUTOR | E-MAIL` in
   * the prompt's example layout, has two pipes and so never yields a row.
   */
  lemma InnerPipesGiveNoRow(a: string, b: string, c: string)
    requires '|' !in a && '|' !in b && '|' !in c
    ensures RowsOf([a + "|" + b + "|" + c]) == []
  {
    var line := a + "|" + b + "|" + c;
    CountAppend(a + "|" + b + "|", c, '|');
    CountAppend(a + "|" + b, "|", '|');
    CountAppend(a + "|", b, '|');
    CountAppend(a, "|", '|');
    assert Count(line, '|') == 2;
    assert '|' in line by { assert line[|a|] == '|'; }
    KeptIffFourPipes(line);
  }

  /** The rows of a single line: one row with its three cells, or none. */
  lemma RowsOfSingle(line: string)
    ensures RowsOf([line]) == if |Cells(line)| == 3 then [Row(Cells(line)[0], Cells(line)[1], Cells(line)[2])] else []
  {
    assert [line][1..] == [];
  }

  /** One more line of the prefix adds that line's row, if it has one. */
  lemma RowsOfPrefixStep(lines: seq<string>, i: nat)
    requires i < |lines|
    ensures RowsOf(lines[..i + 1]) == RowsOf(lines[..i]) + RowsOf([lines[i]])
  {
    assert lines[..i + 1] == lines[..i] + [lines[i]];
    RowsOfAppend(lines[..i], [lines[i]]);
  }

  /** A line that contains `|` yields a row if and only if it holds exactly four `|` characters. */
  lemma KeptIffFourPipes(line: string)
    requires '|' in line
    ensures |RowsOf([line])| == (if Count(line, '|') == 4 then 1 else 0)
    ensures Count(line, '|') == 4 ==> RowsOf([line]) == [Row(Cells(line)[0], Cells(line)[1], Cells(line)[2])]
  {
    assert [line][1..] == [];
  }

  /** Dropping a line that does not yield a row changes no other row (and their order). */
  lemma DropLineIndependent(before: seq<string>, line: string, after: seq<string>)
    requires |Cells(line)| != 3
    ensures RowsOf(before + [line] + after) == RowsOf(before + after)
  {
    RowsOfAppend(before + [line], after);
    RowsOfAppend(before, [line]);
    RowsOfAppend(before, after);
    assert [line][1..] == [];
  }

  /** A reply without `|` has no candidate line. */
  lemma NoPipeNoCandidates(reply: string)
    requires '|' !in reply
    ensures CandidateLines(reply) == []
  {
    StripKeepsAbsent(reply, '|');
    SplitKeepsAbsent(Strip(reply), '\n', '|');
    PipeLinesNone(Split(Strip(reply), '\n'));
  }

  /** Filtering concatenated lines filters each part: kept lines keep their order and their repetitions. */
  lemma {:induction false} PipeLinesAppend(a: seq<string>, b: seq<string>)
    ensures PipeLines(a + b) == PipeLines(a) + PipeLines(b)
  {
    if a == [] {
      assert a + b == b;
    } else {
      assert (a + b)[0] == a[0];
      assert (a + b)[1..] == a[1..] + b;
      PipeLinesAppend(a[1..], b);
    }
  }

  /** A line without `|` (prose around the table, a blank line) never changes the candidate lines. */
  lemma PipeLinesSkip(a: seq<string>, line: string, b: seq<string>)
    requires '|' !in line
    ensures PipeLines(a + [line] + b) == PipeLines(a + b)
  {
    PipeLinesAppend(a + [line], b);
    PipeLinesAppend(a, [line]);
    PipeLinesAppend(a, b);
    PipeLinesNone([line]);
    var pa := PipeLines(a);
    assert pa + [] == pa;
  }

  /**
   * A reply with an extra line without `|` (an introduction such as "Aqui está
   * a tabela:", an empty line) gives the same DataFrame as the reply without it.
   */
  lemma ProseLineIgnored(withProse: string, without: string, a: seq<string>, line: string, b: seq<string>)
    requires Split(Strip(withProse), '\n') == a + [line] + b
    requires Split(Strip(without), '\n') == a + b
    requires '|' !in line
    ensures TableOf(withProse) == TableOf(without)
  {
    PipeLinesSkip(a, line, b);
  }

  lemma {:induction false} PipeLinesNone(lines: seq<string>)
    requires forall k :: 0 <= k < |lines| ==> '|' !in lines[k]
    ensures PipeLines(lines) == []
  {
    if lines != [] {
      PipeLinesNone(lines[1..]);
    }
  }

  /** A reply without any `|` yields exactly the sentinel row. */
  lemma NoPipeGivesSentinel(reply: string)
    requires '|' !in reply
    ensures TableOf(reply) == [Sentinel]
  {
    NoPipeNoCandidates(reply);
  }

  /** A cell that survives being written into a Markdown row: clean and on one line. */
  predicate WritableCell(s: string) {
    CleanCell(s) && '\n' !in s
  }

  predicate WritableRow(r: Row) {
    WritableCell(r.title) && WritableCell(r.author) && WritableCell(r.email)
  }

  /** The whitespace written in front of and behind one cell of a data line. */
  datatype Pad = Pad(before: string, after: string)

  /** How a data line is laid out: the padding of each of its three cells. */
  datatype Layout = Layout(title: Pad, author: Pad, email: Pad)

  /** The usual layout, one space on each side of every cell: `| t | a | e |`. */
  const Spaced := Layout(Pad(" ", " "), Pad(" ", " "), Pad(" ", " "))

  /** Padding that stays on its line: whitespace other than a line break. */
  predicate BlankPad(p: Pad) {
    AllSpace(p.before) && AllSpace(p.after) && '\n' !in p.before && '\n' !in p.after
  }

  predicate BlankLayout(l: Layout) {
    BlankPad(l.title) && BlankPad(l.author) && BlankPad(l.email)
  }

  /** A cell as written between two pipes: its text with the padding around it. */
  function Padded(p: Pad, text: string): (cell: string)
    ensures |cell| == |p.before| + |text| + |p.after|
  {
    p.before + text + p.after
  }

  /**
   * A Markdown pipe-table data line with outer pipes, laid out by `l`: the
   * spaced `| t | a | e |`, the compact `|t|a|e|`, column-aligned cells, or
   * `| t | a | |` for an empty last cell.
   */
  function RenderRow(r: Row, l: Layout): (line: string) {
    "|" + Padded(l.title, r.title) + "|" + Padded(l.author, r.author) + "|" + Padded(l.email, r.email) + "|"
  }

  function RenderRows(rows: seq<Row>, layouts: seq<Layout>): (lines: seq<string>)
    requires |layouts| == |rows|
    ensures |lines| == |rows|
    ensures forall k :: 0 <= k < |rows| ==> lines[k] == RenderRow(rows[k], layouts[k])
  {
    if rows == [] then [] else [RenderRow(rows[0], layouts[0])] + RenderRows(rows[1..], layouts[1..])
  }

  /** A whole reply: a header line, a separator line and one data line per row. */
  function RenderTable(header: string, separator: string, rows: seq<Row>, layouts: seq<Layout>): (reply: string)
    requires |layouts| == |rows|
  {
    Join([header, separator] + RenderRows(rows, layouts), '\n')
  }

  /** The `|`-separated segments of a written row: an empty one at each end, the padded cells between. */
  function RowSegments(r: Row, l: Layout): (segments: seq<string>) {
    ["", Padded(l.title, r.title), Padded(l.author, r.author), Padded(l.email, r.email), ""]
  }

  lemma RenderRowJoin(r: Row, l: Layout)
    ensures Join(RowSegments(r, l), '|') == RenderRow(r, l)
  {
    var segments := RowSegments(r, l);
    assert Join(segments[4..], '|') == "";
    assert Join(segments[3..], '|') == segments[3] + "|";
    assert Join(segments[2..], '|') == segments[2] + "|" + segments[3] + "|";
    assert Join(segments[1..], '|') == segments[1] + "|" + segments[2] + "|" + segments[3] + "|";
  }

  /** Whitespace holds no `|`. */
  lemma SpaceHasNoPipe(s: string)
    requires AllSpace(s)
    ensures '|' !in s
  {
    assert !IsSpace('|');
  }

  /** A clean one-line cell with blank padding holds no `|` and no line break. */
  lemma PaddedIsPlain(p: Pad, text: string)
    requires BlankPad(p) && WritableCell(text)
    ensures '|' !in Padded(p, text) && '\n' !in Padded(p, text)
  {
    SpaceHasNoPipe(p.before);
    SpaceHasNoPipe(p.after);
  }

  lemma RenderRowSplit(r: Row, l: Layout)
    requires WritableRow(r) && BlankLayout(l)
    ensures Split(RenderRow(r, l), '|') == RowSegments(r, l)
  {
    var segments := RowSegments(r, l);
    PaddedIsPlain(l.title, r.title);
    PaddedIsPlain(l.author, r.author);
    PaddedIsPlain(l.email, r.email);
    forall k | 0 <= k < |segments| ensures '|' !in segments[k] {
    }
    RenderRowJoin(r, l);
    SplitJoin(segments, '|');
  }

  /** A written row splits back into its three cells, whatever whitespace surrounds them. */
  lemma RenderRowCells(r: Row, l: Layout)
    requires WritableRow(r) && BlankLayout(l)
    ensures Cells(RenderRow(r, l)) == [r.title, r.author, r.email]
  {
    RenderRowSplit(r, l);
    CellsOfSegments(RenderRow(r, l), RowSegments(r, l));
    StripPadded(l.title.before, r.title, l.title.after);
    StripPadded(l.author.before, r.author, l.author.after);
    StripPadded(l.email.before, r.email, l.email.after);
  }

  /** A row with an empty last cell, written `| t | a | |` as the prompt allows, yields `t`, `a` and an empty cell. */
  lemma BlankLastCell(t: string, a: string)
    requires WritableCell(t) && WritableCell(a)
    ensures Cells("| " + t + " | " + a + " | |") == [t, a, ""]
  {
    var l := Layout(Pad(" ", " "), Pad(" ", " "), Pad(" ", ""));
    assert BlankLayout(l) by {
      assert IsSpace(' ');
    }
    RenderRowCells(Row(t, a, ""), l);
    BlankLastCellLine(t, a);
  }

  /** `| t | a | |` is the row with an empty last cell written with a single space. */
  lemma BlankLastCellLine(t: string, a: string)
    ensures RenderRow(Row(t, a, ""), Layout(Pad(" ", " "), Pad(" ", " "), Pad(" ", ""))) == "| " + t + " | " + a + " | |"
  {
    var title := " " + t + " ";
    var author := " " + a + " ";
    assert Padded(Pad(" ", ""), "") == " ";
    assert "|" + title + "|" + author + "|" + " " + "|" == "| " + t + " | " + a + " | |";
  }

  /** The cells of a line whose split into segments is known: the stripped inner segments. */
  lemma CellsOfSegments(line: string, segments: seq<string>)
    requires Split(line, '|') == segments && |segments| == 5
    ensures Cells(line) == [Strip(segments[1]), Strip(segments[2]), Strip(segments[3])]
  {
  }

  lemma {:induction false} RowsOfRendered(rows: seq<Row>, layouts: seq<Layout>)
    requires |layouts| == |rows|
    requires forall k :: 0 <= k < |rows| ==> WritableRow(rows[k]) && BlankLayout(layouts[k])
    ensures RowsOf(RenderRows(rows, layouts)) == rows
  {
    if rows != [] {
      var lines := RenderRows(rows, layouts);
      assert lines == [lines[0]] + lines[1..];
      RowsOfAppend([lines[0]], lines[1..]);
      RenderRowCells(rows[0], layouts[0]);
      RowsOfSingle(lines[0]);
      RowsOfRendered(rows[1..], layouts[1..]);
      assert lines[1..] == RenderRows(rows[1..], layouts[1..]);
    }
  }

  lemma {:induction false} PipeLinesAll(lines: seq<string>)
    requires forall k :: 0 <= k < |lines| ==> '|' in lines[k]
    ensures PipeLines(lines) == lines
  {
    if lines != [] {
      PipeLinesAll(lines[1..]);
    }
  }

  /** The last character of joined parts is the last character of the last part. */
  lemma {:induction false} JoinLast(parts: seq<string>, sep: char)
    requires |parts| >= 1 && parts[|parts| - 1] != []
    ensures Join(parts, sep) != []
    ensures Join(parts, sep)[|Join(parts, sep)| - 1] == parts[|parts| - 1][|parts[|parts| - 1]| - 1]
  {
    if |parts| > 1 {
      JoinLast(parts[1..], sep);
    }
  }

  /**
   * Round trip: a three-column table with at least one data row, surrounded
   * by any whitespace (blank lines before it, a final line break after it),
   * parses back to exactly its rows, in order, whatever whitespace each data
   * line puts around its cells. The header and separator lines only need a
   * `|` and no line break; they never contribute a row, even when they hold
   * four `|` characters themselves.
   */
  lemma RenderedTableRoundTrip(before: string, header: string, separator: string, rows: seq<Row>, layouts: seq<Layout>, after: string)
    requires AllSpace(before) && AllSpace(after)
    requires '|' in header && '|' in separator
    requires '\n' !in header && '\n' !in separator
    requires !IsSpace(header[0])
    requires rows != [] && |layouts| == |rows|
    requires forall k :: 0 <= k < |rows| ==> WritableRow(rows[k]) && BlankLayout(layouts[k])
    ensures TableOf(before + RenderTable(header, separator, rows, layouts) + after) == rows
  {
    var lines := [header, separator] + RenderRows(rows, layouts);
    var reply := RenderTable(header, separator, rows, layouts);
    RenderTableStripped(header, separator, rows, layouts);
    StripPadded(before, reply, after);
    RenderTableLines(header, separator, rows, layouts);
    assert DropHeader(lines) == RenderRows(rows, layouts);
    RowsOfRendered(rows, layouts);
  }

  /** A rendered table starts with the header's first character and ends with a `|`. */
  lemma RenderTableStripped(header: string, separator: string, rows: seq<Row>, layouts: seq<Layout>)
    requires '|' in header && !IsSpace(header[0])
    requires rows != [] && |layouts| == |rows|
    ensures IsStripped(RenderTable(header, separator, rows, layouts))
  {
    var lines := [header, separator] + RenderRows(rows, layouts);
    var last := RenderRow(rows[|rows| - 1], layouts[|rows| - 1]);
    assert lines[|lines| - 1] == last;
    assert last[|last| - 1] == '|';
    JoinLast(lines, '\n');
    assert RenderTable(header, separator, rows, layouts)[0] == header[0];
  }

  /** Every line of a rendered table is a candidate line. */
  lemma RenderTableLines(header: string, separator: string, rows: seq<Row>, layouts: seq<Layout>)
    requires '|' in header && '|' in separator
    requires '\n' !in header && '\n' !in separator
    requires |layouts| == |rows|
    requires forall k :: 0 <= k < |rows| ==> WritableRow(rows[k]) && BlankLayout(layouts[k])
    ensures PipeLines(Split(RenderTable(header, separator, rows, layouts), '\n')) == [header, separator] + RenderRows(rows, layouts)
  {
    var lines := [header, separator] + RenderRows(rows, layouts);
    TableLinesArePipeLines(header, separator, rows, layouts);
    JoinedPipeLines(lines);
    assert RenderTable(header, separator, rows, layouts) == Join(lines, '\n');
  }

  /** Each line of a rendered table contains `|` and no line break. */
  lemma TableLinesArePipeLines(header: string, separator: string, rows: seq<Row>, layouts: seq<Layout>)
    requires '|' in header && '|' in separator
    requires '\n' !in header && '\n' !in separator
    requires |layouts| == |rows|
    requires forall k :: 0 <= k < |rows| ==> WritableRow(rows[k]) && BlankLayout(layouts[k])
    ensures forall k :: 0 <= k < |rows| + 2 ==>
      '|' in ([header, separator] + RenderRows(rows, layouts))[k] && '\n' !in ([header, separator] + RenderRows(rows, layouts))[k]
  {
    var lines := [header, separator] + RenderRows(rows, layouts);
    RenderRowsAreLines(rows, layouts);
    forall k | 0 <= k < |lines|
      ensures '|' in lines[k] && '\n' !in lines[k]
    {
      if k == 0 {
        assert lines[k] == header;
      } else if k == 1 {
        assert lines[k] == separator;
      } else {
        assert lines[k] == RenderRows(rows, layouts)[k - 2];
      }
    }
  }

  /** Lines that each contain `|` and no line break survive joining, splitting and filtering unchanged. */
  lemma JoinedPipeLines(lines: seq<string>)
    requires |lines| >= 1
    requires forall k :: 0 <= k < |lines| ==> '|' in lines[k] && '\n' !in lines[k]
    ensures PipeLines(Split(Join(lines, '\n'), '\n')) == lines
  {
    SplitJoin(lines, '\n');
    PipeLinesAll(lines);
  }

  /** Each written data row is one line containing `|`. */
  lemma RenderRowsAreLines(rows: seq<Row>, layouts: seq<Layout>)
    requires |layouts| == |rows|
    requires forall k :: 0 <= k < |rows| ==> WritableRow(rows[k]) && BlankLayout(layouts[k])
    ensures forall k :: 0 <= k < |rows| ==> '|' in RenderRows(rows, layouts)[k] && '\n' !in RenderRows(rows, layouts)[k]
  {
    forall k | 0 <= k < |rows|
      ensures '|' in RenderRows(rows, layouts)[k] && '\n' !in RenderRows(rows, layouts)[k]
    {
      RenderRowIsLine(rows[k], layouts[k]);
    }
  }

  /** A written row is one line containing `|`. */
  lemma RenderRowIsLine(r: Row, l: Layout)
    requires WritableRow(r) && BlankLayout(l)
    ensures '|' in RenderRow(r, l) && '\n' !in RenderRow(r, l)
  {
    var line := RenderRow(r, l);
    assert line[0] == '|';
    PaddedIsPlain(l.title, r.title);
    PaddedIsPlain(l.author, r.author);
    PaddedIsPlain(l.email, r.email);
  }
}
