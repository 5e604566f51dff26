/** The web application's two input parsers: a matrix typed as lines of whitespace-separated
    numbers, and plot data typed as lines of two numbers each. The number syntax is the
    parameter `parseFloat`, Python's `float()` on one token (`None` where it raises
    ValueError). */
module TextParsers {
  import opened Wrappers
  import opened Text

  const InvalidMatrix := "Error: Invalid input. Please ensure all values are numbers and rows have the same length."
  const NotSquare := "Error: Matrix must be square to calculate a determinant."
  const InvalidPlotData := "Error: Invalid data format. Please provide two columns of numbers."

  /** The lines of the input once the whole text is stripped: `text.strip().split('\n')`. */
  function Lines(text: string): (lines: seq<string>)
    ensures |lines| >= 1
  {
    Split(Strip(text), '\n')
  }

  /** The tokens of one line: `line.strip().split()`. */
  function Tokens(line: string): (tokens: seq<string>)
    ensures forall i :: 0 <= i < |tokens| ==> IsWord(tokens[i])
  {
    Words(Strip(line))
  }

  /** One line read as numbers, `None` when one of its tokens is not a number. */
  function ParseRow(line: string, parseFloat: string -> Option<real>): (r: Option<seq<real>>)
    ensures r.Some? <==> forall i :: 0 <= i < |Tokens(line)| ==> parseFloat(Tokens(line)[i]).Some?
    ensures r.Some? ==> |r.value| == |Tokens(line)|
  {
    ParseAll(Tokens(line), parseFloat)
  }

  /** Every line read as numbers, in order; `None` when some line holds a token that is not
      a number. */
  function ParseRows(lines: seq<string>, parseFloat: string -> Option<real>): (r: Option<seq<seq<real>>>)
    ensures r.Some? <==> forall i :: 0 <= i < |lines| ==> ParseRow(lines[i], parseFloat).Some?
    ensures r.Some? ==> |r.value| == |lines|
    ensures r.Some? ==> forall i :: 0 <= i < |lines| ==> r.value[i] == ParseRow(lines[i], parseFloat).value
  {
    if lines == [] then Some([])
    else
      var init := lines[..|lines| - 1];
      assert forall i :: 0 <= i < |init| ==> init[i] == lines[i];
      match (ParseRows(init, parseFloat), ParseRow(lines[|lines| - 1], parseFloat))
      case (Some(rows), Some(row)) => Some(rows + [row])
      case (None, _) => None
      case (_, None) => None
  }

  /** All rows have the same length, as NumPy requires of a two-dimensional array. */
  predicate Rectangular(rows: seq<seq<real>>)
  {
    forall i, j :: 0 <= i < |rows| && 0 <= j < |rows| ==> |rows[i]| == |rows[j]|
  }

  /** `parse_matrix_string`: the matrix, or the message for a token that is not a number or
      rows of different lengths, or the message for a matrix that is not square. */
  function ParseMatrixString(text: string, parseFloat: string -> Option<real>): (r: Result<seq<seq<real>>, string>)
    ensures r.Ok? ==> |r.value| == |Lines(text)|
                      && forall i :: 0 <= i < |r.value| ==> |r.value[i]| == |r.value|
    ensures r.Ok? ==> ParseRows(Lines(text), parseFloat) == Some(r.value)
    ensures r.Err? ==> r.error == InvalidMatrix || r.error == NotSquare
  {
    match ParseRows(Lines(text), parseFloat)
    case None => Err(InvalidMatrix)
    case Some(rows) =>
      if !Rectangular(rows) then Err(InvalidMatrix)
      else if |rows| != |rows[0]| then Err(NotSquare)
      else Ok(rows)
  }

  /** The outcome in terms of the input alone: the invalid-input message when a token is not
      a number or two lines hold different numbers of tokens; the not-square message when
      every line holds the same number of numbers but that number is not the number of
      lines; the matrix otherwise. */
  lemma MatrixOutcome(text: string, parseFloat: string -> Option<real>)
    ensures var lines, r := Lines(text), ParseMatrixString(text, parseFloat);
            var parses := forall i :: 0 <= i < |lines| ==> ParseRow(lines[i], parseFloat).Some?;
            var even := forall i, j :: 0 <= i < |lines| && 0 <= j < |lines| ==>
                          |Tokens(lines[i])| == |Tokens(lines[j])|;
            && (r == Err(InvalidMatrix) <==> !parses || !even)
            && (r == Err(NotSquare) <==> parses && even && |Tokens(lines[0])| != |lines|)
            && (r.Ok? <==> parses && even && |Tokens(lines[0])| == |lines|)
  {
    var lines := Lines(text);
    var rows := ParseRows(lines, parseFloat);
    if rows.Some? {
      forall i | 0 <= i < |lines| ensures |rows.value[i]| == |Tokens(lines[i])| {
        assert rows.value[i] == ParseRow(lines[i], parseFloat).value;
      }
    }
  }

  /** The text a matrix of tokens is typed as: tokens separated by single spaces, rows by
      newlines. */
  function FormatGrid(grid: seq<seq<string>>): string
  {
    Join(seq(|grid|, i requires 0 <= i < |grid| => Join(grid[i], " ")), "\n")
  }

  /** A character absent from the pieces and the separator is absent from the join. */
  lemma {:induction false} JoinLacks(parts: seq<string>, sep: string, c: char)
    requires c !in sep && forall i :: 0 <= i < |parts| ==> c !in parts[i]
    ensures c !in Join(parts, sep)
    decreases |parts|
  {
    if |parts| > 1 {
      JoinLacks(parts[1..], sep, c);
      assert parts[0] + sep + Join(parts[1..], sep) == Join(parts, sep);
    }
  }

  /** A join starts with its first piece and ends with its last one. */
  lemma {:induction false} JoinEnds(parts: seq<string>, sep: string)
    requires |parts| >= 1
    ensures var r, last := Join(parts, sep), parts[|parts| - 1];
            && |parts[0]| <= |r| && r[..|parts[0]|] == parts[0]
            && |last| <= |r| && r[|r| - |last|..] == last
    decreases |parts|
  {
    if |parts| > 1 {
      JoinEnds(parts[1..], sep);
      var r := Join(parts, sep);
      var tail := Join(parts[1..], sep);
      assert r == parts[0] + sep + tail;
      assert r[|r| - |tail|..] == tail;
      assert parts[1..][|parts[1..]| - 1] == parts[|parts| - 1];
    }
  }

  /** A non-empty join of non-empty pieces that do not start or end with whitespace does not
      either. */
  lemma JoinUnpadded(parts: seq<string>, sep: string)
    requires |parts| >= 1 && parts[0] != [] && parts[|parts| - 1] != []
    requires !IsSpace(parts[0][0]) && !IsSpace(parts[|parts| - 1][|parts[|parts| - 1]| - 1])
    ensures var r := Join(parts, sep); r != [] && !IsSpace(r[0]) && !IsSpace(r[|r| - 1])
  {
    JoinEnds(parts, sep);
    var r := Join(parts, sep);
    var last := parts[|parts| - 1];
    assert r[0] == r[..|parts[0]|][0];
    assert r[|r| - 1] == r[|r| - |last|..][|last| - 1];
  }

  /** A word holds no newline. */
  lemma WordLacksNewline(w: string)
    requires IsWord(w)
    ensures '\n' !in w
  {
    assert forall k :: 0 <= k < |w| ==> w[k] != '\n';
  }

  /** One row of a formatted grid: a line that strips to itself, holds no newline and
      tokenizes back into the row. */
  lemma FormattedRow(row: seq<string>)
    requires |row| >= 1 && forall j :: 0 <= j < |row| ==> IsWord(row[j])
    ensures var line := Join(row, " ");
            && '\n' !in line && Tokens(line) == row
            && line != [] && !IsSpace(line[0]) && !IsSpace(line[|line| - 1])
  {
    var line := Join(row, " ");
    forall j | 0 <= j < |row| ensures '\n' !in row[j] {
      WordLacksNewline(row[j]);
    }
    JoinLacks(row, " ", '\n');
    JoinUnpadded(row, " ");
    StripUnpadded(line);
    WordsOfJoin(row);
  }

  /** A grid of words, typed out, reads back as its lines, and each line as its row. */
  lemma FormattedLines(grid: seq<seq<string>>)
    requires |grid| >= 1
    requires forall i :: 0 <= i < |grid| ==> |grid[i]| >= 1
    requires forall i, j :: 0 <= i < |grid| && 0 <= j < |grid[i]| ==> IsWord(grid[i][j])
    ensures |Lines(FormatGrid(grid))| == |grid|
    ensures forall i :: 0 <= i < |grid| ==> Tokens(Lines(FormatGrid(grid))[i]) == grid[i]
  {
    var lines := seq(|grid|, i requires 0 <= i < |grid| => Join(grid[i], " "));
    var text := FormatGrid(grid);
    forall i | 0 <= i < |grid|
      ensures '\n' !in lines[i] && Tokens(lines[i]) == grid[i]
      ensures lines[i] != [] && !IsSpace(lines[i][0]) && !IsSpace(lines[i][|lines[i]| - 1])
    {
      FormattedRow(grid[i]);
    }
    JoinUnpadded(lines, "\n");
    StripUnpadded(text);
    SplitOfJoin(lines, '\n');
    assert Lines(text) == lines;
  }

  /** A square grid of number tokens, typed out, parses back into the numbers. */
  lemma MatrixRoundTrip(grid: seq<seq<string>>, parseFloat: string -> Option<real>)
    requires |grid| >= 1
    requires forall i :: 0 <= i < |grid| ==> |grid[i]| == |grid|
    requires forall i, j :: 0 <= i < |grid| && 0 <= j < |grid[i]| ==>
               IsWord(grid[i][j]) && parseFloat(grid[i][j]).Some?
    ensures var r := ParseMatrixString(FormatGrid(grid), parseFloat);
            && r.Ok? && |r.value| == |grid|
            && forall i, j :: 0 <= i < |grid| && 0 <= j < |grid| ==>
                 |r.value[i]| == |grid| && r.value[i][j] == parseFloat(grid[i][j]).value
  {
    var text := FormatGrid(grid);
    FormattedLines(grid);
    var lines := Lines(text);
    MatrixOutcome(text, parseFloat);
    var r := ParseMatrixString(text, parseFloat);
    assert r.Ok?;
    var rows := ParseRows(lines, parseFloat);
    forall i, j | 0 <= i < |grid| && 0 <= j < |grid|
      ensures |r.value[i]| == |grid| && r.value[i][j] == parseFloat(grid[i][j]).value
    {
      assert r.value[i] == ParseRow(lines[i], parseFloat).value;
    }
  }

  /** Blank input is one empty row, a 1 x 0 array, which is not square. */
  lemma BlankMatrix(text: string, parseFloat: string -> Option<real>)
    requires forall k :: 0 <= k < |text| ==> IsSpace(text[k])
    ensures Lines(text) == [""]
    ensures ParseMatrixString(text, parseFloat) == Err(NotSquare)
  {
    BlankStrips(text);
    assert ParseRow("", parseFloat) == Some([]);
  }

  /** Text made of whitespace strips to nothing. */
  lemma BlankStrips(text: string)
    requires forall k :: 0 <= k < |text| ==> IsSpace(text[k])
    ensures Strip(text) == ""
  {
    StripStartSuffix(text);
  }

  /** The rows that hold exactly two numbers, as (x, y) points, in order. */
  function Points(rows: seq<seq<real>>): (points: seq<(real, real)>)
    ensures |points| <= |rows|
  {
    if rows == [] then []
    else
      var last := rows[|rows| - 1];
      var init := Points(rows[..|rows| - 1]);
      if |last| == 2 then init + [(last[0], last[1])] else init
  }

  /** Points are taken row by row: the points of two blocks of rows are those of the first
      followed by those of the second. */
  lemma {:induction false} PointsAppend(a: seq<seq<real>>, b: seq<seq<real>>)
    ensures Points(a + b) == Points(a) + Points(b)
    decreases |b|
  {
    if b != [] {
      var init := b[..|b| - 1];
      assert (a + b)[..|a + b| - 1] == a + init;
      assert (a + b)[|a + b| - 1] == b[|b| - 1];
      PointsAppend(a, init);
    } else {
      assert a + b == a;
    }
  }

  /** A point is produced exactly when some row holds its two coordinates and nothing else. */
  lemma {:induction false} PointsFromPairs(rows: seq<seq<real>>, x: real, y: real)
    ensures (x, y) in Points(rows) <==> [x, y] in rows
    decreases |rows|
  {
    if rows != [] {
      var init := rows[..|rows| - 1];
      var last := rows[|rows| - 1];
      PointsFromPairs(init, x, y);
      assert rows == init + [last];
      if |last| == 2 {
        assert (last == [x, y]) <==> (last[0], last[1]) == (x, y);
      }
    }
  }

  /** When every row holds two numbers, each row gives its point. */
  lemma {:induction false} PointsOfPairs(rows: seq<seq<real>>)
    requires forall i :: 0 <= i < |rows| ==> |rows[i]| == 2
    ensures |Points(rows)| == |rows|
    ensures forall i :: 0 <= i < |rows| ==> Points(rows)[i] == (rows[i][0], rows[i][1])
    decreases |rows|
  {
    if rows != [] {
      var init := rows[..|rows| - 1];
      assert forall i :: 0 <= i < |init| ==> init[i] == rows[i];
      PointsOfPairs(init);
    }
  }

  /** Reading one more line: the rows so far and the new row, or `None` if either fails. */
  lemma ParseRowsSnoc(lines: seq<string>, i: nat, parseFloat: string -> Option<real>)
    requires i < |lines|
    ensures ParseRows(lines[..i + 1], parseFloat) ==
              match (ParseRows(lines[..i], parseFloat), ParseRow(lines[i], parseFloat))
              case (Some(rows), Some(row)) => Some(rows + [row])
              case _ => None
  {
    assert lines[..i + 1][..i] == lines[..i];
  }

  /** `x` and `y` are the two columns of `points`. */
  predicate Columns(x: seq<real>, y: seq<real>, points: seq<(real, real)>)
  {
    |x| == |points| && |y| == |points| && forall k :: 0 <= k < |points| ==> (x[k], y[k]) == points[k]
  }

  /** Appending a row's coordinates when it holds two numbers keeps the columns in step
      with the points. */
  lemma ColumnsSnoc(x: seq<real>, y: seq<real>, rows: seq<seq<real>>, row: seq<real>)
    requires Columns(x, y, Points(rows))
    ensures |row| == 2 ==> Columns(x + [row[0]], y + [row[1]], Points(rows + [row]))
    ensures |row| != 2 ==> Columns(x, y, Points(rows + [row]))
  {
    assert (rows + [row])[..|rows|] == rows;
  }

  /** `parse_plot_data`: the x and y columns of the rows that hold two numbers, in order;
      the invalid-format message when a token anywhere is not a number. */
  method ParsePlotData(text: string, parseFloat: string -> Option<real>)
    returns (r: Result<(seq<real>, seq<real>), string>)
    ensures r.Err? <==> ParseRows(Lines(text), parseFloat).None?
    ensures r.Err? ==> r.error == InvalidPlotData
    ensures r.Ok? ==> Columns(r.value.0, r.value.1, Points(ParseRows(Lines(text), parseFloat).value))
  {
    var lines := Lines(text);
    var x: seq<real>, y: seq<real> := [], [];
    ghost var rows: seq<seq<real>> := [];
    for i := 0 to |lines|
      invariant ParseRows(lines[..i], parseFloat) == Some(rows)
      invariant Columns(x, y, Points(rows))
    {
      var parts := ParseRow(lines[i], parseFloat);
      ParseRowsSnoc(lines, i, parseFloat);
      if parts.None? {
        return Err(InvalidPlotData);
      }
      ColumnsSnoc(x, y, rows, parts.value);
      if |parts.value| == 2 {
        x := x + [parts.value[0]];
        y := y + [parts.value[1]];
      }
      rows := rows + [parts.value];
    }
    assert lines[..|lines|] == lines;
    return Ok((x, y));
  }

  /** Blank plot data reads as no points at all. */
  lemma BlankPlotData(text: string, parseFloat: string -> Option<real>)
    requires forall k :: 0 <= k < |text| ==> IsSpace(text[k])
    ensures ParseRows(Lines(text), parseFloat) == Some([[]])
    ensures Points([[]]) == []
  {
    BlankMatrix(text, parseFloat);
    assert ParseRow("", parseFloat) == Some([]);
    assert [""][..0] == [];
    var none: seq<seq<real>> := [];
    assert ParseRows([], parseFloat) == Some(none);
    assert none + [[]] == [[]];
    assert ParseRows([""], parseFloat) == Some(none + [[]]);
  }
}
