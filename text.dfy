/**
 * The text side of maze.go: how `NewMaze` turns the row lines that follow the
 * `width,height` header into spots, and how `Maze.String` prints them back.
 * Both are given here as specification functions over values; the methods of
 * the Maze class are proved to compute them.
 */
module Text {
  import opened Wrappers
  import opened Spots

  /** The two fatal conditions of `NewMaze`: "Line too short" and "Unknow Spot type". */
  datatype ParseError = LineTooShort | UnknownSpotType

  /** A row line the parser accepts: exactly `width` characters, each naming a spot. */
  predicate LineOk(width: int, line: string)
  {
    |line| == width && forall c :: 0 <= c < |line| ==> IsSpotChar(line[c])
  }

  /** The failure a rejected line causes: the length is checked before any character. */
  function LineError(width: int, line: string): ParseError
  {
    if |line| != width then LineTooShort else UnknownSpotType
  }

  /** One row line read as row y: every character becomes a spot located at (column, y). */
  function ParseLine(width: int, y: int, line: string): Result<seq<Cell>, ParseError>
  {
    if |line| != width then Failure(LineTooShort)
    else if forall c :: 0 <= c < |line| ==> IsSpotChar(line[c]) then
      Success(seq(|line|, c requires 0 <= c < |line| && IsSpotChar(line[c]) => Cell(NewSpot(line[c]).value, c, y)))
    else Failure(UnknownSpotType)
  }

  /** All the given lines read in order as rows 0, 1, ...; the first rejected line decides the failure. */
  function ParseRows(width: int, lines: seq<string>): Result<seq<seq<Cell>>, ParseError>
  {
    if lines == [] then Success([])
    else
      match ParseRows(width, lines[..|lines| - 1])
      case Failure(e) => Failure(e)
      case Success(rows) =>
        match ParseLine(width, |lines| - 1, lines[|lines| - 1])
        case Failure(e) => Failure(e)
        case Success(row) => Success(rows + [row])
  }

  /** How many row lines `NewMaze` reads: it stops after `height` rows or when the input ends. */
  function RowsRead(height: int, available: nat): nat
  {
    if height <= 0 then 0 else if height < available then height else available
  }

  /** `NewMaze` on a header `width,height` followed by the given lines. */
  function ParseMaze(width: int, height: int, lines: seq<string>): Result<seq<seq<Cell>>, ParseError>
  {
    ParseRows(width, lines[..RowsRead(height, |lines|)])
  }

  /** The glyphs of one row, left to right. */
  function RowText(row: seq<Cell>): string
  {
    if row == [] then "" else RowText(row[..|row| - 1]) + [Glyph(row[|row| - 1].kind)]
  }

  /** `Maze.String`: every row's glyphs followed by a newline. */
  function Render(rows: seq<seq<Cell>>): string
  {
    if rows == [] then "" else Render(rows[..|rows| - 1]) + RowText(rows[|rows| - 1]) + "\n"
  }

  /** The input lines, each terminated by a newline. */
  function Lines(lines: seq<string>): string
  {
    if lines == [] then "" else Lines(lines[..|lines| - 1]) + lines[|lines| - 1] + "\n"
  }

  /**
   * A successful parse has one row per line read, each row `width` spots long;
   * the spot in row r, column c is located at (c, r), is never a Start, and its
   * glyph is the character it was read from. Parsing succeeds exactly when
   * every line is acceptable.
   */
  lemma {:induction false} ParseRowsShape(width: int, lines: seq<string>)
    ensures ParseRows(width, lines).Success? <==> forall r :: 0 <= r < |lines| ==> LineOk(width, lines[r])
    ensures ParseRows(width, lines).Success? ==>
      var rows := ParseRows(width, lines).value;
      && |rows| == |lines|
      && (forall r :: 0 <= r < |rows| ==> |rows[r]| == width)
      && (forall r, c :: 0 <= r < |rows| && 0 <= c < |rows[r]| ==>
            rows[r][c].x == c && rows[r][c].y == r && rows[r][c].kind != Start
            && Glyph(rows[r][c].kind) == lines[r][c])
  {
    if lines != [] {
      var init := lines[..|lines| - 1];
      ParseRowsShape(width, init);
      assert forall r :: 0 <= r < |init| ==> init[r] == lines[r];
    }
  }

  /**
   * A failed parse reports the error of the first rejected line: "Line too
   * short" when its length is not `width`, otherwise "Unknow Spot type".
   */
  lemma {:induction false} ParseRowsFirstError(width: int, lines: seq<string>)
    requires ParseRows(width, lines).Failure?
    ensures exists i ::
              && 0 <= i < |lines| && !LineOk(width, lines[i])
              && (forall j :: 0 <= j < i ==> LineOk(width, lines[j]))
              && ParseRows(width, lines).error == LineError(width, lines[i])
  {
    var init := lines[..|lines| - 1];
    assert forall r :: 0 <= r < |init| ==> init[r] == lines[r];
    if ParseRows(width, init).Failure? {
      ParseRowsFirstError(width, init);
      var i :| 0 <= i < |init| && !LineOk(width, init[i])
        && (forall j :: 0 <= j < i ==> LineOk(width, init[j]))
        && ParseRows(width, init).error == LineError(width, init[i]);
      assert lines[i] == init[i];
    } else {
      ParseRowsShape(width, init);
      var i := |lines| - 1;
      assert !LineOk(width, lines[i]);
    }
  }

  /** Once a prefix of the lines fails, every longer prefix fails with the same error. */
  lemma {:induction false} ParseRowsFailureSticks(width: int, lines: seq<string>, i: nat, n: nat)
    requires i <= n <= |lines|
    requires ParseRows(width, lines[..i]).Failure?
    ensures ParseRows(width, lines[..n]) == ParseRows(width, lines[..i])
    decreases n
  {
    if n > i {
      ParseRowsFailureSticks(width, lines, i, n - 1);
      assert lines[..n][..n - 1] == lines[..n - 1];
    }
  }

  /**
   * `NewMaze` reads at most `height` rows; it reads exactly `height` when the
   * input has that many lines, and fewer, silently, when it is short.
   */
  lemma ParseMazeRows(width: int, height: int, lines: seq<string>)
    requires ParseMaze(width, height, lines).Success?
    ensures |ParseMaze(width, height, lines).value| <= (if height < 0 then 0 else height)
    ensures 0 <= height <= |lines| ==> |ParseMaze(width, height, lines).value| == height
    ensures |lines| < height ==> |ParseMaze(width, height, lines).value| == |lines|
  {
    ParseRowsShape(width, lines[..RowsRead(height, |lines|)]);
  }

  /** A row prints as one glyph per spot. */
  lemma {:induction false} RowTextGlyphs(row: seq<Cell>)
    ensures |RowText(row)| == |row|
    ensures forall c :: 0 <= c < |row| ==> RowText(row)[c] == Glyph(row[c].kind)
  {
    if row != [] {
      RowTextGlyphs(row[..|row| - 1]);
    }
  }

  /** Printing a grid whose rows are `width` long gives rows * (width + 1) characters. */
  lemma {:induction false} RenderLength(rows: seq<seq<Cell>>, width: nat)
    requires forall r :: 0 <= r < |rows| ==> |rows[r]| == width
    ensures |Render(rows)| == |rows| * (width + 1)
  {
    if rows != [] {
      RenderLength(rows[..|rows| - 1], width);
      RowTextGlyphs(rows[|rows| - 1]);
      assert |rows| * (width + 1) == (|rows| - 1) * (width + 1) + width + 1;
    }
  }

  /**
   * Printing what was parsed reproduces the lines that were read, each
   * terminated by a newline.
   */
  lemma {:induction false} RenderParsed(width: int, lines: seq<string>)
    requires ParseRows(width, lines).Success?
    ensures Render(ParseRows(width, lines).value) == Lines(lines)
  {
    if lines != [] {
      var init := lines[..|lines| - 1];
      RenderParsed(width, init);
      ParseRowsShape(width, lines);
      var rows := ParseRows(width, lines).value;
      var last := rows[|rows| - 1];
      var line := lines[|lines| - 1];
      RowTextGlyphs(last);
      assert RowText(last) == line;
      assert rows[..|rows| - 1] == ParseRows(width, init).value;
    }
  }

  /**
   * In the printed grid, the spot in row r, column c sits at index
   * r * (width + 1) + c, and each row ends with a newline at column `width`.
   */
  lemma {:induction false} RenderAt(rows: seq<seq<Cell>>, width: nat, r: int, c: int)
    requires forall i :: 0 <= i < |rows| ==> |rows[i]| == width
    requires 0 <= r < |rows| && 0 <= c <= width
    ensures 0 <= r * (width + 1) + c < |Render(rows)|
    ensures Render(rows)[r * (width + 1) + c] == if c == width then '\n' else Glyph(rows[r][c].kind)
  {
    var init := rows[..|rows| - 1];
    var last := rows[|rows| - 1];
    var k := r * (width + 1) + c;
    RenderLength(init, width);
    RenderLength(rows, width);
    RowTextGlyphs(last);
    var front := Render(init);
    var tail := RowText(last) + "\n";
    assert Render(rows) == front + tail;
    RowOffset(r, |rows| - 1, width, c);
    if r < |rows| - 1 {
      RenderAt(init, width, r, c);
      assert Render(rows)[k] == front[k];
    } else {
      assert Render(rows)[k] == tail[c];
    }
  }

  /** Row r of a grid with rows `width` + 1 characters long starts after r such rows. */
  lemma {:induction false} RowOffset(r: nat, n: nat, width: nat, c: nat)
    requires r <= n && c <= width
    ensures 0 <= r * (width + 1) + c
    ensures r < n ==> r * (width + 1) + c < n * (width + 1)
    ensures r == n ==> r * (width + 1) + c == n * (width + 1) + c
    decreases n
  {
    if r < n {
      assert n * (width + 1) == (n - 1) * (width + 1) + (width + 1);
      if r < n - 1 {
        RowOffset(r, n - 1, width, c);
      }
    }
  }
}
