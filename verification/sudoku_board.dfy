/**
 * The Sudoku board of `sudoku.rs`: reading it from lines of text, writing
 * it as text, and checking a filled board.  A board is a sequence of rows
 * of cells; 0 is an empty cell.  The source stores cells as `u8`; every
 * value the model writes is a single digit, so cells are `nat` here.
 */
module SudokuBoard {
  import opened Wrappers
  import opened Text

  datatype Board = Board(rows: seq<seq<nat>>)

  /** The errors of `Board::read_from_file`.  `FileReadError` comes from
      opening and reading the file, which the model leaves out, so the
      line parser below never returns it. */
  datatype BoardReadError = FileReadError | InvalidCharacter | InvalidSize

  /** Nine rows of nine cells. */
  predicate Grid9(g: seq<seq<nat>>) {
    |g| == 9 && forall r | 0 <= r < 9 :: |g[r]| == 9
  }

  /** At least nine rows of at least nine cells: what the 9×9 loops of the
      source may index without panicking. */
  predicate Big(b: Board) {
    |b.rows| >= 9 && forall r | 0 <= r < 9 :: |b.rows[r]| >= 9
  }

  // ---------------------------------------------------------------------
  // Blocks
  // ---------------------------------------------------------------------

  /** `cell_to_block`: the 3×3 blocks are numbered row by row. */
  function CellToBlock(row: nat, col: nat): nat {
    row / 3 * 3 + col / 3
  }

  /** The block of a cell is one of the nine, and it is the block whose rows
      `block / 3 * 3 ..` and columns `block % 3 * 3 ..` the validator walks. */
  lemma CellToBlockRanges(row: nat, col: nat, block: nat)
    requires row < 9 && col < 9 && block < 9
    ensures CellToBlock(row, col) < 9
    ensures CellToBlock(row, col) == block <==>
      block / 3 * 3 <= row < block / 3 * 3 + 3 && block % 3 * 3 <= col < block % 3 * 3 + 3
  {
  }

  // ---------------------------------------------------------------------
  // Reading a board
  // ---------------------------------------------------------------------

  /** The nine-by-nine board of zeros the parser starts from. */
  function Zeros(): (g: seq<seq<nat>>)
    ensures Grid9(g) && forall r, q | 0 <= r < 9 && 0 <= q < 9 :: g[r][q] == 0
  {
    seq(9, _ => seq(9, _ => 0))
  }

  /** The characters of a line that stand for cells: all but spaces. */
  function Cells(line: string): (r: seq<char>)
    ensures forall p | 0 <= p < |r| :: r[p] != ' '
    decreases |line|
  {
    if line == [] then []
    else if line[0] == ' ' then Cells(line[1..])
    else [line[0]] + Cells(line[1..])
  }

  lemma CellsConcat(a: string, b: string)
    ensures Cells(a + b) == Cells(a) + Cells(b)
    decreases |a|
  {
    if a != [] {
      assert (a + b)[1..] == a[1..] + b;
      CellsConcat(a[1..], b);
    } else {
      assert a + b == b;
    }
  }

  /** The non-blank lines, in order. */
  function NonBlank(lines: seq<string>): (r: seq<string>)
    ensures forall k | 0 <= k < |r| :: r[k] != []
    decreases |lines|
  {
    if lines == [] then []
    else if lines[0] == [] then NonBlank(lines[1..])
    else [lines[0]] + NonBlank(lines[1..])
  }

  /** A character the parser accepts as a cell. */
  predicate CellChar(c: char) {
    c == '.' || IsDigit(c)
  }

  /** A character that makes the parser report `InvalidCharacter`. */
  predicate Bad(c: char) {
    c != ' ' && !CellChar(c)
  }

  /** A cell whose position the parser checks against the grid: a digit,
      and also a dot when `strict`. */
  predicate Checked(c: char, strict: bool) {
    IsDigit(c) || (strict && c == '.')
  }

  /** The value a cell character leaves in the grid. */
  function CellValue(c: char): (v: nat)
    ensures v < 10
  {
    if IsDigit(c) then DigitValue(c) else 0
  }

  /** The cells of line `i`, starting at column `j`, pass the parser: each
      is a dot or a digit, and each checked one lies inside the grid. */
  ghost predicate CellsOk(cells: seq<char>, i: nat, j: nat, strict: bool) {
    forall p | 0 <= p < |cells| :: CellChar(cells[p]) && (Checked(cells[p], strict) ==> i < 9 && j + p < 9)
  }

  lemma CellsOkCons(c: char, rest: seq<char>, i: nat, j: nat, strict: bool)
    ensures CellsOk([c] + rest, i, j, strict) <==>
      CellChar(c) && (Checked(c, strict) ==> i < 9 && j < 9) && CellsOk(rest, i, j + 1, strict)
  {
    var cells := [c] + rest;
    assert cells[0] == c;
    assert forall p | 1 <= p < |cells| :: cells[p] == rest[p - 1];
    if CellsOk(cells, i, j, strict) {
      forall p | 0 <= p < |rest| ensures CellChar(rest[p]) && (Checked(rest[p], strict) ==> i < 9 && j + 1 + p < 9) {
        assert rest[p] == cells[p + 1];
      }
    }
    if CellChar(c) && (Checked(c, strict) ==> i < 9 && j < 9) && CellsOk(rest, i, j + 1, strict) {
      forall p | 0 <= p < |cells| ensures CellChar(cells[p]) && (Checked(cells[p], strict) ==> i < 9 && j + p < 9) {
        if p > 0 { assert cells[p] == rest[p - 1]; }
      }
    }
  }

  /** The scan of `cells`, from column `j` of line `i`, stops on a
      character that is neither a dot nor a digit: every cell before it
      passes. */
  ghost predicate StopsOnBad(cells: seq<char>, i: nat, j: nat, strict: bool) {
    exists p | 0 <= p < |cells| :: !CellChar(cells[p]) && CellsOk(cells[..p], i, j, strict)
  }

  lemma StopsOnBadCons(c: char, rest: seq<char>, i: nat, j: nat, strict: bool)
    ensures StopsOnBad([c] + rest, i, j, strict) <==>
      !CellChar(c) || (CellChar(c) && (Checked(c, strict) ==> i < 9 && j < 9) && StopsOnBad(rest, i, j + 1, strict))
  {
    var cells := [c] + rest;
    var ok := CellChar(c) && (Checked(c, strict) ==> i < 9 && j < 9);
    if !CellChar(c) {
      assert cells[0] == c && cells[..0] == [];
    }
    if StopsOnBad(cells, i, j, strict) && CellChar(c) {
      var p :| 0 <= p < |cells| && !CellChar(cells[p]) && CellsOk(cells[..p], i, j, strict);
      assert p > 0 && cells[..p] == [c] + rest[..p - 1] && cells[p] == rest[p - 1];
      CellsOkCons(c, rest[..p - 1], i, j, strict);
    }
    if ok && StopsOnBad(rest, i, j + 1, strict) {
      var p :| 0 <= p < |rest| && !CellChar(rest[p]) && CellsOk(rest[..p], i, j + 1, strict);
      assert cells[..p + 1] == [c] + rest[..p] && cells[p + 1] == rest[p];
      CellsOkCons(c, rest[..p], i, j, strict);
    }
  }

  /** The grid after the cells of line `i`, from column `j`, are stored. */
  ghost function Written(g: seq<seq<nat>>, i: nat, cells: seq<char>, j: nat, r: nat, q: nat): nat
    requires Grid9(g) && r < 9 && q < 9
  {
    if r == i && j <= q < j + |cells| && IsDigit(cells[q - j]) then DigitValue(cells[q - j]) else g[r][q]
  }

  /** The inner loop of `read_from_file` over the characters of one line:
      spaces are skipped, a dot moves to the next column, a digit is stored
      (`InvalidSize` outside the grid), anything else is
      `InvalidCharacter`.  The source checks the grid bounds for digits
      only; with `strict` a dot is checked too.  Returns the grid and the
      column reached. */
  function ScanLine(g: seq<seq<nat>>, i: nat, line: string, j: nat, strict: bool)
    : (r: Result<(seq<seq<nat>>, nat), BoardReadError>)
    requires Grid9(g)
    ensures r.Success? <==> CellsOk(Cells(line), i, j, strict)
    ensures r.Success? ==> Grid9(r.value.0) && r.value.1 == j + |Cells(line)|
    ensures r.Success? ==> forall rr, q | 0 <= rr < 9 && 0 <= q < 9 ::
      r.value.0[rr][q] == Written(g, i, Cells(line), j, rr, q)
    ensures r == Failure(InvalidCharacter) ==> exists p | 0 <= p < |line| :: Bad(line[p])
    ensures r.Failure? && (forall p | 0 <= p < |line| :: !Bad(line[p])) ==> r == Failure(InvalidSize)
    ensures r == Failure(InvalidCharacter) <==> StopsOnBad(Cells(line), i, j, strict)
    ensures r.Failure? && !StopsOnBad(Cells(line), i, j, strict) ==> r == Failure(InvalidSize)
    decreases |line|
  {
    if line == [] then Success((g, j))
    else
      var c := line[0];
      assert forall p | 0 <= p < |line| - 1 :: line[1..][p] == line[p + 1];
      if c == ' ' then ScanLine(g, i, line[1..], j, strict)
      else if Checked(c, strict) && (i >= 9 || j >= 9) then
        assert Cells(line) == [c] + Cells(line[1..]);
        CellsOkCons(c, Cells(line[1..]), i, j, strict);
        StopsOnBadCons(c, Cells(line[1..]), i, j, strict);
        Failure(InvalidSize)
      else if c == '.' then
        var r := ScanLine(g, i, line[1..], j + 1, strict);
        assert Cells(line) == [c] + Cells(line[1..]);
        CellsOkCons(c, Cells(line[1..]), i, j, strict);
        StopsOnBadCons(c, Cells(line[1..]), i, j, strict);
        r
      else if IsDigit(c) then
        var row: seq<nat> := g[i][j := DigitValue(c)];
        var g1 := g[i := row];
        var r := ScanLine(g1, i, line[1..], j + 1, strict);
        assert Cells(line) == [c] + Cells(line[1..]);
        CellsOkCons(c, Cells(line[1..]), i, j, strict);
        StopsOnBadCons(c, Cells(line[1..]), i, j, strict);
        r
      else
        assert Bad(line[0]) && Cells(line) == [c] + Cells(line[1..]);
        StopsOnBadCons(c, Cells(line[1..]), i, j, strict);
        Failure(InvalidCharacter)
  }

  /** Line `line`, as row `i`, passes the parser and reaches column 9. */
  ghost predicate LinePasses(line: string, i: nat, strict: bool) {
    CellsOk(Cells(line), i, 0, strict) && |Cells(line)| >= 9
  }

  /** Every line passes and the last of them is row 8 or beyond: the
      parser succeeds on the non-blank lines `lines`, the first being row
      `i`. */
  ghost predicate LinesOk(lines: seq<string>, i: nat, strict: bool) {
    i + |lines| >= 9 && forall k | 0 <= k < |lines| :: LinePasses(lines[k], i + k, strict)
  }

  /** The parser, on the non-blank lines `lines` from row `i`, stops on a
      character that is neither a dot nor a digit: every line before it
      passes, and the scan of its own line stops on it. */
  ghost predicate LinesStopOnBad(lines: seq<string>, i: nat, strict: bool) {
    exists k | 0 <= k < |lines| ::
      StopsOnBad(Cells(lines[k]), i + k, 0, strict) && forall m | 0 <= m < k :: LinePasses(lines[m], i + m, strict)
  }

  lemma LinesStopOnBadCons(line: string, rest: seq<string>, i: nat, strict: bool)
    ensures LinesStopOnBad([line] + rest, i, strict) <==>
      StopsOnBad(Cells(line), i, 0, strict) || (LinePasses(line, i, strict) && LinesStopOnBad(rest, i + 1, strict))
  {
    if LinesStopOnBad([line] + rest, i, strict) {
      StopLater(line, rest, i, strict);
    }
    if StopsOnBad(Cells(line), i, 0, strict) {
      assert ([line] + rest)[0] == line;
    }
    if LinePasses(line, i, strict) && LinesStopOnBad(rest, i + 1, strict) {
      StopEarlier(line, rest, i, strict);
    }
  }

  lemma StopLater(line: string, rest: seq<string>, i: nat, strict: bool)
    requires LinesStopOnBad([line] + rest, i, strict)
    ensures StopsOnBad(Cells(line), i, 0, strict) || (LinePasses(line, i, strict) && LinesStopOnBad(rest, i + 1, strict))
  {
    var L := [line] + rest;
    var k :| 0 <= k < |L| && StopsOnBad(Cells(L[k]), i + k, 0, strict) && forall m | 0 <= m < k :: LinePasses(L[m], i + m, strict);
    if k > 0 {
      assert L[0] == line && L[k] == rest[k - 1];
      assert forall m | 0 <= m < k - 1 :: L[m + 1] == rest[m];
      assert forall m | 0 <= m < k - 1 :: LinePasses(rest[m], i + 1 + m, strict);
    }
  }

  lemma StopEarlier(line: string, rest: seq<string>, i: nat, strict: bool)
    requires LinePasses(line, i, strict) && LinesStopOnBad(rest, i + 1, strict)
    ensures LinesStopOnBad([line] + rest, i, strict)
  {
    var L := [line] + rest;
    var k :| 0 <= k < |rest| && StopsOnBad(Cells(rest[k]), i + 1 + k, 0, strict)
      && forall m | 0 <= m < k :: LinePasses(rest[m], i + 1 + m, strict);
    assert L[k + 1] == rest[k];
    assert forall m | 1 <= m < k + 1 :: L[m] == rest[m - 1];
    assert L[0] == line;
    assert forall m | 0 <= m < k + 1 :: LinePasses(L[m], i + m, strict);
  }

  /** A line whose cells all pass does not stop on a bad character. */
  lemma PassingLineNoStop(cells: seq<char>, i: nat, j: nat, strict: bool)
    requires CellsOk(cells, i, j, strict)
    ensures !StopsOnBad(cells, i, j, strict)
  {
  }

  /** The grid after the non-blank lines `lines`, from row `i`, are stored. */
  ghost function Filled(g: seq<seq<nat>>, i: nat, lines: seq<string>, r: nat, q: nat): nat
    requires Grid9(g) && r < 9 && q < 9
  {
    if i <= r < i + |lines| && q < |Cells(lines[r - i])| && IsDigit(Cells(lines[r - i])[q])
    then DigitValue(Cells(lines[r - i])[q])
    else g[r][q]
  }

  /** The outer loop of `read_from_file`: blank lines are skipped, every
      other line is scanned as the next row and must reach column 9, and at
      least nine rows must be read. */
  function ParseFrom(g: seq<seq<nat>>, i: nat, lines: seq<string>, strict: bool): (r: Result<Board, BoardReadError>)
    requires Grid9(g)
    ensures r.Success? <==> LinesOk(NonBlank(lines), i, strict)
    ensures r.Success? ==> Grid9(r.value.rows) && forall rr, q | 0 <= rr < 9 && 0 <= q < 9 ::
      r.value.rows[rr][q] == Filled(g, i, NonBlank(lines), rr, q)
    ensures r == Failure(InvalidCharacter) ==> exists k, p | 0 <= k < |lines| && 0 <= p < |lines[k]| :: Bad(lines[k][p])
    ensures r.Failure? && (forall k, p | 0 <= k < |lines| && 0 <= p < |lines[k]| :: !Bad(lines[k][p])) ==>
      r == Failure(InvalidSize)
    ensures r == Failure(InvalidCharacter) <==> LinesStopOnBad(NonBlank(lines), i, strict)
    ensures r.Failure? && !LinesStopOnBad(NonBlank(lines), i, strict) ==> r == Failure(InvalidSize)
    decreases |lines|
  {
    if lines == [] then
      if i < 9 then Failure(InvalidSize) else Success(Board(g))
    else
      assert forall k | 0 <= k < |lines| - 1 :: lines[1..][k] == lines[k + 1];
      if lines[0] == [] then ParseFrom(g, i, lines[1..], strict)
      else
        var rest := NonBlank(lines[1..]);
        LinesOkCons(lines[0], rest, i, strict);
        LinesStopOnBadCons(lines[0], rest, i, strict);
        match ScanLine(g, i, lines[0], 0, strict)
        case Failure(e) => Failure(e)
        case Success((g1, j)) =>
          PassingLineNoStop(Cells(lines[0]), i, 0, strict);
          if j < 9 then Failure(InvalidSize)
          else
            var r := ParseFrom(g1, i + 1, lines[1..], strict);
            assert r.Success? ==> forall rr, q | 0 <= rr < 9 && 0 <= q < 9 ::
              r.value.rows[rr][q] == Filled(g, i, [lines[0]] + rest, rr, q) by {
              forall rr, q | 0 <= rr < 9 && 0 <= q < 9 {
                FilledCons(g, g1, i, lines[0], rest, rr, q);
              }
            }
            r
  }

  lemma LinesOkCons(line: string, rest: seq<string>, i: nat, strict: bool)
    ensures LinesOk([line] + rest, i, strict) <==>
      CellsOk(Cells(line), i, 0, strict) && |Cells(line)| >= 9 && LinesOk(rest, i + 1, strict)
  {
    var L := [line] + rest;
    assert L[0] == line;
    assert forall k | 1 <= k < |L| :: L[k] == rest[k - 1];
    if LinesOk(L, i, strict) {
      forall k | 0 <= k < |rest| ensures CellsOk(Cells(rest[k]), i + 1 + k, 0, strict) && |Cells(rest[k])| >= 9 {
        assert rest[k] == L[k + 1];
      }
    }
    if CellsOk(Cells(line), i, 0, strict) && |Cells(line)| >= 9 && LinesOk(rest, i + 1, strict) {
      forall k | 0 <= k < |L| ensures CellsOk(Cells(L[k]), i + k, 0, strict) && |Cells(L[k])| >= 9 {
        if k > 0 { assert L[k] == rest[k - 1]; }
      }
    }
  }

  lemma FilledCons(g: seq<seq<nat>>, g1: seq<seq<nat>>, i: nat, line: string, rest: seq<string>, r: nat, q: nat)
    requires Grid9(g) && Grid9(g1) && r < 9 && q < 9
    requires forall rr, qq | 0 <= rr < 9 && 0 <= qq < 9 :: g1[rr][qq] == Written(g, i, Cells(line), 0, rr, qq)
    ensures Filled(g, i, [line] + rest, r, q) == Filled(g1, i + 1, rest, r, q)
  {
    var L := [line] + rest;
    if i < r < i + |L| { assert L[r - i] == rest[r - (i + 1)]; }
  }

  /** The parsing part of `Board::read_from_file`, over the lines of the
      file. */
  function ReadBoard(lines: seq<string>): (r: Result<Board, BoardReadError>)
    ensures r.Success? <==> LinesOk(NonBlank(lines), 0, false)
    ensures r.Success? ==> Grid9(r.value.rows) && forall i, j | 0 <= i < 9 && 0 <= j < 9 ::
      r.value.rows[i][j] == CellValue(Cells(NonBlank(lines)[i])[j])
    ensures r == Failure(InvalidCharacter) ==> exists k, p | 0 <= k < |lines| && 0 <= p < |lines[k]| :: Bad(lines[k][p])
    ensures r.Failure? && (forall k, p | 0 <= k < |lines| && 0 <= p < |lines[k]| :: !Bad(lines[k][p])) ==>
      r == Failure(InvalidSize)
    ensures r == Failure(InvalidCharacter) <==> LinesStopOnBad(NonBlank(lines), 0, false)
    ensures r.Failure? && !LinesStopOnBad(NonBlank(lines), 0, false) ==> r == Failure(InvalidSize)
  {
    ParseFrom(Zeros(), 0, lines, false)
  }

  /** `read_from_file` with the grid bounds checked for dots as for digits:
      a board is read only from exactly nine non-blank lines of exactly
      nine cells. */
  function ReadBoardChecked(lines: seq<string>): (r: Result<Board, BoardReadError>)
    ensures r.Success? <==> LinesOk(NonBlank(lines), 0, true)
    ensures r.Success? ==> |NonBlank(lines)| == 9 && forall k | 0 <= k < 9 :: |Cells(NonBlank(lines)[k])| == 9
    ensures r.Success? ==> Grid9(r.value.rows) && forall i, j | 0 <= i < 9 && 0 <= j < 9 ::
      r.value.rows[i][j] == CellValue(Cells(NonBlank(lines)[i])[j])
    ensures r == Failure(InvalidCharacter) ==> exists k, p | 0 <= k < |lines| && 0 <= p < |lines[k]| :: Bad(lines[k][p])
    ensures r.Failure? && (forall k, p | 0 <= k < |lines| && 0 <= p < |lines[k]| :: !Bad(lines[k][p])) ==>
      r == Failure(InvalidSize)
    ensures r == Failure(InvalidCharacter) <==> LinesStopOnBad(NonBlank(lines), 0, true)
    ensures r.Failure? && !LinesStopOnBad(NonBlank(lines), 0, true) ==> r == Failure(InvalidSize)
  {
    var r := ParseFrom(Zeros(), 0, lines, true);
    CheckedShape(NonBlank(lines));
    r
  }

  /** When dots are checked too, lines that pass are exactly nine, of
      exactly nine cells. */
  lemma CheckedShape(lines: seq<string>)
    ensures LinesOk(lines, 0, true) ==> |lines| == 9 && forall k | 0 <= k < 9 :: |Cells(lines[k])| == 9
  {
    if LinesOk(lines, 0, true) {
      forall k | 0 <= k < |lines| ensures k < 9 && |Cells(lines[k])| == 9 {
        var cells := Cells(lines[k]);
        assert Checked(cells[|cells| - 1], true);
        assert Checked(cells[0], true);
      }
      var last := |lines| - 1;
      assert |Cells(lines[last])| == 9;
    }
  }

  /** A line of `n` dots. */
  function Dots(n: nat): (r: string)
    ensures |r| == n && forall p | 0 <= p < n :: r[p] == '.'
  {
    seq(n, _ => '.')
  }

  /** Without spaces, every character of a line is a cell. */
  lemma {:induction false} CellsNoSpaces(line: string)
    requires forall p | 0 <= p < |line| :: line[p] != ' '
    ensures Cells(line) == line
    decreases |line|
  {
    if line != [] {
      CellsNoSpaces(line[1..]);
      assert line == [line[0]] + line[1..];
    }
  }

  /** Nine rows of dots: the first `width` wide, the others nine. */
  function WideBoardText(width: nat): (r: seq<string>)
    ensures |r| == 9 && r[0] == Dots(width) && forall k | 1 <= k < 9 :: r[k] == Dots(9)
  {
    [Dots(width)] + seq(8, _ => Dots(9))
  }

  /** The source reads a board from text whose first line holds ten or
      more cells, because the cells past the ninth are dots and only digits
      are checked against the grid; with dots checked the same text is
      `InvalidSize`. */
  lemma WideLineAccepted(width: nat)
    requires width >= 10
    ensures |Cells(WideBoardText(width)[0])| == width
    ensures ReadBoard(WideBoardText(width)).Success?
    ensures ReadBoardChecked(WideBoardText(width)) == Failure(InvalidSize)
  {
    var lines := WideBoardText(width);
    forall k | 0 <= k < 9 ensures lines[k] != [] && Cells(lines[k]) == lines[k] {
      CellsNoSpaces(lines[k]);
    }
    NonBlankAll(lines);
    DotLinesOk(lines);
    assert !LinesOk(lines, 0, true) by {
      assert Cells(lines[0])[9] == '.';
    }
  }

  /** Nine or more lines of nine or more dots pass the source's parser. */
  lemma DotLinesOk(lines: seq<string>)
    requires |lines| >= 9
    requires forall k | 0 <= k < |lines| :: Cells(lines[k]) == lines[k] && |lines[k]| >= 9
    requires forall k, p | 0 <= k < |lines| && 0 <= p < |lines[k]| :: lines[k][p] == '.'
    ensures LinesOk(lines, 0, false)
  {
  }

  /** Without blank lines, every line is read. */
  lemma {:induction false} NonBlankAll(lines: seq<string>)
    requires forall k | 0 <= k < |lines| :: lines[k] != []
    ensures NonBlank(lines) == lines
    decreases |lines|
  {
    if lines != [] {
      NonBlankAll(lines[1..]);
      assert lines == [lines[0]] + lines[1..];
    }
  }

  // ---------------------------------------------------------------------
  // Writing a board
  // ---------------------------------------------------------------------

  /** A cell as `fmt` writes it: a dot for 0, its decimal value otherwise. */
  function CellText(cell: nat): string {
    if cell == 0 then "." else NatToString(cell)
  }

  /** The cells of a row from column `k` on, with a space after columns 2
      and 5. */
  function RowText(row: seq<nat>, k: nat): string
    decreases |row| - k
  {
    if k >= |row| then ""
    else CellText(row[k]) + (if k == 2 || k == 5 then " " else "") + RowText(row, k + 1)
  }

  /** Each row's line as `fmt` writes it. */
  function RowLines(rows: seq<seq<nat>>): (r: seq<string>)
    ensures |r| == |rows|
  {
    seq(|rows|, i requires 0 <= i < |rows| => RowText(rows[i], 0))
  }

  /** The row lines from line `k` on, each ended by a newline, with an empty
      line after rows 2 and 5. */
  function RowsText(lines: seq<string>, k: nat): string
    decreases |lines| - k
  {
    if k >= |lines| then ""
    else lines[k] + "\n" + (if k == 2 || k == 5 then "\n" else "") + RowsText(lines, k + 1)
  }

  /** `Display::fmt` for `Board`. */
  function Render(b: Board): string {
    RowsText(RowLines(b.rows), 0)
  }

  /** The character a cell's text amounts to once read back. */
  function CellMark(cell: nat): char
    requires cell < 10
  {
    if cell == 0 then '.' else DigitChar(cell)
  }

  /** The marks of a row's cells from column `k` on. */
  function Marks(row: seq<nat>, k: nat): (r: seq<char>)
    requires forall q | 0 <= q < |row| :: row[q] < 10
    ensures |r| == if k <= |row| then |row| - k else 0
    ensures forall p | 0 <= p < |r| :: r[p] == CellMark(row[k + p])
    decreases |row| - k
  {
    if k >= |row| then [] else [CellMark(row[k])] + Marks(row, k + 1)
  }

  /** A row of digits is written as one line whose cells are the row's. */
  lemma {:induction false} RowTextCells(row: seq<nat>, k: nat)
    requires forall q | 0 <= q < |row| :: row[q] < 10
    ensures '\n' !in RowText(row, k) && '\r' !in RowText(row, k)
    ensures Cells(RowText(row, k)) == Marks(row, k)
    decreases |row| - k
  {
    if k < |row| {
      RowTextCells(row, k + 1);
      var sep := if k == 2 || k == 5 then " " else "";
      var cell := CellText(row[k]);
      assert cell == [CellMark(row[k])];
      assert Cells(cell + sep) == [CellMark(row[k])] by {
        CellsConcat(cell, sep);
      }
      assert RowText(row, k) == (cell + sep) + RowText(row, k + 1);
      CellsConcat(cell + sep, RowText(row, k + 1));
    }
  }

  /** Row lines from line `k` on, with an empty line after lines 2 and 5. */
  function Spaced(lines: seq<string>, k: nat): seq<string>
    decreases |lines| - k
  {
    if k >= |lines| then []
    else if k == 2 || k == 5 then [lines[k], ""] + Spaced(lines, k + 1)
    else [lines[k]] + Spaced(lines, k + 1)
  }

  /** The lines of a written board. */
  function WrittenLines(rows: seq<seq<nat>>, k: nat): seq<string> {
    Spaced(RowLines(rows), k)
  }

  /** A written board is its lines, joined. */
  lemma {:induction false} RowsTextJoin(lines: seq<string>, k: nat)
    ensures RowsText(lines, k) == Join(Spaced(lines, k))
    decreases |lines| - k
  {
    if k < |lines| {
      RowsTextJoin(lines, k + 1);
      var line := lines[k];
      var tail := Spaced(lines, k + 1);
      if k == 2 || k == 5 {
        var ls := [line] + ([""] + tail);
        assert Spaced(lines, k) == ls;
        assert ls[1..] == [""] + tail;
        assert ([""] + tail)[1..] == tail;
        assert Join([""] + tail) == "\n" + Join(tail);
        assert Join(ls) == line + "\n" + ("\n" + Join(tail));
        assert RowsText(lines, k) == line + "\n" + "\n" + RowsText(lines, k + 1);
      } else {
        assert ([line] + tail)[1..] == tail;
        assert RowsText(lines, k) == line + "\n" + RowsText(lines, k + 1);
      }
    }
  }

  lemma {:induction false} SpacedPlain(lines: seq<string>, k: nat)
    requires forall i | 0 <= i < |lines| :: '\n' !in lines[i] && '\r' !in lines[i]
    ensures forall p | 0 <= p < |Spaced(lines, k)| :: '\n' !in Spaced(lines, k)[p] && '\r' !in Spaced(lines, k)[p]
    decreases |lines| - k
  {
    if k < |lines| {
      SpacedPlain(lines, k + 1);
    }
  }

  lemma WrittenLinesPlain(rows: seq<seq<nat>>)
    requires forall i, q | 0 <= i < |rows| && 0 <= q < |rows[i]| :: rows[i][q] < 10
    ensures forall p | 0 <= p < |WrittenLines(rows, 0)| ::
      '\n' !in WrittenLines(rows, 0)[p] && '\r' !in WrittenLines(rows, 0)[p]
  {
    forall i | 0 <= i < |rows| ensures '\n' !in RowLines(rows)[i] && '\r' !in RowLines(rows)[i] {
      RowTextCells(rows[i], 0);
    }
    SpacedPlain(RowLines(rows), 0);
  }

  lemma NonBlankKeep(line: string, tail: seq<string>)
    requires line != []
    ensures NonBlank([line] + tail) == [line] + NonBlank(tail)
  {
    assert ([line] + tail)[1..] == tail;
  }

  lemma NonBlankSkip(line: string, tail: seq<string>)
    requires line != []
    ensures NonBlank([line, ""] + tail) == [line] + NonBlank(tail)
  {
    assert ([line, ""] + tail)[1..] == [""] + tail;
    assert ([""] + tail)[1..] == tail;
  }

  /** Dropping the blank lines of spaced lines leaves the lines, in order. */
  lemma {:induction false} SpacedNonBlank(lines: seq<string>, k: nat)
    requires forall i | 0 <= i < |lines| :: lines[i] != []
    requires k <= |lines|
    ensures NonBlank(Spaced(lines, k)) == lines[k..]
    decreases |lines| - k
  {
    if k < |lines| {
      SpacedNonBlank(lines, k + 1);
      var tail := Spaced(lines, k + 1);
      if k == 2 || k == 5 {
        NonBlankSkip(lines[k], tail);
      } else {
        NonBlankKeep(lines[k], tail);
      }
      assert lines[k..] == [lines[k]] + lines[k + 1..];
    }
  }

  /** The non-blank written lines are the rows' lines, in order. */
  lemma WrittenNonBlank(rows: seq<seq<nat>>)
    requires forall i | 0 <= i < |rows| :: |rows[i]| > 0
    ensures NonBlank(WrittenLines(rows, 0)) == RowLines(rows)
  {
    forall i | 0 <= i < |rows| ensures RowLines(rows)[i] != [] {
      assert |CellText(rows[i][0])| >= 1;
    }
    SpacedNonBlank(RowLines(rows), 0);
  }

  /** The text `Display` writes splits back into the written lines. */
  lemma RenderLines(b: Board)
    requires forall i, q | 0 <= i < |b.rows| && 0 <= q < |b.rows[i]| :: b.rows[i][q] < 10
    ensures Lines(Render(b)) == WrittenLines(b.rows, 0)
  {
    RowsTextJoin(RowLines(b.rows), 0);
    WrittenLinesPlain(b.rows);
    LinesJoin(WrittenLines(b.rows, 0));
  }

  /** Reading the written lines gives back the board, by either reader. */
  lemma ReadWritten(b: Board)
    requires Grid9(b.rows) && forall i, j | 0 <= i < 9 && 0 <= j < 9 :: b.rows[i][j] < 10
    ensures ReadBoard(WrittenLines(b.rows, 0)) == Success(b)
    ensures ReadBoardChecked(WrittenLines(b.rows, 0)) == Success(b)
  {
    WrittenNonBlank(b.rows);
    var L := NonBlank(WrittenLines(b.rows, 0));
    forall i | 0 <= i < 9 ensures Cells(L[i]) == Marks(b.rows[i], 0) {
      RowTextCells(b.rows[i], 0);
    }
    assert LinesOk(L, 0, true) && LinesOk(L, 0, false);
    ReadBackRows(b, ReadBoard(WrittenLines(b.rows, 0)));
    ReadBackRows(b, ReadBoardChecked(WrittenLines(b.rows, 0)));
  }

  /** A board of digits that `Display` writes out reads back unchanged. */
  lemma RenderReadBack(b: Board)
    requires Grid9(b.rows) && forall i, j | 0 <= i < 9 && 0 <= j < 9 :: b.rows[i][j] < 10
    ensures ReadBoard(Lines(Render(b))) == Success(b)
    ensures ReadBoardChecked(Lines(Render(b))) == Success(b)
  {
    RenderLines(b);
    ReadWritten(b);
  }

  lemma ReadBackRows(b: Board, r: Result<Board, BoardReadError>)
    requires Grid9(b.rows) && forall i, j | 0 <= i < 9 && 0 <= j < 9 :: b.rows[i][j] < 10
    requires r.Success? && Grid9(r.value.rows)
    requires forall i, j | 0 <= i < 9 && 0 <= j < 9 :: r.value.rows[i][j] == CellValue(Marks(b.rows[i], 0)[j])
    ensures r == Success(b)
  {
    forall i | 0 <= i < 9 ensures r.value.rows[i] == b.rows[i] {
      forall j | 0 <= j < 9 ensures r.value.rows[i][j] == b.rows[i][j] {
        assert Marks(b.rows[i], 0)[j] == CellMark(b.rows[i][j]);
      }
    }
    assert r.value.rows == b.rows;
  }

  // ---------------------------------------------------------------------
  // Checking a solution
  // ---------------------------------------------------------------------

  /** A solved board: every cell of the 9×9 grid holds one of 1..9, and no
      digit repeats in a row, a column or a block. */
  predicate Solved(b: Board) {
    Big(b) && DigitsOnly(b) && RowsDistinct(b) && ColsDistinct(b) && BlocksDistinct(b)
  }

  predicate DigitsOnly(b: Board)
    requires Big(b)
  {
    forall i, j | 0 <= i < 9 && 0 <= j < 9 :: 1 <= b.rows[i][j] <= 9
  }

  predicate RowsDistinct(b: Board)
    requires Big(b)
  {
    forall i, j, j' | 0 <= i < 9 && 0 <= j < j' < 9 :: b.rows[i][j] != b.rows[i][j']
  }

  predicate ColsDistinct(b: Board)
    requires Big(b)
  {
    forall i, i', j | 0 <= i < i' < 9 && 0 <= j < 9 :: b.rows[i][j] != b.rows[i'][j]
  }

  predicate BlocksDistinct(b: Board)
    requires Big(b)
  {
    forall i, j, i', j' |
      && 0 <= i < 9 && 0 <= j < 9 && 0 <= i' < 9 && 0 <= j' < 9
      && (i != i' || j != j') && CellToBlock(i, j) == CellToBlock(i', j') ::
      b.rows[i][j] != b.rows[i'][j']
  }

  /** Nine cells holding each of 1..9 once. */
  predicate FullGroup(cells: seq<nat>) {
    && |cells| == 9
    && (forall k | 0 <= k < 9 :: 1 <= cells[k] <= 9)
    && (forall k, m | 0 <= k < m < 9 :: cells[k] != cells[m])
  }

  function RowCells(b: Board, i: nat): (r: seq<nat>)
    requires Big(b) && i < 9
    ensures |r| == 9 && forall j | 0 <= j < 9 :: r[j] == b.rows[i][j]
  {
    b.rows[i][..9]
  }

  function ColCells(b: Board, j: nat): (r: seq<nat>)
    requires Big(b) && j < 9
    ensures |r| == 9 && forall i | 0 <= i < 9 :: r[i] == b.rows[i][j]
  {
    seq(9, i requires 0 <= i < 9 => b.rows[i][j])
  }

  /** The cells the validator visits for `block`, row by row. */
  function BlockCells(b: Board, block: nat): (r: seq<nat>)
    requires Big(b) && block < 9
    ensures |r| == 9
  {
    seq(9, k requires 0 <= k < 9 => b.rows[block / 3 * 3 + k / 3][block % 3 * 3 + k % 3])
  }

  /** Cell `k` of a block's walk lies in that block, and every cell of the
      grid is visited by the walk of its block. */
  lemma BlockWalk(block: nat, k: nat, i: nat, j: nat)
    requires block < 9 && k < 9 && i < 9 && j < 9
    ensures block / 3 * 3 + k / 3 < 9 && block % 3 * 3 + k % 3 < 9
    ensures (i == block / 3 * 3 + k / 3 && j == block % 3 * 3 + k % 3) <==>
      (CellToBlock(i, j) == block && k == i % 3 * 3 + j % 3)
  {
    Split3(block, block / 3, block % 3);
    Split3(k, k / 3, k % 3);
    Split3(i, i / 3, i % 3);
    Split3(j, j / 3, j % 3);
    if i == block / 3 * 3 + k / 3 && j == block % 3 * 3 + k % 3 {
      Split3(i, block / 3, k / 3);
      Split3(j, block % 3, k % 3);
    }
    if CellToBlock(i, j) == block && k == i % 3 * 3 + j % 3 {
      Split3(block, i / 3, j / 3);
      Split3(k, i % 3, j % 3);
    }
  }

  /** Division by three with quotient `q` and remainder `r`. */
  lemma Split3(x: nat, q: nat, r: nat)
    requires x == q * 3 + r && r < 3
    ensures x / 3 == q && x % 3 == r
  {
  }

  /** The inner check of `assert_valid_sudoku_solution`: a table of the
      digits seen so far; a 0 or a repeated digit fails, and so does a
      digit above 9, whose index is out of the table's bounds. */
  method CheckGroup(cells: seq<nat>) returns (ok: bool)
    requires |cells| == 9
    ensures ok <==> FullGroup(cells)
  {
    var digits := seq(9, _ => false);
    var k := 0;
    while k < 9
      invariant 0 <= k <= 9 && |digits| == 9
      invariant forall m | 0 <= m < k :: 1 <= cells[m] <= 9
      invariant forall m, m' | 0 <= m < m' < k :: cells[m] != cells[m']
      invariant forall d | 0 <= d < 9 :: digits[d] <==> exists m | 0 <= m < k :: cells[m] == d + 1
    {
      var digit := cells[k];
      if digit == 0 || digit > 9 {
        return false;
      }
      if digits[digit - 1] {
        return false;
      }
      digits := digits[digit - 1 := true];
      k := k + 1;
    }
    return true;
  }

  /** The rows the validator checks are all full exactly when every cell
      holds a digit and no row repeats one. */
  lemma RowsFull(b: Board)
    requires Big(b)
    ensures DigitsOnly(b) && RowsDistinct(b) <==> forall i | 0 <= i < 9 :: FullGroup(RowCells(b, i))
  {
    if forall i | 0 <= i < 9 :: FullGroup(RowCells(b, i)) {
      forall i, j | 0 <= i < 9 && 0 <= j < 9 ensures 1 <= b.rows[i][j] <= 9 {
        assert RowCells(b, i)[j] == b.rows[i][j];
      }
      forall i, j, j' | 0 <= i < 9 && 0 <= j < j' < 9 ensures b.rows[i][j] != b.rows[i][j'] {
        assert RowCells(b, i)[j] == b.rows[i][j] && RowCells(b, i)[j'] == b.rows[i][j'];
      }
    }
  }

  /** Given digits everywhere, the columns are all full exactly when no
      column repeats a digit. */
  lemma ColsFull(b: Board)
    requires Big(b)
    ensures DigitsOnly(b) ==> (ColsDistinct(b) <==> forall j | 0 <= j < 9 :: FullGroup(ColCells(b, j)))
  {
    if forall j | 0 <= j < 9 :: FullGroup(ColCells(b, j)) {
      forall i, i', j | 0 <= i < i' < 9 && 0 <= j < 9 ensures b.rows[i][j] != b.rows[i'][j] {
        assert ColCells(b, j)[i] == b.rows[i][j] && ColCells(b, j)[i'] == b.rows[i'][j];
      }
    }
  }

  /** Given digits everywhere, the blocks are all full exactly when no
      block repeats a digit. */
  lemma BlocksFull(b: Board)
    requires Big(b)
    ensures DigitsOnly(b) ==> (BlocksDistinct(b) <==> forall block | 0 <= block < 9 :: FullGroup(BlockCells(b, block)))
  {
    if DigitsOnly(b) && BlocksDistinct(b) {
      forall block | 0 <= block < 9 ensures FullGroup(BlockCells(b, block)) {
        BlockFull(b, block);
      }
    }
    if forall block | 0 <= block < 9 :: FullGroup(BlockCells(b, block)) {
      BlocksDistinctFromGroups(b);
    }
  }

  lemma BlocksDistinctFromGroups(b: Board)
    requires Big(b) && forall block | 0 <= block < 9 :: FullGroup(BlockCells(b, block))
    ensures BlocksDistinct(b)
  {
    forall i, j, i', j' |
      && 0 <= i < 9 && 0 <= j < 9 && 0 <= i' < 9 && 0 <= j' < 9
      && (i != i' || j != j') && CellToBlock(i, j) == CellToBlock(i', j')
      ensures b.rows[i][j] != b.rows[i'][j']
    {
      CellToBlockRanges(i, j, 0);
      BlockPair(b, i, j, i', j');
    }
  }

  /** Two cells of one block are two places of that block's walk. */
  lemma BlockPair(b: Board, i: nat, j: nat, i': nat, j': nat)
    requires Big(b) && i < 9 && j < 9 && i' < 9 && j' < 9
    requires (i != i' || j != j') && CellToBlock(i, j) == CellToBlock(i', j')
    requires FullGroup(BlockCells(b, CellToBlock(i, j)))
    ensures b.rows[i][j] != b.rows[i'][j']
  {
    var block := CellToBlock(i, j);
    CellToBlockRanges(i, j, 0);
    var k, m := i % 3 * 3 + j % 3, i' % 3 * 3 + j' % 3;
    BlockWalk(block, k, i, j);
    BlockWalk(block, m, i', j');
    var cells := BlockCells(b, block);
    if k < m { assert cells[k] != cells[m]; } else { assert cells[m] != cells[k]; }
  }

  /** Place `k` of a block's walk is a cell of that block. */
  lemma BlockCell(b: Board, block: nat, k: nat) returns (i: nat, j: nat)
    requires Big(b) && block < 9 && k < 9
    ensures i < 9 && j < 9 && BlockCells(b, block)[k] == b.rows[i][j]
    ensures CellToBlock(i, j) == block && k == i % 3 * 3 + j % 3
  {
    i, j := block / 3 * 3 + k / 3, block % 3 * 3 + k % 3;
    BlockWalk(block, k, i, j);
  }

  lemma BlockFull(b: Board, block: nat)
    requires Big(b) && DigitsOnly(b) && BlocksDistinct(b) && block < 9
    ensures FullGroup(BlockCells(b, block))
  {
    var cells := BlockCells(b, block);
    forall k, m | 0 <= k < m < 9 ensures cells[k] != cells[m] {
      var i, j := BlockCell(b, block, k);
      var i', j' := BlockCell(b, block, m);
      assert i != i' || j != j';
    }
    forall k | 0 <= k < 9 ensures 1 <= cells[k] <= 9 {
      var i, j := BlockCell(b, block, k);
    }
  }

  /** The row checks of `assert_valid_sudoku_solution`. */
  method CheckRows(b: Board) returns (ok: bool)
    requires Big(b)
    ensures ok <==> forall i | 0 <= i < 9 :: FullGroup(RowCells(b, i))
  {
    for i := 0 to 9
      invariant forall i' | 0 <= i' < i :: FullGroup(RowCells(b, i'))
    {
      ok := CheckGroup(RowCells(b, i));
      if !ok {
        return;
      }
    }
    return true;
  }

  /** The column checks of `assert_valid_sudoku_solution`. */
  method CheckCols(b: Board) returns (ok: bool)
    requires Big(b)
    ensures ok <==> forall j | 0 <= j < 9 :: FullGroup(ColCells(b, j))
  {
    for j := 0 to 9
      invariant forall j' | 0 <= j' < j :: FullGroup(ColCells(b, j'))
    {
      ok := CheckGroup(ColCells(b, j));
      if !ok {
        return;
      }
    }
    return true;
  }

  /** The block checks of `assert_valid_sudoku_solution`. */
  method CheckBlocks(b: Board) returns (ok: bool)
    requires Big(b)
    ensures ok <==> forall block | 0 <= block < 9 :: FullGroup(BlockCells(b, block))
  {
    for block := 0 to 9
      invariant forall block' | 0 <= block' < block :: FullGroup(BlockCells(b, block'))
    {
      ok := CheckGroup(BlockCells(b, block));
      if !ok {
        return;
      }
    }
    return true;
  }

  /** `assert_valid_sudoku_solution`, returning whether every assertion
      holds instead of panicking: rows, then columns, then blocks. */
  method ValidateSolution(b: Board) returns (ok: bool)
    ensures ok <==> Solved(b)
  {
    if !Big(b) {
      return false;
    }
    RowsFull(b);
    ColsFull(b);
    BlocksFull(b);
    ok := CheckRows(b);
    if ok {
      ok := CheckCols(b);
      if ok {
        ok := CheckBlocks(b);
      }
    }
  }
}
