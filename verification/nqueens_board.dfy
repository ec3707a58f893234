/**
 * The N-queens board of `nqueens.rs`: a square of cells where 1 is a
 * queen, its diagonal numbering, its text form and the check of a
 * solution.
 */
module NQueensBoard {
  import opened Wrappers
  import opened Text

  datatype Board = Board(rows: seq<seq<nat>>)

  // ---------------------------------------------------------------------
  // Diagonals
  // ---------------------------------------------------------------------

  /** `col_row_to_diag1`: the diagonals running up to the right are
      numbered by column minus row. */
  function Diag1(col: nat, row: nat): int {
    col - row
  }

  /** `col_row_to_diag2`: the diagonals running down to the right are
      numbered by column plus row, shifted by `n - 1`. */
  function Diag2(col: nat, row: nat, n: nat): int {
    col + row - (n - 1)
  }

  /** On an `n` by `n` board both numberings range over `-(n-1) .. n-1`,
      the diagonals the encoder declares. */
  lemma DiagRanges(col: nat, row: nat, n: nat)
    requires col < n && row < n
    ensures -(n - 1) <= Diag1(col, row) <= n - 1
    ensures -(n - 1) <= Diag2(col, row, n) <= n - 1
  {
  }

  /** Two squares share a numbered diagonal exactly when they are as far
      apart in columns as in rows, which is how a queen attacks along a
      diagonal. */
  lemma DiagonalAttack(col: nat, row: nat, col': nat, row': nat, n: nat)
    ensures Diag1(col, row) == Diag1(col', row') || Diag2(col, row, n) == Diag2(col', row', n) <==>
      col - col' == row - row' || col - col' == row' - row
  {
  }

  // ---------------------------------------------------------------------
  // Writing a board
  // ---------------------------------------------------------------------

  /** The character `fmt` writes for a cell. */
  function Mark(cell: nat): char {
    if cell == 0 then '.' else 'Q'
  }

  /** One row of `fmt`: a mark per cell. */
  function RowText(row: seq<nat>): (s: string)
    ensures |s| == |row| && '\n' !in s && '\r' !in s
    ensures forall k | 0 <= k < |row| :: s[k] == Mark(row[k])
    decreases |row|
  {
    if row == [] then "" else [Mark(row[0])] + RowText(row[1..])
  }

  /** The row lines of a board. */
  function RowLines(rows: seq<seq<nat>>): (r: seq<string>)
    ensures |r| == |rows| && forall k | 0 <= k < |rows| :: r[k] == RowText(rows[k])
  {
    seq(|rows|, k requires 0 <= k < |rows| => RowText(rows[k]))
  }

  /** `Display::fmt`: every row, each followed by a newline. */
  function Render(b: Board): string {
    Join(RowLines(b.rows))
  }

  /** The cell a mark stands for on a board of queens. */
  function ReadMark(c: char): nat {
    if c == '.' then 0 else 1
  }

  /** Reading a board of queens back from its lines. */
  function ReadRows(lines: seq<string>): (r: seq<seq<nat>>)
    ensures |r| == |lines|
    ensures forall k | 0 <= k < |lines| :: |r[k]| == |lines[k]|
  {
    seq(|lines|, k requires 0 <= k < |lines| => seq(|lines[k]|, q requires 0 <= q < |lines[k]| => ReadMark(lines[k][q])))
  }

  /** A board holds only empty cells and queens. */
  predicate ZeroOne(b: Board) {
    forall r, q | 0 <= r < |b.rows| && 0 <= q < |b.rows[r]| :: b.rows[r][q] <= 1
  }

  /** The text of a board has one line per row, with a `Q` exactly where
      the row has a queen; for a board of zeros and ones the lines read
      back as the board. */
  lemma RenderReadBack(b: Board)
    ensures Lines(Render(b)) == RowLines(b.rows)
    ensures forall r, q | 0 <= r < |b.rows| && 0 <= q < |b.rows[r]| ::
      Lines(Render(b))[r][q] == 'Q' <==> b.rows[r][q] != 0
    ensures ZeroOne(b) ==> ReadRows(Lines(Render(b))) == b.rows
  {
    LinesJoin(RowLines(b.rows));
    if ZeroOne(b) {
      var r := ReadRows(RowLines(b.rows));
      forall k | 0 <= k < |b.rows| ensures r[k] == b.rows[k] {
        assert |r[k]| == |b.rows[k]|;
      }
    }
  }

  // ---------------------------------------------------------------------
  // Checking a solution
  // ---------------------------------------------------------------------

  /** A queen stands on (`r`, `c`). */
  predicate Queen(b: Board, r: nat, c: nat) {
    r < |b.rows| && c < |b.rows[r]| && b.rows[r][c] == 1
  }

  ghost predicate RowHasQueen(b: Board, r: nat) {
    exists c | 0 <= c < |b.rows| :: Queen(b, r, c)
  }

  ghost predicate ColHasQueen(b: Board, c: nat) {
    exists r | 0 <= r < |b.rows| :: Queen(b, r, c)
  }

  /** A solution of the `n`-queens problem for `n = |b.rows|`: the rows are
      long enough, every row and every column holds a queen, and no two
      queens share a row, a column or a diagonal. */
  ghost predicate QueensValid(b: Board) {
    var n := |b.rows|;
    && n >= 1
    && (forall r | 0 <= r < n :: |b.rows[r]| >= n)
    && (forall r | 0 <= r < n :: RowHasQueen(b, r))
    && (forall c | 0 <= c < n :: ColHasQueen(b, c))
    && (forall r: nat, c: nat, r': nat, c': nat | r < n && c < n && r' < n && c' < n && Queen(b, r, c) && Queen(b, r', c') && (r, c) != (r', c') ::
          r != r' && c != c' && Diag1(c, r) != Diag1(c', r') && Diag2(c, r, n) != Diag2(c', r', n))
  }

  /** The four count vectors of the validator. */
  datatype Line = RowLine | ColLine | Diag1Line | Diag2Line

  /** The slot of the count vector a queen on (`r`, `c`) adds to. */
  function Slot(kind: Line, n: nat, r: nat, c: nat): int {
    match kind
    case RowLine => r
    case ColLine => c
    case Diag1Line => Diag1(c, r) + (n - 1)
    case Diag2Line => Diag2(c, r, n) + (n - 1)
  }

  /** Cell (`r`, `c`) comes before cell (`row`, `col`) in row-major order. */
  predicate Before(r: nat, c: nat, row: nat, col: nat) {
    r < row || (r == row && c < col)
  }

  /** The queens the validator has counted into slot `v` of vector `kind`
      before reaching cell (`row`, `col`). */
  function Seen(b: Board, n: nat, row: nat, col: nat, kind: Line, v: int): set<(nat, nat)> {
    set r: nat, c: nat | r < n && c < n && Before(r, c, row, col) && Queen(b, r, c) && Slot(kind, n, r, c) == v :: (r, c)
  }

  /** Every queen of the board in slot `v` of vector `kind`. */
  function OnLine(b: Board, kind: Line, v: int): set<(nat, nat)> {
    Seen(b, |b.rows|, |b.rows|, 0, kind, v)
  }

  /** The validator's final test: one queen per row and column, at most one
      per diagonal. */
  predicate CountsOk(b: Board) {
    var n := |b.rows|;
    && (forall v | 0 <= v < n :: |OnLine(b, RowLine, v)| == 1 && |OnLine(b, ColLine, v)| == 1)
    && (forall v | 0 <= v < 2 * n - 1 :: |OnLine(b, Diag1Line, v)| <= 1 && |OnLine(b, Diag2Line, v)| <= 1)
  }

  /** The queens counted into a slot once cell (`row`, `col`) is visited:
      those counted before, and the cell itself when it holds a queen in
      that slot. */
  lemma SeenExtends(b: Board, n: nat, row: nat, col: nat, kind: Line, v: int)
    requires row < n && col < n
    ensures Seen(b, n, row, col + 1, kind, v) ==
      Seen(b, n, row, col, kind, v) + if Queen(b, row, col) && Slot(kind, n, row, col) == v then {(row, col)} else {}
  {
  }

  /** Visiting one more cell adds it to the slot it counts into. */
  lemma SeenStep(b: Board, n: nat, row: nat, col: nat, kind: Line, v: int)
    requires row < n && col < n
    ensures (row, col) !in Seen(b, n, row, col, kind, v)
    ensures |Seen(b, n, row, col + 1, kind, v)| ==
      |Seen(b, n, row, col, kind, v)| + if Queen(b, row, col) && Slot(kind, n, row, col) == v then 1 else 0
  {
    SeenExtends(b, n, row, col, kind, v);
  }

  /** The end of a row is the start of the next. */
  lemma SeenNextRow(b: Board, n: nat, row: nat, kind: Line, v: int)
    ensures Seen(b, n, row, n, kind, v) == Seen(b, n, row + 1, 0, kind, v)
  {
  }

  /** Nothing is counted before the first cell. */
  lemma SeenStart(b: Board, n: nat, kind: Line, v: int)
    ensures Seen(b, n, 0, 0, kind, v) == {}
  {
  }

  /** `(diag + (n as i16 - 1)) as usize`: the slot index the validator
      computes, `None` where the 16-bit arithmetic overflows.  A negative
      result wraps to a huge index, which the bounds check then rejects. */
  function SlotIndex(diag: int, n: nat): (r: Option<nat>)
    ensures 1 <= n <= 255 && -(n - 1) <= diag <= n - 1 ==> r == Some(diag + n - 1)
  {
    var m := I16(n);
    if !FitsI16(m - 1) || !FitsI16(diag + (m - 1)) then None
    else if diag + (m - 1) >= 0 then Some(diag + (m - 1))
    else Some(diag + (m - 1) + 0x1_0000_0000_0000_0000)
  }

  /** `x as i16`: the low sixteen bits read as a signed number. */
  function I16(x: int): (r: int)
    ensures FitsI16(r)
    ensures 0 <= x < 32768 ==> r == x
  {
    var m := x % 65536;
    if m >= 32768 then m - 65536 else m
  }

  predicate FitsI16(x: int) {
    -32768 <= x <= 32767
  }

  /** The index the validator bumps in the count vector of `kind` for a
      queen on (`row`, `col`): the casts `as u8` and `as i16` of the source
      written out.  `None` is a panic: overflow or an index past the end. */
  function CountIndex(kind: Line, n: nat, row: nat, col: nat): (r: Option<nat>)
    requires kind == Diag1Line || kind == Diag2Line
    ensures n <= 255 && row < n && col < n ==> r == Some(Slot(kind, n, row, col))
  {
    var diag := if kind == Diag1Line then Diag1(col % 256, row % 256) else Diag2(col % 256, row % 256, n % 256);
    match SlotIndex(diag, n)
    case None => None
    case Some(i) => if i < 2 * n - 1 then Some(i) else None
  }

  /** The counting loops of `assert_valid_nqueens_solution` keep, for every
      slot, the number of queens seen so far on it. */
  ghost predicate Tallied(b: Board, n: nat, row: nat, col: nat,
                          rows: seq<int>, cols: seq<int>, d1: seq<int>, d2: seq<int>) {
    && |rows| == n && |cols| == n && |d1| == 2 * n - 1 && |d2| == 2 * n - 1
    && (forall v | 0 <= v < n :: rows[v] == |Seen(b, n, row, col, RowLine, v)|)
    && (forall v | 0 <= v < n :: cols[v] == |Seen(b, n, row, col, ColLine, v)|)
    && (n <= 255 ==> forall v | 0 <= v < 2 * n - 1 :: d1[v] == |Seen(b, n, row, col, Diag1Line, v)|)
    && (n <= 255 ==> forall v | 0 <= v < 2 * n - 1 :: d2[v] == |Seen(b, n, row, col, Diag2Line, v)|)
  }

  /** One more cell visited: each count vector gains the cell in its slot
      when it holds a queen. */
  lemma TallyStep(b: Board, n: nat, row: nat, col: nat,
                  rows: seq<int>, cols: seq<int>, d1: seq<int>, d2: seq<int>,
                  rows': seq<int>, cols': seq<int>, d1': seq<int>, d2': seq<int>)
    requires 1 <= n && row < n && col < n
    requires Tallied(b, n, row, col, rows, cols, d1, d2)
    requires !Queen(b, row, col) ==> rows' == rows && cols' == cols && d1' == d1 && d2' == d2
    requires Queen(b, row, col) ==> rows' == rows[row := rows[row] + 1] && cols' == cols[col := cols[col] + 1]
    requires Queen(b, row, col) ==> |d1'| == |d1| && |d2'| == |d2|
    requires Queen(b, row, col) && n <= 255 ==>
      var s1, s2 := Slot(Diag1Line, n, row, col), Slot(Diag2Line, n, row, col);
      0 <= s1 < |d1| && 0 <= s2 < |d2| && d1' == d1[s1 := d1[s1] + 1] && d2' == d2[s2 := d2[s2] + 1]
    ensures Tallied(b, n, row, col + 1, rows', cols', d1', d2')
  {
    forall v | 0 <= v < n ensures rows'[v] == |Seen(b, n, row, col + 1, RowLine, v)| {
      SeenStep(b, n, row, col, RowLine, v);
    }
    forall v | 0 <= v < n ensures cols'[v] == |Seen(b, n, row, col + 1, ColLine, v)| {
      SeenStep(b, n, row, col, ColLine, v);
    }
    if n <= 255 {
      forall v | 0 <= v < 2 * n - 1 ensures d1'[v] == |Seen(b, n, row, col + 1, Diag1Line, v)| {
        SeenStep(b, n, row, col, Diag1Line, v);
      }
      forall v | 0 <= v < 2 * n - 1 ensures d2'[v] == |Seen(b, n, row, col + 1, Diag2Line, v)| {
        SeenStep(b, n, row, col, Diag2Line, v);
      }
    }
  }

  /** A set has at most one element exactly when any two of its elements
      are equal. */
  lemma AtMostOne<T>(s: set<T>)
    ensures |s| <= 1 <==> forall x, y | x in s && y in s :: x == y
  {
    if s != {} {
      var x :| x in s;
      if forall x, y | x in s && y in s :: x == y {
        assert s == {x};
      } else {
        var y, z :| y in s && z in s && y != z;
        assert {y, z} <= s;
        assert |{y, z}| == 2;
        SubsetCard({y, z}, s);
      }
    }
  }

  lemma {:induction false} SubsetCard<T>(a: set<T>, b: set<T>)
    requires a <= b
    ensures |a| <= |b|
    decreases |a|
  {
    if a != {} {
      var x :| x in a;
      SubsetCard(a - {x}, b - {x});
    }
  }

  /** Two queens in one slot of a vector whose count is at most one are the
      same queen. */
  lemma SameSlot(b: Board, kind: Line, r: nat, c: nat, r': nat, c': nat)
    requires |OnLine(b, kind, Slot(kind, |b.rows|, r, c))| <= 1
    requires r < |b.rows| && c < |b.rows| && Queen(b, r, c)
    requires r' < |b.rows| && c' < |b.rows| && Queen(b, r', c')
    requires Slot(kind, |b.rows|, r', c') == Slot(kind, |b.rows|, r, c)
    ensures (r, c) == (r', c')
  {
    var s := OnLine(b, kind, Slot(kind, |b.rows|, r, c));
    assert (r, c) in s && (r', c') in s;
    AtMostOne(s);
  }

  /** A row or column whose count is one holds a queen. */
  lemma QueenFromCount(b: Board, kind: Line, v: nat)
    requires kind == RowLine || kind == ColLine
    requires |OnLine(b, kind, v)| == 1
    ensures kind == RowLine ==> RowHasQueen(b, v)
    ensures kind == ColLine ==> ColHasQueen(b, v)
  {
    var s := OnLine(b, kind, v);
    assert s != {};
    var q :| q in s;
    assert Queen(b, q.0, q.1);
  }

  /** On a solution every slot holds at most one queen. */
  lemma SlotsOfSolution(b: Board, kind: Line, v: int)
    requires QueensValid(b)
    ensures |OnLine(b, kind, v)| <= 1
  {
    var s := OnLine(b, kind, v);
    forall x, y | x in s && y in s ensures x == y {
    }
    AtMostOne(s);
  }

  /** On a solution every row and column holds exactly one queen. */
  lemma LinesOfSolution(b: Board, v: nat)
    requires QueensValid(b) && v < |b.rows|
    ensures |OnLine(b, RowLine, v)| == 1 && |OnLine(b, ColLine, v)| == 1
  {
    SlotsOfSolution(b, RowLine, v);
    SlotsOfSolution(b, ColLine, v);
    assert RowHasQueen(b, v) && ColHasQueen(b, v);
    var c :| 0 <= c < |b.rows| && Queen(b, v, c);
    assert (v, c) in OnLine(b, RowLine, v);
    var r :| 0 <= r < |b.rows| && Queen(b, r, v);
    assert (r, v) in OnLine(b, ColLine, v);
  }

  /** The validator's counts say what a solution is. */
  lemma CountsMeaning(b: Board)
    requires |b.rows| >= 1 && forall r | 0 <= r < |b.rows| :: |b.rows[r]| >= |b.rows|
    ensures CountsOk(b) <==> QueensValid(b)
  {
    var n := |b.rows|;
    if CountsOk(b) {
      forall r | 0 <= r < n ensures RowHasQueen(b, r) {
        QueenFromCount(b, RowLine, r);
      }
      forall c | 0 <= c < n ensures ColHasQueen(b, c) {
        QueenFromCount(b, ColLine, c);
      }
      forall r: nat, c: nat, r': nat, c': nat | r < n && c < n && r' < n && c' < n && Queen(b, r, c) && Queen(b, r', c') && (r, c) != (r', c')
        ensures r != r' && c != c' && Diag1(c, r) != Diag1(c', r') && Diag2(c, r, n) != Diag2(c', r', n)
      {
        if r == r' { SameSlot(b, RowLine, r, c, r', c'); }
        if c == c' { SameSlot(b, ColLine, r, c, r', c'); }
        if Diag1(c, r) == Diag1(c', r') { SameSlot(b, Diag1Line, r, c, r', c'); }
        if Diag2(c, r, n) == Diag2(c', r', n) { SameSlot(b, Diag2Line, r, c, r', c'); }
      }
    }
    if QueensValid(b) {
      forall v | 0 <= v < n ensures |OnLine(b, RowLine, v)| == 1 && |OnLine(b, ColLine, v)| == 1 {
        LinesOfSolution(b, v);
      }
      forall v | 0 <= v < 2 * n - 1 ensures |OnLine(b, Diag1Line, v)| <= 1 && |OnLine(b, Diag2Line, v)| <= 1 {
        SlotsOfSolution(b, Diag1Line, v);
        SlotsOfSolution(b, Diag2Line, v);
      }
    }
  }

  /** Before the first cell every count is zero. */
  lemma TalliedStart(b: Board, n: nat)
    requires n >= 1
    ensures Tallied(b, n, 0, 0, seq(n, _ => 0), seq(n, _ => 0), seq(2 * n - 1, _ => 0), seq(2 * n - 1, _ => 0))
  {
    forall kind, v ensures Seen(b, n, 0, 0, kind, v) == {} {
      SeenStart(b, n, kind, v);
    }
  }

  /** The counts at the end of a row are those at the start of the next. */
  lemma TalliedNextRow(b: Board, n: nat, row: nat, rows: seq<int>, cols: seq<int>, d1: seq<int>, d2: seq<int>)
    requires Tallied(b, n, row, n, rows, cols, d1, d2)
    ensures Tallied(b, n, row + 1, 0, rows, cols, d1, d2)
  {
    forall kind, v ensures Seen(b, n, row, n, kind, v) == Seen(b, n, row + 1, 0, kind, v) {
      SeenNextRow(b, n, row, kind, v);
    }
  }

  /** After the last cell the counts are those of the whole board. */
  lemma TalliedEnd(b: Board, rows: seq<int>, cols: seq<int>, d1: seq<int>, d2: seq<int>)
    requires 1 <= |b.rows| <= 255 && Tallied(b, |b.rows|, |b.rows|, 0, rows, cols, d1, d2)
    ensures CountsOk(b) <==>
      (forall u | 0 <= u < |b.rows| :: rows[u] == 1 && cols[u] == 1) &&
      (forall u | 0 <= u < 2 * |b.rows| - 1 :: d1[u] <= 1 && d2[u] <= 1)
  {
    var n := |b.rows|;
    assert forall u | 0 <= u < n :: rows[u] == |OnLine(b, RowLine, u)| && cols[u] == |OnLine(b, ColLine, u)|;
    assert forall u | 0 <= u < 2 * n - 1 :: d1[u] == |OnLine(b, Diag1Line, u)| && d2[u] == |OnLine(b, Diag2Line, u)|;
  }

  /** The final loops of `assert_valid_nqueens_solution`: every row and
      column count is one and every diagonal count at most one. */
  method CheckCounts(rows: seq<int>, cols: seq<int>, d1: seq<int>, d2: seq<int>) returns (ok: bool)
    requires |cols| == |rows| && |d2| == |d1|
    ensures ok <==>
      (forall u | 0 <= u < |rows| :: rows[u] == 1 && cols[u] == 1) &&
      (forall u | 0 <= u < |d1| :: d1[u] <= 1 && d2[u] <= 1)
  {
    ok := true;
    for v := 0 to |rows|
      invariant ok <==> forall u | 0 <= u < v :: rows[u] == 1 && cols[u] == 1
    {
      if rows[v] != 1 || cols[v] != 1 {
        ok := false;
      }
    }
    for v := 0 to |d1|
      invariant ok <==>
        (forall u | 0 <= u < |rows| :: rows[u] == 1 && cols[u] == 1) &&
        (forall u | 0 <= u < v :: d1[u] <= 1 && d2[u] <= 1)
    {
      if d1[v] > 1 || d2[v] > 1 {
        ok := false;
      }
    }
  }

  /** The inner counting loop of `assert_valid_nqueens_solution` over one
      row: every cell of the row is counted into the four vectors.  It
      fails (a panic of the source) on a row shorter than the board, or,
      on boards of more than 255 rows, on a diagonal index that the byte
      casts send out of range. */
  method TallyRow(b: Board, n: nat, row: nat, rows: seq<int>, cols: seq<int>, d1: seq<int>, d2: seq<int>)
    returns (ok: bool, rows': seq<int>, cols': seq<int>, d1': seq<int>, d2': seq<int>)
    requires 1 <= n == |b.rows| && row < n
    requires Tallied(b, n, row, 0, rows, cols, d1, d2)
    ensures ok ==> |b.rows[row]| >= n && Tallied(b, n, row, n, rows', cols', d1', d2')
    ensures !ok ==> |b.rows[row]| < n || n > 255
  {
    rows', cols', d1', d2' := rows, cols, d1, d2;
    var col := 0;
    while col < n
      invariant col <= n
      invariant col <= |b.rows[row]|
      invariant Tallied(b, n, row, col, rows', cols', d1', d2')
    {
      if col >= |b.rows[row]| {
        return false, rows', cols', d1', d2';
      }
      var queen := b.rows[row][col] == 1;
      var i1, i2 := CountIndex(Diag1Line, n, row, col), CountIndex(Diag2Line, n, row, col);
      if queen && (i1.None? || i2.None?) {
        return false, rows', cols', d1', d2';
      }
      var r2, c2, e1, e2 := rows', cols', d1', d2';
      if queen {
        r2 := rows'[row := rows'[row] + 1];
        c2 := cols'[col := cols'[col] + 1];
        e1 := d1'[i1.value := d1'[i1.value] + 1];
        e2 := d2'[i2.value := d2'[i2.value] + 1];
      }
      TallyStep(b, n, row, col, rows', cols', d1', d2', r2, c2, e1, e2);
      rows', cols', d1', d2' := r2, c2, e1, e2;
      col := col + 1;
    }
    ok := true;
  }

  /** `assert_valid_nqueens_solution`, with its panics as `false`: an empty
      board (whose `2 * n - 1` underflows), a row shorter than the board, a
      count index that overflows or runs past its vector, and the failing
      assertions themselves.  For boards of at most 255 rows, where the
      byte casts lose nothing, it passes exactly on solutions. */
  method ValidateQueens(b: Board) returns (ok: bool)
    ensures |b.rows| <= 255 ==> (ok <==> QueensValid(b))
  {
    var n := |b.rows|;
    if n == 0 {
      return false;
    }
    var rows: seq<int> := seq(n, _ => 0);
    var cols: seq<int> := seq(n, _ => 0);
    var d1: seq<int> := seq(2 * n - 1, _ => 0);
    var d2: seq<int> := seq(2 * n - 1, _ => 0);
    TalliedStart(b, n);
    var row := 0;
    while row < n
      invariant row <= n
      invariant forall r | 0 <= r < row :: |b.rows[r]| >= n
      invariant Tallied(b, n, row, 0, rows, cols, d1, d2)
    {
      var full;
      full, rows, cols, d1, d2 := TallyRow(b, n, row, rows, cols, d1, d2);
      if !full {
        return false;
      }
      TalliedNextRow(b, n, row, rows, cols, d1, d2);
      row := row + 1;
    }
    ok := CheckCounts(rows, cols, d1, d2);
    if n <= 255 {
      TalliedEnd(b, rows, cols, d1, d2);
      CountsMeaning(b);
    }
  }
}
