/**
 * `convert_to_nqueens_solution`, `solve_nqueens_problem_with_exact_cover`
 * and `count_all_nqueens_solutions_with_exact_cover`: the solver's options
 * written back into a board of queens.
 *
 * The converter reads the row of an option from the second character of
 * its name only, so from the tenth row on it misreads the name ("a10" is
 * row 1), and from ten rows on it fails on every solution.
 * `ConvertToNQueensSolution` models it as written; `ConvertWholeRow` reads
 * the whole numeral, as intended.
 */
module NQueensSolve {
  import opened Wrappers
  import opened Text
  import opened ExactCover
  import opened ExactCoverSemantics
  import opened ExactCoverSearch
  import opened NQueensBoard
  import opened NQueens

  // ---------------------------------------------------------------------
  // Reading an option name
  // ---------------------------------------------------------------------

  /** An option name the converter places on an `n` by `n` board. */
  predicate Fits(o: Name, whole: bool, n: nat) {
    ReadSquare(o, whole).Some? && OnBoard(ReadSquare(o, whole).value, n)
  }

  /** Some option of `sel` puts a queen on row `i`, column `j`. */
  predicate Marked(sel: seq<Name>, whole: bool, i: nat, j: nat) {
    exists k | 0 <= k < |sel| :: ReadSquare(sel[k], whole) == Some(Square(j, i))
  }

  /** The row number of a square's name is the row counted from one. */
  lemma OptionNameRead(sq: Square)
    requires sq.col < 159 && sq.row < 255
    ensures RowNumber(OptionName(sq), true) == Some(sq.row + 1)
    ensures ReadSquare(OptionName(sq), true) == Some(sq)
    ensures sq.row < 9 ==> |OptionName(sq)| == 2
  {
    var o := OptionName(sq);
    assert o[1..] == RowName(sq.row);
    ParseNatToString(sq.row + 1);
    OptionNameParse(sq);
  }

  // ---------------------------------------------------------------------
  // The converter
  // ---------------------------------------------------------------------

  /** The first loop of `convert_to_nqueens_solution`: the largest row
      number.  An empty selection has none (`max().unwrap()` panics), and
      so has one with an unreadable name. */
  function MaxRow(sel: seq<Name>, whole: bool): (r: Option<nat>)
    ensures r.Some? <==> sel != [] && forall k | 0 <= k < |sel| :: RowNumber(sel[k], whole).Some?
    ensures r.Some? ==> forall k | 0 <= k < |sel| :: RowNumber(sel[k], whole).value <= r.value
    ensures r.Some? ==> exists k | 0 <= k < |sel| :: RowNumber(sel[k], whole).value == r.value
    decreases |sel|
  {
    if sel == [] then None
    else
      var init := sel[..|sel| - 1];
      var last := sel[|sel| - 1];
      assert forall k | 0 <= k < |init| :: init[k] == sel[k];
      match RowNumber(last, whole)
      case None => None
      case Some(v) =>
        if init == [] then Some(v)
        else
          match MaxRow(init, whole)
          case None => None
          case Some(m) => Some(if v < m then m else v)
  }

  /** Every row of `g` is as long as `g` has rows. */
  predicate SquareGrid(g: seq<seq<nat>>) {
    forall i | 0 <= i < |g| :: |g[i]| == |g|
  }

  /** `vec![vec![0; n]; n]`. */
  function Zeros(n: nat): (g: seq<seq<nat>>)
    ensures |g| == n && SquareGrid(g)
    ensures forall i, j | 0 <= i < n && 0 <= j < n :: g[i][j] == 0
  {
    seq(n, _ => seq(n, _ => 0))
  }

  /** The second loop of `convert_to_nqueens_solution`: a queen on the
      square of every option.  An unreadable name or a square off the board
      panics. */
  function Place(g: seq<seq<nat>>, sel: seq<Name>, whole: bool): (r: Option<seq<seq<nat>>>)
    requires SquareGrid(g)
    ensures r.Some? <==> forall k | 0 <= k < |sel| :: Fits(sel[k], whole, |g|)
    ensures r.Some? ==> |r.value| == |g| && SquareGrid(r.value)
    ensures r.Some? ==> forall i, j | 0 <= i < |g| && 0 <= j < |g| ::
      r.value[i][j] == if Marked(sel, whole, i, j) then 1 else g[i][j]
    decreases |sel|
  {
    if sel == [] then Some(g)
    else
      var init := sel[..|sel| - 1];
      var last := sel[|sel| - 1];
      assert forall k | 0 <= k < |init| :: init[k] == sel[k];
      match Place(g, init, whole)
      case None => None
      case Some(h) =>
        if Fits(last, whole, |g|) then
          var sq := ReadSquare(last, whole).value;
          MarkedSnoc(sel, whole, sq);
          Some(Set(h, sq.row, sq.col))
        else None
  }

  /** A queen on row `i`, column `j`. */
  function Set(h: seq<seq<nat>>, i: nat, j: nat): (r: seq<seq<nat>>)
    requires SquareGrid(h) && i < |h| && j < |h|
    ensures |r| == |h| && SquareGrid(r)
    ensures forall a, b | 0 <= a < |h| && 0 <= b < |h| :: r[a][b] == if a == i && b == j then 1 else h[a][b]
  {
    h[i := h[i][j := 1]]
  }

  /** The last option of `sel` marks its square; the others mark what they
      mark in the prefix. */
  lemma MarkedSnoc(sel: seq<Name>, whole: bool, sq: Square)
    requires sel != [] && ReadSquare(sel[|sel| - 1], whole) == Some(sq)
    ensures forall i, j :: Marked(sel, whole, i, j) <==>
      Marked(sel[..|sel| - 1], whole, i, j) || (i == sq.row && j == sq.col)
  {
    forall i, j ensures Marked(sel, whole, i, j) <==> Marked(sel[..|sel| - 1], whole, i, j) || (i == sq.row && j == sq.col) {
      MarkedSnocAt(sel, whole, sq, i, j);
    }
  }

  lemma MarkedSnocAt(sel: seq<Name>, whole: bool, sq: Square, i: nat, j: nat)
    requires sel != [] && ReadSquare(sel[|sel| - 1], whole) == Some(sq)
    ensures Marked(sel, whole, i, j) <==> Marked(sel[..|sel| - 1], whole, i, j) || (i == sq.row && j == sq.col)
  {
    var init := sel[..|sel| - 1];
    if Marked(init, whole, i, j) {
      var k :| 0 <= k < |init| && ReadSquare(init[k], whole) == Some(Square(j, i));
      assert sel[k] == init[k];
    }
    if i == sq.row && j == sq.col {
      assert ReadSquare(sel[|sel| - 1], whole) == Some(Square(j, i));
    }
    if Marked(sel, whole, i, j) && !(i == sq.row && j == sq.col) {
      var k :| 0 <= k < |sel| && ReadSquare(sel[k], whole) == Some(Square(j, i));
      assert k < |init| && init[k] == sel[k];
    }
  }

  /** The converter reading the row from `RowPart`. */
  function Convert(sel: seq<Name>, whole: bool): (r: Option<Board>)
    ensures r.Some? ==> MaxRow(sel, whole).Some? && |r.value.rows| == MaxRow(sel, whole).value
    ensures r.Some? ==> forall i, j | 0 <= i < |r.value.rows| && 0 <= j < |r.value.rows| ::
      (Queen(r.value, i, j) <==> Marked(sel, whole, i, j))
    ensures r.Some? ==> forall i | 0 <= i < |r.value.rows| :: |r.value.rows[i]| == |r.value.rows|
    ensures r.Some? ==> forall k | 0 <= k < |sel| :: RowNumber(sel[k], whole).Some? && RowNumber(sel[k], whole).value <= |r.value.rows|
    ensures r.Some? <==> MaxRow(sel, whole).Some? && forall k | 0 <= k < |sel| :: Fits(sel[k], whole, MaxRow(sel, whole).value)
  {
    match MaxRow(sel, whole)
    case None => None
    case Some(n) =>
      match Place(Zeros(n), sel, whole)
      case None => None
      case Some(g) => Some(Board(g))
  }

  /** `convert_to_nqueens_solution` as written: the board is as large as
      the largest second character of a name, so never larger than 9, and
      a name of the tenth row or later is read from its first digit
      only. */
  function ConvertToNQueensSolution(sel: seq<Name>): (r: Option<Board>)
    ensures r.Some? ==> |r.value.rows| <= 9
    ensures r.Some? ==> forall i, j | 0 <= i < |r.value.rows| && 0 <= j < |r.value.rows| ::
      (Queen(r.value, i, j) <==> Marked(sel, false, i, j))
  {
    Convert(sel, false)
  }

  /** The converter reading the whole row numeral: the board is as large as
      the largest row number, with a queen on the square of every
      option. */
  function ConvertWholeRow(sel: seq<Name>): (r: Option<Board>)
    ensures r.Some? ==> forall i, j | 0 <= i < |r.value.rows| && 0 <= j < |r.value.rows| ::
      (Queen(r.value, i, j) <==> Marked(sel, true, i, j))
    ensures r.Some? ==> forall k | 0 <= k < |sel| :: RowNumber(sel[k], true).Some? && RowNumber(sel[k], true).value <= |r.value.rows|
  {
    Convert(sel, true)
  }

  /** The as-written converter misreads an option of the tenth row: the
      queen on "a10" lands on the first row of a one-row board, where the
      whole numeral puts it on the tenth row of a ten-row board. */
  lemma TenthRowMisread()
    ensures OptionName(Square(0, 9)) == "a10"
    ensures ConvertToNQueensSolution(["a10"]) == Some(Board([[1]]))
    ensures ConvertWholeRow(["a10"]).Some?
    ensures |ConvertWholeRow(["a10"]).value.rows| == 10 && Queen(ConvertWholeRow(["a10"]).value, 9, 0)
  {
    assert RowName(9) == "10" by {
      assert NatToString(10) == "10";
    }
    assert ColName(0) == "a";
    var o := "a10";
    assert o[1..] == "10" && [o[0]] == "a";
    assert ReadSquare(o, false) == Some(Square(0, 0));
    assert ReadSquare(o, true) == Some(Square(0, 9));
    assert MaxRow([o], false) == Some(1);
    assert MaxRow([o], true) == Some(10);
    var b := ConvertToNQueensSolution([o]).value;
    assert |b.rows| == 1;
    assert Marked([o], false, 0, 0);
    assert b.rows == [[1]] by {
      assert b.rows[0] == [1];
    }
    assert Marked([o], true, 9, 0);
  }

  /** On names of length two, the first nine rows, both converters read the
      same. */
  lemma {:induction false} ShortNamesAgree(sel: seq<Name>)
    requires forall k | 0 <= k < |sel| :: |sel[k]| == 2
    ensures ConvertToNQueensSolution(sel) == ConvertWholeRow(sel)
  {
    forall o | |o| == 2 ensures RowNumber(o, false) == RowNumber(o, true) && ReadSquare(o, false) == ReadSquare(o, true) {
      assert RowPart(o, true) == RowPart(o, false) == [o[1]];
      ParseOneChar(o[1]);
    }
    MaxRowAgree(sel);
    match MaxRow(sel, true)
    case None =>
    case Some(n) => PlaceAgree(Zeros(n), sel);
  }

  lemma {:induction false} MaxRowAgree(sel: seq<Name>)
    requires forall k | 0 <= k < |sel| :: RowNumber(sel[k], false) == RowNumber(sel[k], true)
    ensures MaxRow(sel, false) == MaxRow(sel, true)
    decreases |sel|
  {
    if sel != [] {
      MaxRowAgree(sel[..|sel| - 1]);
    }
  }

  lemma {:induction false} PlaceAgree(g: seq<seq<nat>>, sel: seq<Name>)
    requires SquareGrid(g)
    requires forall k | 0 <= k < |sel| :: ReadSquare(sel[k], false) == ReadSquare(sel[k], true)
    ensures Place(g, sel, false) == Place(g, sel, true)
    decreases |sel|
  {
    if sel != [] {
      PlaceAgree(g, sel[..|sel| - 1]);
    }
  }

  // ---------------------------------------------------------------------
  // Exact covers are boards of non-attacking queens
  // ---------------------------------------------------------------------

  /** An option of an exact cover is the name of a square of the board. */
  lemma SelectedSquare(pb: Problem, n: nat, sol: seq<Name>, k: nat) returns (sq: Square)
    requires n <= 159 && QueensProblem(pb, n) && IsExactCover(pb, sol) && k < |sol|
    ensures OnBoard(sq, n) && sol[k] == OptionName(sq)
  {
    assert sol[k] in sol;
    sq := ReadSquare(sol[k], true).value;
  }

  /** The only row and column items a square covers are its own. */
  lemma LineOfSquare(sq: Square, n: nat, it: Item)
    requires n <= 159 && OnBoard(sq, n) && ValidItem(it, n) && Required(it)
    requires ItemName(it) in SquareItemNames(sq, n)
    ensures it.RowItem? ==> sq.row == it.row
    ensures it.ColItem? ==> sq.col == it.col
  {
    var t :| 0 <= t < 4 && SquareItemNames(sq, n)[t] == ItemName(it);
    SquareItemsValid(sq, n);
    ItemNameInjective(SquareItems(sq, n)[t], it);
  }

  /** Every row and every column is covered by an option of an exact
      cover, the square of a queen in that row or column. */
  lemma LineCovered(pb: Problem, n: nat, sol: seq<Name>, it: Item) returns (k: nat, sq: Square)
    requires n <= 159 && QueensProblem(pb, n) && IsExactCover(pb, sol) && ValidItem(it, n) && Required(it)
    ensures k < |sol| && OnBoard(sq, n) && sol[k] == OptionName(sq)
    ensures it.RowItem? ==> sq.row == it.row
    ensures it.ColItem? ==> sq.col == it.col
  {
    var x := ItemName(it);
    assert IsRequiredName(x, n);
    assert x in pb.requiredItems;
    k := CoverCountWitness(pb, sol, x);
    sq := SelectedSquare(pb, n, sol, k);
    assert x in pb.covers[sol[k]];
    assert x in SquareItemNames(sq, n);
    LineOfSquare(sq, n, it);
  }

  /** Two positions of an exact cover hold squares with no item in
      common. */
  lemma SelectedApart(pb: Problem, n: nat, sol: seq<Name>, k: nat, m: nat) returns (sq: Square, sq': Square)
    requires n <= 159 && QueensProblem(pb, n) && IsExactCover(pb, sol) && k < |sol| && m < |sol| && k != m
    ensures OnBoard(sq, n) && sol[k] == OptionName(sq)
    ensures OnBoard(sq', n) && sol[m] == OptionName(sq')
    ensures forall t | 0 <= t < 4 :: SquareItems(sq, n)[t] != SquareItems(sq', n)[t]
  {
    sq := SelectedSquare(pb, n, sol, k);
    sq' := SelectedSquare(pb, n, sol, m);
    SquareItemsValid(sq, n);
    SquareItemsValid(sq', n);
    forall t | 0 <= t < 4 ensures SquareItems(sq, n)[t] != SquareItems(sq', n)[t] {
      var x := SquareItemNames(sq, n)[t];
      if SquareItems(sq, n)[t] == SquareItems(sq', n)[t] {
        assert x == SquareItemNames(sq', n)[t];
        assert x in pb.covers[sol[k]] && x in pb.covers[sol[m]];
        if k < m {
          CoverCountTwo(pb, sol, k, m, x);
        } else {
          CoverCountTwo(pb, sol, m, k, x);
        }
      }
    }
  }

  /** The options of an exact cover read back as squares of the board. */
  lemma CoverFits(pb: Problem, n: nat, sol: seq<Name>)
    requires 1 <= n <= 159 && QueensProblem(pb, n) && IsExactCover(pb, sol)
    ensures forall k | 0 <= k < |sol| ::
      Fits(sol[k], true, n) && RowNumber(sol[k], true).Some? && RowNumber(sol[k], true).value <= n
  {
    forall k | 0 <= k < |sol|
      ensures Fits(sol[k], true, n) && RowNumber(sol[k], true).Some? && RowNumber(sol[k], true).value <= n
    {
      var sq := SelectedSquare(pb, n, sol, k);
      OptionNameRead(sq);
    }
  }

  /** The largest row number among the options of an exact cover is
      `n`. */
  lemma CoverMaxRow(pb: Problem, n: nat, sol: seq<Name>)
    requires 1 <= n <= 159 && QueensProblem(pb, n) && IsExactCover(pb, sol)
    ensures MaxRow(sol, true) == Some(n)
  {
    CoverFits(pb, n, sol);
    var k0, sq0 := LineCovered(pb, n, sol, RowItem(n - 1));
    OptionNameRead(sq0);
    MaxRowIs(sol, true, n, k0);
  }

  /** The maximum is a bound that some element reaches. */
  lemma MaxRowIs(sel: seq<Name>, whole: bool, n: nat, k0: nat)
    requires forall k | 0 <= k < |sel| :: RowNumber(sel[k], whole).Some? && RowNumber(sel[k], whole).value <= n
    requires k0 < |sel| && RowNumber(sel[k0], whole) == Some(n)
    ensures MaxRow(sel, whole) == Some(n)
  {
    var m := MaxRow(sel, whole);
    assert m.Some?;
    var k :| 0 <= k < |sel| && RowNumber(sel[k], whole).value == m.value;
    assert m.value <= n;
    assert RowNumber(sel[k0], whole).value <= m.value;
  }

  /** An exact cover marks exactly the squares it names. */
  lemma CoverMarked(pb: Problem, n: nat, sol: seq<Name>, i: nat, j: nat)
    requires 1 <= n <= 159 && QueensProblem(pb, n) && IsExactCover(pb, sol) && i < n && j < n
    ensures Marked(sol, true, i, j) <==> OptionName(Square(j, i)) in sol
  {
    if Marked(sol, true, i, j) {
      var k :| 0 <= k < |sol| && ReadSquare(sol[k], true) == Some(Square(j, i));
      var sq := SelectedSquare(pb, n, sol, k);
      OptionNameRead(sq);
    }
    if OptionName(Square(j, i)) in sol {
      var k :| 0 <= k < |sol| && sol[k] == OptionName(Square(j, i));
      OptionNameRead(Square(j, i));
    }
  }

  /** Two squares on different rows, columns and diagonals. */
  predicate SquaresApart(a: Square, b: Square, n: nat) {
    && a.row != b.row && a.col != b.col
    && Diag1(a.col, a.row) != Diag1(b.col, b.row)
    && Diag2(a.col, a.row, n) != Diag2(b.col, b.row, n)
  }

  /** The squares of two positions of an exact cover do not attack each
      other. */
  lemma CoverApart(pb: Problem, n: nat, sol: seq<Name>, k: nat, m: nat)
    requires n <= 159 && QueensProblem(pb, n) && IsExactCover(pb, sol) && k < |sol| && m < |sol| && k != m
    ensures ReadSquare(sol[k], true).Some? && ReadSquare(sol[m], true).Some?
    ensures SquaresApart(ReadSquare(sol[k], true).value, ReadSquare(sol[m], true).value, n)
  {
    var sq, sq' := SelectedApart(pb, n, sol, k, m);
    OptionNameParse(sq);
    OptionNameParse(sq');
    assert SquareItems(sq, n)[0] != SquareItems(sq', n)[0];
    assert SquareItems(sq, n)[1] != SquareItems(sq', n)[1];
    assert SquareItems(sq, n)[2] != SquareItems(sq', n)[2];
    assert SquareItems(sq, n)[3] != SquareItems(sq', n)[3];
  }

  /** A board whose queens stand on the squares of an exact cover has a
      queen in every row and every column. */
  lemma CoverLines(pb: Problem, n: nat, sol: seq<Name>, b: Board)
    requires 1 <= n <= 159 && QueensProblem(pb, n) && IsExactCover(pb, sol) && |b.rows| == n
    requires forall i, j | 0 <= i < n && 0 <= j < n :: Queen(b, i, j) <==> Marked(sol, true, i, j)
    ensures forall r | 0 <= r < n :: RowHasQueen(b, r)
    ensures forall c | 0 <= c < n :: ColHasQueen(b, c)
  {
    forall r | 0 <= r < n ensures RowHasQueen(b, r) {
      var k, sq := LineCovered(pb, n, sol, RowItem(r));
      OptionNameParse(sq);
      assert Marked(sol, true, r, sq.col);
      assert Queen(b, r, sq.col);
    }
    forall c | 0 <= c < n ensures ColHasQueen(b, c) {
      var k, sq := LineCovered(pb, n, sol, ColItem(c));
      OptionNameParse(sq);
      assert Marked(sol, true, sq.row, c);
      assert Queen(b, sq.row, c);
    }
  }

  /** A board whose queens stand on the squares of a selection whose
      squares do not attack each other, and which has a queen in every row
      and column, solves the `n`-queens problem. */
  lemma MarkedBoardValid(sol: seq<Name>, n: nat, b: Board)
    requires 1 <= n && |b.rows| == n && forall i | 0 <= i < n :: |b.rows[i]| == n
    requires forall i, j | 0 <= i < n && 0 <= j < n :: Queen(b, i, j) <==> Marked(sol, true, i, j)
    requires forall k | 0 <= k < |sol| :: ReadSquare(sol[k], true).Some?
    requires forall k, m | 0 <= k < |sol| && 0 <= m < |sol| && k != m ::
      SquaresApart(ReadSquare(sol[k], true).value, ReadSquare(sol[m], true).value, n)
    requires forall r | 0 <= r < n :: RowHasQueen(b, r)
    requires forall c | 0 <= c < n :: ColHasQueen(b, c)
    ensures QueensValid(b)
  {
    forall r: nat, c: nat, r': nat, c': nat | r < n && c < n && r' < n && c' < n && Queen(b, r, c) && Queen(b, r', c') && (r, c) != (r', c')
      ensures r != r' && c != c' && Diag1(c, r) != Diag1(c', r') && Diag2(c, r, n) != Diag2(c', r', n)
    {
      var k :| 0 <= k < |sol| && ReadSquare(sol[k], true) == Some(Square(c, r));
      var m :| 0 <= m < |sol| && ReadSquare(sol[m], true) == Some(Square(c', r'));
      assert SquaresApart(Square(c, r), Square(c', r'), n);
    }
  }

  /** The converter reading whole numerals turns an exact cover of the
      `n`-queens problem into an `n` by `n` board of non-attacking queens,
      one on the square of every selected option and none elsewhere. */
  lemma CoverSolves(pb: Problem, n: nat, sol: seq<Name>)
    requires 1 <= n <= 159 && QueensProblem(pb, n) && IsExactCover(pb, sol)
    ensures ConvertWholeRow(sol).Some?
    ensures |ConvertWholeRow(sol).value.rows| == n && QueensValid(ConvertWholeRow(sol).value)
    ensures forall i, j | 0 <= i < n && 0 <= j < n ::
      Queen(ConvertWholeRow(sol).value, i, j) <==> OptionName(Square(j, i)) in sol
  {
    CoverFits(pb, n, sol);
    CoverMaxRow(pb, n, sol);
    var r := ConvertWholeRow(sol);
    assert r.Some?;
    var b := r.value;
    assert |b.rows| == n;
    forall k, m | 0 <= k < |sol| && 0 <= m < |sol| && k != m
      ensures SquaresApart(ReadSquare(sol[k], true).value, ReadSquare(sol[m], true).value, n)
    {
      CoverApart(pb, n, sol, k, m);
    }
    CoverLines(pb, n, sol, b);
    MarkedBoardValid(sol, n, b);
    forall i, j | 0 <= i < n && 0 <= j < n ensures Queen(b, i, j) <==> OptionName(Square(j, i)) in sol {
      CoverMarked(pb, n, sol, i, j);
    }
  }

  /** Up to nine rows every option name has two characters, so the
      converter as written yields the same board. */
  lemma SmallBoardsAgree(pb: Problem, n: nat, sol: seq<Name>)
    requires n <= 9 && QueensProblem(pb, n) && IsExactCover(pb, sol)
    ensures ConvertToNQueensSolution(sol) == ConvertWholeRow(sol)
  {
    forall k | 0 <= k < |sol| ensures |sol[k]| == 2 {
      var sq := SelectedSquare(pb, n, sol, k);
      OptionNameRead(sq);
    }
    ShortNamesAgree(sol);
  }

  /** From ten rows on the converter as written fails on every exact cover:
      it sizes the board by a single digit, so at most nine columns, while
      the cover holds a queen in the tenth column. */
  lemma LargeBoardsFail(pb: Problem, n: nat, sol: seq<Name>)
    requires 10 <= n <= 159 && QueensProblem(pb, n) && IsExactCover(pb, sol)
    ensures ConvertToNQueensSolution(sol).None?
  {
    var k, sq := LineCovered(pb, n, sol, ColItem(9));
    OptionNameParse(sq);
    assert ReadSquare(sol[k], false).None? || ReadSquare(sol[k], false).value.col == 9;
  }

  /** A selection from no elements is empty. */
  lemma NoneIn<T>(s: seq<T>, xs: set<T>)
    ensures xs == {} && (forall k | 0 <= k < |s| :: s[k] in xs) ==> s == []
  {
    if s != [] && xs == {} {
      assert s[0] !in xs;
    }
  }

  /** The empty board has only the empty cover, which the converter cannot
      size. */
  lemma EmptyBoardCover(pb: Problem, sol: seq<Name>)
    requires QueensProblem(pb, 0) && forall k | 0 <= k < |sol| :: sol[k] in pb.covers
    ensures sol == [] && ConvertWholeRow(sol).None?
  {
    assert pb.covers.Keys == {};
    NoneIn(sol, pb.covers.Keys);
  }

  /** The empty selection is an exact cover of the empty board. */
  lemma EmptyBoardSolvable(pb: Problem)
    requires QueensProblem(pb, 0)
    ensures IsExactCover(pb, [])
  {
    assert pb.requiredItems == {};
  }
}
