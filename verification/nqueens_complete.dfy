/**
 * The other direction of the `n`-queens encoding: every board of
 * non-attacking queens yields an exact cover of the encoder's problem, one
 * option per row.  Together with `NQueensSolve.CoverSolves` this makes the
 * encoder's problem solvable exactly when the board size admits a
 * solution.
 */
module NQueensComplete {
  import opened Wrappers
  import opened ExactCover
  import opened ExactCoverSemantics
  import opened ExactCoverSearch
  import opened NQueensBoard
  import opened NQueens
  import opened NQueensSolve

  /** The column of the queen standing in row `r`. */
  ghost function QueenCol(b: Board, r: nat): (c: nat)
    requires RowHasQueen(b, r)
    ensures c < |b.rows| && Queen(b, r, c)
  {
    var c :| 0 <= c < |b.rows| && Queen(b, r, c);
    c
  }

  /** The queens of a solved board, the one of row `k` at position `k`. */
  ghost function QueenSquares(b: Board): (r: seq<Square>)
    requires QueensValid(b)
    ensures |r| == |b.rows|
    ensures forall k | 0 <= k < |r| :: r[k].row == k && r[k].col < |b.rows| && Queen(b, k, r[k].col)
  {
    seq(|b.rows|, k requires 0 <= k < |b.rows| => Square(QueenCol(b, k), k))
  }

  /** The option names of a solved board's queens. */
  ghost function QueenCover(b: Board): (r: seq<Name>)
    requires QueensValid(b) && |b.rows| <= 159
    ensures |r| == |b.rows|
    ensures forall k | 0 <= k < |r| :: r[k] == OptionName(QueenSquares(b)[k])
  {
    var sqs := QueenSquares(b);
    seq(|sqs|, k requires 0 <= k < |sqs| => OptionName(sqs[k]))
  }

  /** A row holds only one queen. */
  lemma OneQueenPerRow(b: Board, r: nat, c: nat, c': nat)
    requires QueensValid(b) && r < |b.rows| && c < |b.rows| && c' < |b.rows|
    requires Queen(b, r, c) && Queen(b, r, c')
    ensures c == c'
  {
  }

  /** Two different queens of a solved board do not attack each other. */
  lemma QueensApart(b: Board, sq: Square, sq': Square)
    requires QueensValid(b) && OnBoard(sq, |b.rows|) && OnBoard(sq', |b.rows|) && sq != sq'
    requires Queen(b, sq.row, sq.col) && Queen(b, sq'.row, sq'.col)
    ensures SquaresApart(sq, sq', |b.rows|)
  {
    assert (sq.row, sq.col) != (sq'.row, sq'.col);
  }

  /** Squares that do not attack each other share no item. */
  lemma ApartShareNoItem(sq: Square, sq': Square, n: nat, t: nat, t': nat)
    requires n <= 159 && OnBoard(sq, n) && OnBoard(sq', n) && SquaresApart(sq, sq', n)
    requires t < 4 && t' < 4
    ensures SquareItemNames(sq, n)[t] != SquareItemNames(sq', n)[t']
  {
    SquareItemsValid(sq, n);
    SquareItemsValid(sq', n);
    ItemNameInjective(SquareItems(sq, n)[t], SquareItems(sq', n)[t']);
  }

  /** The options of the queens are options of the encoder's problem, each
      covering the items of its square. */
  lemma QueenOptions(pb: Problem, b: Board, k: nat)
    requires QueensValid(b) && |b.rows| <= 159 && QueensProblem(pb, |b.rows|) && k < |b.rows|
    ensures OnBoard(QueenSquares(b)[k], |b.rows|)
    ensures QueenCover(b)[k] in pb.covers
    ensures forall x :: x in pb.covers[QueenCover(b)[k]] <==> x in SquareItemNames(QueenSquares(b)[k], |b.rows|)
  {
  }

  /** No item is covered twice by the queens' options. */
  lemma QueensCoverOnce(pb: Problem, b: Board, x: Name)
    requires QueensValid(b) && |b.rows| <= 159 && QueensProblem(pb, |b.rows|)
    ensures CoverCount(pb, QueenCover(b), x) <= 1
  {
    var sol := QueenCover(b);
    var sqs := QueenSquares(b);
    var n := |b.rows|;
    if CoverCount(pb, sol, x) >= 2 {
      var k, m := CoverCountPair(pb, sol, x);
      QueenOptions(pb, b, k);
      QueenOptions(pb, b, m);
      var t :| 0 <= t < 4 && SquareItemNames(sqs[k], n)[t] == x;
      var t' :| 0 <= t' < 4 && SquareItemNames(sqs[m], n)[t'] == x;
      QueensApart(b, sqs[k], sqs[m]);
      ApartShareNoItem(sqs[k], sqs[m], n, t, t');
      assert false;
    }
  }

  /** The option of the queen in row `k` covers every item of its
      square. */
  lemma QueenCoversItem(pb: Problem, b: Board, k: nat, t: nat)
    requires QueensValid(b) && |b.rows| <= 159 && QueensProblem(pb, |b.rows|) && k < |b.rows| && t < 4
    ensures CoverCount(pb, QueenCover(b), SquareItemNames(QueenSquares(b)[k], |b.rows|)[t]) >= 1
  {
    var x := SquareItemNames(QueenSquares(b)[k], |b.rows|)[t];
    QueenOptions(pb, b, k);
    assert x in pb.covers[QueenCover(b)[k]];
    CoverCountPositive(pb, QueenCover(b), k, x);
  }

  /** Every column is covered by the option of the queen standing in
      it. */
  lemma QueenCoversColumn(pb: Problem, b: Board, c: nat)
    requires QueensValid(b) && |b.rows| <= 159 && QueensProblem(pb, |b.rows|) && c < |b.rows|
    ensures CoverCount(pb, QueenCover(b), ItemName(ColItem(c))) >= 1
  {
    var n := |b.rows|;
    var sqs := QueenSquares(b);
    assert ColHasQueen(b, c);
    var r :| 0 <= r < n && Queen(b, r, c);
    OneQueenPerRow(b, r, c, sqs[r].col);
    QueenCoversItem(pb, b, r, 1);
    assert SquareItemNames(sqs[r], n)[1] == ItemName(ColItem(c));
  }

  /** Every row and every column is covered by the queens' options. */
  lemma QueensCoverLines(pb: Problem, b: Board, it: Item)
    requires QueensValid(b) && |b.rows| <= 159 && QueensProblem(pb, |b.rows|)
    requires ValidItem(it, |b.rows|) && Required(it)
    ensures CoverCount(pb, QueenCover(b), ItemName(it)) >= 1
  {
    if it.RowItem? {
      QueenCoversItem(pb, b, it.row, 0);
      assert SquareItemNames(QueenSquares(b)[it.row], |b.rows|)[0] == ItemName(it);
    } else {
      QueenCoversColumn(pb, b, it.col);
    }
  }

  /** The queens of a solved board are an exact cover of the encoder's
      problem for its size. */
  lemma QueensCover(pb: Problem, b: Board)
    requires QueensValid(b) && |b.rows| <= 159 && QueensProblem(pb, |b.rows|)
    ensures IsExactCover(pb, QueenCover(b))
  {
    var sol := QueenCover(b);
    forall o | o in sol ensures o in pb.covers {
      var k :| 0 <= k < |sol| && sol[k] == o;
      QueenOptions(pb, b, k);
    }
    forall x ensures CoverCount(pb, sol, x) <= 1 {
      QueensCoverOnce(pb, b, x);
    }
    forall x | x in pb.requiredItems ensures CoverCount(pb, sol, x) == 1 {
      QueensCoverOnce(pb, b, x);
      var it :| ValidItem(it, |b.rows|) && Nameable(it) && Required(it) && x == ItemName(it);
      QueensCoverLines(pb, b, it);
    }
  }

  // ---------------------------------------------------------------------
  // Solving and counting
  // ---------------------------------------------------------------------

  /** Some `n` by `n` board holds `n` non-attacking queens. */
  ghost predicate HasSolution(n: nat) {
    exists b: Board :: |b.rows| == n && QueensValid(b)
  }

  /** The encoder's problem has an exact cover exactly when the board size
      admits a solution. */
  lemma SolvableIff(pb: Problem, n: nat)
    requires 1 <= n <= 159 && QueensProblem(pb, n)
    ensures Extensible(pb, []) <==> HasSolution(n)
  {
    if Extensible(pb, []) {
      var x :| IsExactCover(pb, [] + x);
      assert [] + x == x;
      CoverSolves(pb, n, x);
      assert QueensValid(ConvertWholeRow(x).value);
    }
    if HasSolution(n) {
      var b: Board :| |b.rows| == n && QueensValid(b);
      QueensCover(pb, b);
      assert [] + QueenCover(b) == QueenCover(b);
    }
  }

  /** The solver's answer for the encoder's problem, converted into a
      board; `None` is a panic.  The empty board's empty cover leaves the
      converter no row to size the board by.  The converter as written
      (`whole` false) also fails on every cover of ten rows or more, so
      there it answers only when no solution exists; the converter reading
      whole numerals always answers. */
  function SolveEncoded(n: nat, pb: WfProblem, s: State, whole: bool): (r: Option<Option<Board>>)
    requires n <= 159 && QueensProblem(pb, n) && InitialState(pb, s)
    ensures r.Some? <==> n >= 1 && (whole || n <= 9 || !HasSolution(n))
    ensures r.Some? && r.value.Some? ==> |r.value.value.rows| == n && QueensValid(r.value.value)
    ensures r.Some? ==> (r.value.Some? <==> HasSolution(n))
  {
    var found := Solve(pb, s);
    assert found.Success?;
    if n == 0 then
      match found.value
      case None => None
      case Some(sol) =>
        EmptyBoardCover(pb, sol);
        None
    else
      SolvableIff(pb, n);
      match found.value
      case None => Some(None)
      case Some(sol) =>
        CoverSolves(pb, n, sol);
        assert n <= 9 ==> Convert(sol, false) == Convert(sol, true) by {
          if n <= 9 { SmallBoardsAgree(pb, n, sol); }
        }
        assert n >= 10 ==> Convert(sol, false).None? by {
          if n >= 10 { LargeBoardsFail(pb, n, sol); }
        }
        match Convert(sol, whole)
        case None => None
        case Some(b) => Some(Some(b))
  }

  /** `solve_nqueens_problem_with_exact_cover` as written.  The outer
      `None` is a panic: a size whose low byte is 160 or more overflows the
      column names, the empty board cannot be sized, and from ten rows on
      the converter fails on every solution.  Otherwise a board comes back
      exactly when one exists, and it is a solution of that size. */
  function SolveNQueens(n: nat, itemOrder: seq<Name>): (r: Option<Option<Board>>)
    requires n < 65536
    requires n % 256 < 160 ==> Enumerates(itemOrder, ItemNameSet(n % 256))
    ensures r.Some? <==> 1 <= n % 256 < 160 && (n % 256 <= 9 || !HasSolution(n % 256))
    ensures r.Some? && r.value.Some? ==> |r.value.value.rows| == n % 256 && QueensValid(r.value.value)
    ensures r.Some? ==> (r.value.Some? <==> HasSolution(n % 256))
  {
    match ConvertToExactCoverProblem(n, itemOrder)
    case None => None
    case Some((pb, s)) => SolveEncoded(n % 256, pb, s, false)
  }

  /** `solve_nqueens_problem_with_exact_cover` with the converter reading
      whole row numerals: for every size whose low byte is between 1 and
      159 a board comes back exactly when one exists, and it is a solution
      of that size. */
  function SolveNQueensWholeRow(n: nat, itemOrder: seq<Name>): (r: Option<Option<Board>>)
    requires n < 65536
    requires n % 256 < 160 ==> Enumerates(itemOrder, ItemNameSet(n % 256))
    ensures r.Some? <==> 1 <= n % 256 < 160
    ensures r.Some? && r.value.Some? ==> |r.value.value.rows| == n % 256 && QueensValid(r.value.value)
    ensures r.Some? ==> (r.value.Some? <==> HasSolution(n % 256))
  {
    match ConvertToExactCoverProblem(n, itemOrder)
    case None => None
    case Some((pb, s)) => SolveEncoded(n % 256, pb, s, true)
  }

  /** `count_all_nqueens_solutions_with_exact_cover`: `None` is the
      encoder's panic.  The count is capped by the search budget, and it is
      positive exactly when a solution exists; the empty board counts one
      solution, its empty cover. */
  function CountNQueens(n: nat, itemOrder: seq<Name>): (r: Option<nat>)
    requires n < 65536
    requires n % 256 < 160 ==> Enumerates(itemOrder, ItemNameSet(n % 256))
    ensures r.Some? <==> n % 256 < 160
    ensures r.Some? ==> r.value <= I32Max
    ensures r.Some? && n % 256 >= 1 ==> (r.value > 0 <==> HasSolution(n % 256))
    ensures r.Some? && n % 256 == 0 ==> r.value == 1
  {
    match ConvertToExactCoverProblem(n, itemOrder)
    case None => None
    case Some((pb, s)) =>
      var count := CountAllSolutions(pb, s);
      assert count.Success?;
      if n % 256 >= 1 then
        SolvableIff(pb, n % 256);
        Some(count.value)
      else
        assert pb.requiredItems == {};
        Some(count.value)
  }
}
