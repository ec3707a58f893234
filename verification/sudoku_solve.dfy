/**
 * `convert_to_exact_cover_problem` and `solve_sudoku_with_exact_cover`:
 * the board's clues become the required options of the Sudoku problem,
 * the exact-cover solver runs, and its solution is written back into a
 * board.
 */
module SudokuSolve {
  import opened Wrappers
  import opened ExactCover
  import opened ExactCoverSemantics
  import opened ExactCoverSearch
  import opened SudokuBoard
  import opened Sudoku

  // ---------------------------------------------------------------------
  // Clues that do not clash share no item
  // ---------------------------------------------------------------------

  /** Two different clues of a board whose clues do not clash cover no
      common item. */
  lemma CluesApart(board: Board, c: Candidate, c': Candidate, t: nat, t': nat)
    requires Big(board) && CluesConsistent(board) && Shows(board, c) && Shows(board, c') && c != c'
    requires t < 4 && t' < 4
    ensures CandidateItemNames(c)[t] != CandidateItemNames(c')[t']
  {
    CandidateItemsValid(c);
    CandidateItemsValid(c');
    ItemNameInjective(CandidateItems(c)[t], CandidateItems(c')[t']);
  }

  /** An option of the encoder's problem that the board shows. */
  lemma ClueCandidate(pb: Problem, board: Board, o: Name) returns (c: Candidate)
    requires Big(board) && o in Clues(board, 0)
    ensures Shows(board, c) && o == OptionName(c)
  {
    c :| Shows(board, c) && CandidateIndex(c) >= 0 && o == OptionName(c);
  }

  /** When the clues do not clash, the required options of the encoder's
      problem share no item. */
  lemma CluesDisjoint(pb: WfProblem, board: Board)
    requires SudokuProblem(pb) && Big(board) && CluesConsistent(board)
    requires Elems(pb.requiredOptions) == Elems(Clues(board, 0))
    ensures PairwiseDisjoint(pb, pb.requiredOptions)
  {
    var rs := pb.requiredOptions;
    forall k, m, i | 0 <= k < m < |rs| && rs[k] in pb.covers && rs[m] in pb.covers
      ensures !(i in pb.covers[rs[k]] && i in pb.covers[rs[m]])
    {
      assert rs[k] in Elems(rs) && rs[m] in Elems(rs);
      var c := ClueCandidate(pb, board, rs[k]);
      var c' := ClueCandidate(pb, board, rs[m]);
      if i in pb.covers[rs[k]] && i in pb.covers[rs[m]] {
        assert i in CandidateItemNames(c) && i in CandidateItemNames(c');
        var t :| 0 <= t < 4 && CandidateItemNames(c)[t] == i;
        var t' :| 0 <= t' < 4 && CandidateItemNames(c')[t'] == i;
        CluesApart(board, c, c', t, t');
      }
    }
  }

  /** Every clue is an option of the encoder's problem. */
  lemma CluesKnown(pb: Problem, board: Board)
    requires SudokuProblem(pb) && Big(board)
    requires Elems(pb.requiredOptions) == Elems(Clues(board, 0))
    ensures forall o | o in pb.requiredOptions :: o in pb.covers
  {
    forall o | o in pb.requiredOptions ensures o in pb.covers {
      assert o in Elems(pb.requiredOptions);
      var c := ClueCandidate(pb, board, o);
    }
  }

  /** Options of the problem are names the converter can write. */
  lemma KnownConvert(pb: Problem, sol: seq<Name>)
    requires SudokuProblem(pb) && forall k | 0 <= k < |sol| :: sol[k] in pb.covers
    ensures ConvertToSudokuSolution(sol).Some?
  {
    forall k | 0 <= k < |sol| ensures Convertible(sol[k]) {
      assert sol[k] in pb.covers;
      var c :| ValidCandidate(c) && sol[k] == OptionName(c);
      NameToCellOptionRoundTrip(c);
      OptionNameText(c);
    }
  }

  /** Every clue is among the options of a cover that contains the
      required options. */
  lemma ClueSelected(pb: WfProblem, board: Board, sol: seq<Name>, c: Candidate) returns (k: nat)
    requires Big(board) && Shows(board, c)
    requires Elems(pb.requiredOptions) == Elems(Clues(board, 0)) && pb.requiredOptions <= sol
    ensures k < |sol| && sol[k] == OptionName(c)
  {
    CandidateIndexing(c);
    assert OptionName(c) in Elems(pb.requiredOptions);
    k :| 0 <= k < |pb.requiredOptions| && pb.requiredOptions[k] == OptionName(c);
  }

  /** A board converted from an exact cover that contains every clue keeps
      the clues. */
  lemma CoverKeepsClues(pb: WfProblem, board: Board, sol: seq<Name>)
    requires SudokuProblem(pb) && IsExactCover(pb, sol) && Big(board)
    requires Elems(pb.requiredOptions) == Elems(Clues(board, 0)) && pb.requiredOptions <= sol
    ensures ConvertToSudokuSolution(sol).Some?
    ensures Big(ConvertToSudokuSolution(sol).value)
    ensures KeepsClues(board, ConvertToSudokuSolution(sol).value)
  {
    ShowsSelected(pb, sol);
    var b := ConvertToSudokuSolution(sol).value;
    forall i, j | 0 <= i < 9 && 0 <= j < 9 && 1 <= board.rows[i][j] <= 9
      ensures b.rows[i][j] == board.rows[i][j]
    {
      var c := Candidate(i, j, board.rows[i][j]);
      var k := ClueSelected(pb, board, sol, c);
      var c' :| sol[k] == OptionName(c') && Shows(b, c');
      OptionNameInjective(c, c');
    }
  }

  // ---------------------------------------------------------------------
  // The encoder and the solver
  // ---------------------------------------------------------------------

  /** The keys of the encoder's `covered_by` are the required items. */
  lemma CoveredByKeySet()
    ensures CoveredByMap().Keys == Elems(RequiredItems())
  {
    CoveredByKeys();
    RequiredItemsEnumerate();
  }

  /** `new` applied to the encoder's items, clues and `covered_by`, given
      as parameters so that their 324- and 729-step constructions stay
      out of sight. */
  function Encode(board: Board, items: seq<Name>, coveredBy: map<Name, seq<Name>>, itemOrder: seq<Name>)
    : (r: (WfProblem, State))
    requires Big(board) && EncodesBoard(coveredBy)
    requires Elems(items) == coveredBy.Keys && Enumerates(itemOrder, coveredBy.Keys)
    ensures SudokuProblem(r.0) && InitialState(r.0, r.1)
    ensures Elems(r.0.requiredOptions) == Elems(Clues(board, 0))
  {
    var r := New(items, Clues(board, 0), coveredBy, itemOrder);
    assert r.Success?;
    ProblemMeaning(r.value.0);
    r.value
  }

  /** `convert_to_exact_cover_problem`: the board's items, its candidates
      and its clues, handed to `new`.  `itemOrder` is the traversal order
      of the `covered_by` hash map.  A board with fewer than nine rows or
      columns makes the clue loop index out of bounds, modelled as `None`. */
  function ConvertToExactCoverProblem(board: Board, itemOrder: seq<Name>): (r: Option<(WfProblem, State)>)
    requires Enumerates(itemOrder, Elems(RequiredItems()))
    ensures r.Some? <==> Big(board)
    ensures r.Some? ==> SudokuProblem(r.value.0) && InitialState(r.value.0, r.value.1)
    ensures r.Some? ==> Elems(r.value.0.requiredOptions) == Elems(Clues(board, 0))
  {
    if !Big(board) then None
    else
      CoveredByKeySet();
      CoveredByMeaning();
      Some(Encode(board, RequiredItems(), CoveredByMap(), itemOrder))
  }

  /** A cover the solver finds for a board whose clues do not clash is a
      solved board keeping the clues. */
  lemma AnswerSolved(board: Board, pb: WfProblem, sol: seq<Name>)
    requires Big(board) && CluesConsistent(board) && SudokuProblem(pb)
    requires Elems(pb.requiredOptions) == Elems(Clues(board, 0))
    requires IsExactCover(pb, sol) && pb.requiredOptions <= sol
    ensures ConvertToSudokuSolution(sol).Some?
    ensures Solved(ConvertToSudokuSolution(sol).value)
    ensures KeepsClues(board, ConvertToSudokuSolution(sol).value)
  {
    CoverSolves(pb, sol);
    CoverKeepsClues(pb, board, sol);
  }

  /** The solver run on the encoder's problem, its answer converted back
      into a board. */
  function SolveEncoded(board: Board, pb: WfProblem, s: State): (r: Option<Board>)
    requires Big(board) && SudokuProblem(pb) && InitialState(pb, s)
    requires Elems(pb.requiredOptions) == Elems(Clues(board, 0))
    ensures r.Some? && CluesConsistent(board) ==> Solved(r.value) && KeepsClues(board, r.value)
    ensures CluesConsistent(board) ==> (r.Some? <==> Extensible(pb, pb.requiredOptions))
  {
    CluesKnown(pb, board);
    assert forall o | o in pb.requiredOptions :: o in pb.covers;
    assert CluesConsistent(board) ==> PairwiseDisjoint(pb, pb.requiredOptions) by {
      if CluesConsistent(board) {
        CluesDisjoint(pb, board);
      }
    }
    var found := Solve(pb, s);
    assert found.Success?;
    var answer := found.value;
    assert CluesConsistent(board) ==> (answer.Some? <==> Extensible(pb, pb.requiredOptions));
    if answer.None? then None
    else
      var sol := answer.value;
      KnownConvert(pb, sol);
      assert CluesConsistent(board) ==> IsExactCover(pb, sol) && pb.requiredOptions <= sol;
      if CluesConsistent(board) then
        AnswerSolved(board, pb, sol);
        ConvertToSudokuSolution(sol)
      else
        ConvertToSudokuSolution(sol)
  }

  /** `solve_sudoku_with_exact_cover`: the outer `None` is a panic of the
      encoder; the inner option is the solver's answer, converted.  When
      the clues do not clash, a board comes back exactly when the clues
      extend to an exact cover, and that board is solved and keeps the
      clues. */
  function SolveSudoku(board: Board, itemOrder: seq<Name>): (r: Option<Option<Board>>)
    requires Enumerates(itemOrder, Elems(RequiredItems()))
    ensures r.Some? <==> Big(board)
    ensures r.Some? && r.value.Some? && CluesConsistent(board) ==>
      Solved(r.value.value) && KeepsClues(board, r.value.value)
    ensures r.Some? && CluesConsistent(board) ==>
      var pb := ConvertToExactCoverProblem(board, itemOrder).value.0;
      (r.value.Some? <==> Extensible(pb, pb.requiredOptions))
  {
    match ConvertToExactCoverProblem(board, itemOrder)
    case None => None
    case Some((pb, s)) => Some(SolveEncoded(board, pb, s))
  }
}
