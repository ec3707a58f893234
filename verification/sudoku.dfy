/**
 * The Sudoku reduction of `sudoku.rs`: a board becomes an exact-cover
 * problem with one item per cell, per (row, digit), per (column, digit) and
 * per (block, digit), and one option per (cell, digit) covering its four
 * items; the clues are the required options.  A solution is turned back
 * into a board by parsing the option names.
 */
module Sudoku {
  import opened Wrappers
  import opened Text
  import opened ExactCover
  import opened ExactCoverSemantics
  import opened ExactCoverSearch
  import opened CoveredBy
  import opened SudokuBoard

  // ---------------------------------------------------------------------
  // Names
  // ---------------------------------------------------------------------

  /** `cell_item_to_name`. */
  function CellItemName(row: nat, col: nat): Name {
    "r" + NatToString(row) + "c" + NatToString(col)
  }

  /** `row_item_to_name`. */
  function RowItemName(row: nat, digit: nat): Name {
    "r" + NatToString(row) + "d" + NatToString(digit)
  }

  /** `col_item_to_name`. */
  function ColItemName(col: nat, digit: nat): Name {
    "c" + NatToString(col) + "d" + NatToString(digit)
  }

  /** `block_item_to_name`. */
  function BlockItemName(block: nat, digit: nat): Name {
    "b" + NatToString(block) + "d" + NatToString(digit)
  }

  /** `cell_option_to_name`. */
  function CellOptionName(row: nat, col: nat, digit: nat): Name {
    "r" + NatToString(row) + "c" + NatToString(col) + "d" + NatToString(digit)
  }

  /** The name of the option the source skips when converting a solution. */
  const InitialStateOptionName: Name := "init"

  /** A single digit is written as one character. */
  lemma SingleDigit(n: nat)
    requires n < 10
    ensures NatToString(n) == [DigitChar(n)]
  {
    var s := NatToString(n);
    assert s == [s[0]];
    assert DigitsValue(s) == DigitsValue(s[..0]) * 10 + DigitValue(s[0]);
  }

  lemma DigitCharInjective(a: nat, b: nat)
    requires a < 10 && b < 10
    ensures DigitChar(a) == DigitChar(b) <==> a == b
  {
  }

  /** The item of a (cell, digit) choice that the source names. */
  datatype Item =
    | Cell(row: nat, col: nat)
    | RowDigit(row: nat, digit: nat)
    | ColDigit(col: nat, digit: nat)
    | BlockDigit(block: nat, digit: nat)

  /** One digit in one cell: an option of the problem. */
  datatype Candidate = Candidate(row: nat, col: nat, digit: nat)

  predicate ValidItem(it: Item) {
    match it
    case Cell(row, col) => row < 9 && col < 9
    case RowDigit(row, digit) => row < 9 && 1 <= digit <= 9
    case ColDigit(col, digit) => col < 9 && 1 <= digit <= 9
    case BlockDigit(block, digit) => block < 9 && 1 <= digit <= 9
  }

  predicate ValidCandidate(c: Candidate) {
    c.row < 9 && c.col < 9 && 1 <= c.digit <= 9
  }

  function ItemName(it: Item): Name {
    match it
    case Cell(row, col) => CellItemName(row, col)
    case RowDigit(row, digit) => RowItemName(row, digit)
    case ColDigit(col, digit) => ColItemName(col, digit)
    case BlockDigit(block, digit) => BlockItemName(block, digit)
  }

  function OptionName(c: Candidate): Name {
    CellOptionName(c.row, c.col, c.digit)
  }

  /** The items a candidate covers, in the order the encoder pushes it. */
  function CandidateItems(c: Candidate): seq<Item> {
    [Cell(c.row, c.col), RowDigit(c.row, c.digit), ColDigit(c.col, c.digit),
     BlockDigit(CellToBlock(c.row, c.col), c.digit)]
  }

  /** The four characters of an item name with single-digit numbers. */
  function ItemText(it: Item): (r: Name)
    requires ValidItem(it)
  {
    match it
    case Cell(row, col) => ['r', DigitChar(row), 'c', DigitChar(col)]
    case RowDigit(row, digit) => ['r', DigitChar(row), 'd', DigitChar(digit)]
    case ColDigit(col, digit) => ['c', DigitChar(col), 'd', DigitChar(digit)]
    case BlockDigit(block, digit) => ['b', DigitChar(block), 'd', DigitChar(digit)]
  }

  lemma ItemNameText(it: Item)
    requires ValidItem(it)
    ensures ItemName(it) == ItemText(it)
  {
    match it
    case Cell(row, col) => SingleDigit(row); SingleDigit(col);
    case RowDigit(row, digit) => SingleDigit(row); SingleDigit(digit);
    case ColDigit(col, digit) => SingleDigit(col); SingleDigit(digit);
    case BlockDigit(block, digit) => SingleDigit(block); SingleDigit(digit);
  }

  lemma OptionNameText(c: Candidate)
    requires ValidCandidate(c)
    ensures OptionName(c) == ['r', DigitChar(c.row), 'c', DigitChar(c.col), 'd', DigitChar(c.digit)]
  {
    SingleDigit(c.row);
    SingleDigit(c.col);
    SingleDigit(c.digit);
  }

  /** Different items of the board have different names, so the four
      families of items never collide. */
  lemma ItemNameInjective(a: Item, b: Item)
    requires ValidItem(a) && ValidItem(b)
    ensures ItemName(a) == ItemName(b) <==> a == b
  {
    ItemNameText(a);
    ItemNameText(b);
    if ItemName(a) == ItemName(b) {
      var s := ItemText(a);
      var t := ItemText(b);
      assert s[0] == t[0] && s[1] == t[1] && s[2] == t[2] && s[3] == t[3];
    }
  }

  /** Different candidates have different option names, and no option is
      named like an item. */
  lemma OptionNameInjective(c: Candidate, c': Candidate)
    requires ValidCandidate(c) && ValidCandidate(c')
    ensures OptionName(c) == OptionName(c') <==> c == c'
  {
    OptionNameText(c);
    OptionNameText(c');
    if OptionName(c) == OptionName(c') {
      var s := OptionName(c);
      var t := OptionName(c');
      assert s[1] == t[1] && s[3] == t[3] && s[5] == t[5];
    }
  }

  lemma OptionNotItem(c: Candidate, it: Item)
    requires ValidCandidate(c) && ValidItem(it)
    ensures OptionName(c) != ItemName(it)
  {
    OptionNameText(c);
    ItemNameText(it);
  }

  // ---------------------------------------------------------------------
  // Reading option names back
  // ---------------------------------------------------------------------

  /** `name_to_cell_option`: the characters at positions 1, 3 and 5 as
      digits; a name too short or with a non-digit there makes `unwrap`
      panic, modelled as `None`. */
  function NameToCellOption(name: Name): (r: Option<Candidate>)
    ensures r.Some? <==> |name| >= 6 && IsDigit(name[1]) && IsDigit(name[3]) && IsDigit(name[5])
    ensures r.Some? ==>
      && r.value.row < 10 && r.value.col < 10 && r.value.digit < 10
      && name[1] == DigitChar(r.value.row)
      && name[3] == DigitChar(r.value.col)
      && name[5] == DigitChar(r.value.digit)
  {
    if |name| < 6 then None
    else
      match (ToDigit(name[1]), ToDigit(name[3]), ToDigit(name[5]))
      case (Some(row), Some(col), Some(digit)) => Some(Candidate(row, col, digit))
      case _ => None
  }

  /** Reading an option name gives back the cell and digit it was made
      from. */
  lemma NameToCellOptionRoundTrip(c: Candidate)
    requires c.row < 10 && c.col < 10 && c.digit < 10
    ensures NameToCellOption(CellOptionName(c.row, c.col, c.digit)) == Some(c)
  {
    SingleDigit(c.row);
    SingleDigit(c.col);
    SingleDigit(c.digit);
    var r := NameToCellOption(CellOptionName(c.row, c.col, c.digit));
    DigitCharInjective(r.value.row, c.row);
    DigitCharInjective(r.value.col, c.col);
    DigitCharInjective(r.value.digit, c.digit);
  }

  /** An option the converter writes into the board: a parsed name whose
      cell lies on the board. */
  predicate Writes(option: Name) {
    && option != InitialStateOptionName
    && NameToCellOption(option).Some?
    && NameToCellOption(option).value.row < 9
    && NameToCellOption(option).value.col < 9
  }

  /** An option the converter can handle: the skipped one, or one it
      writes.  Any other makes the source panic. */
  predicate Convertible(option: Name) {
    option == InitialStateOptionName || Writes(option)
  }

  /** `option` writes into cell (`i`, `j`). */
  predicate WritesTo(option: Name, i: nat, j: nat) {
    Writes(option) && NameToCellOption(option).value.row == i && NameToCellOption(option).value.col == j
  }

  /** The loop of `convert_to_sudoku_solution`: every option is written in
      turn, so the last option naming a cell decides its digit and a cell
      no option names keeps its value. */
  function Fill(g: seq<seq<nat>>, options: seq<Name>): (r: Option<seq<seq<nat>>>)
    requires Grid9(g)
    ensures r.Some? <==> forall k | 0 <= k < |options| :: Convertible(options[k])
    ensures r.Some? ==> Grid9(r.value)
    ensures r.Some? ==> forall i: nat, j: nat | i < 9 && j < 9 && (forall k | 0 <= k < |options| :: !WritesTo(options[k], i, j)) ::
      r.value[i][j] == g[i][j]
    ensures r.Some? ==> forall k, i: nat, j: nat | 0 <= k < |options| && WritesTo(options[k], i, j) &&
      (forall m | k < m < |options| :: !WritesTo(options[m], i, j)) ::
      r.value[i][j] == NameToCellOption(options[k]).value.digit
    decreases |options|
  {
    if options == [] then Some(g)
    else
      var init := options[..|options| - 1];
      var last := options[|options| - 1];
      assert forall k | 0 <= k < |init| :: init[k] == options[k];
      match Fill(g, init)
      case None => None
      case Some(h) =>
        if last == InitialStateOptionName then
          Some(h)
        else if Writes(last) then
          var c := NameToCellOption(last).value;
          Some(Put(h, c.row, c.col, c.digit))
        else None
  }

  /** `board[row][col] = digit`. */
  function Put(h: seq<seq<nat>>, i: nat, j: nat, d: nat): (r: seq<seq<nat>>)
    requires Grid9(h) && i < 9 && j < 9
    ensures Grid9(r)
    ensures forall a, b | 0 <= a < 9 && 0 <= b < 9 :: r[a][b] == if a == i && b == j then d else h[a][b]
  {
    var row: seq<nat> := h[i][j := d];
    h[i := row]
  }

  /** `convert_to_sudoku_solution`: the options of a solution written into
      an empty board; `None` where the source panics. */
  function ConvertToSudokuSolution(selected: seq<Name>): (r: Option<Board>)
    ensures r.Some? <==> forall k | 0 <= k < |selected| :: Convertible(selected[k])
    ensures r.Some? ==> Grid9(r.value.rows)
  {
    match Fill(Zeros(), selected)
    case None => None
    case Some(g) => Some(Board(g))
  }

  // ---------------------------------------------------------------------
  // The encoder's loops
  // ---------------------------------------------------------------------

  /** The candidate of turn `k` of the option loop (row, then column, then
      digit 1..9). */
  function CandidateAt(k: nat): Candidate {
    Candidate(k / 81, k / 9 % 9, k % 9 + 1)
  }

  /** The turn of the option loop that visits a candidate. */
  function CandidateIndex(c: Candidate): nat
    requires ValidCandidate(c)
  {
    c.row * 81 + c.col * 9 + (c.digit - 1)
  }

  /** The option loop visits every candidate exactly once. */
  lemma CandidateIndexing(c: Candidate)
    requires ValidCandidate(c)
    ensures CandidateIndex(c) < 729 && CandidateAt(CandidateIndex(c)) == c
  {
    var k := CandidateIndex(c);
    Divide81(c.row, c.col * 9 + (c.digit - 1));
    assert k == (c.row * 9 + c.col) * 9 + (c.digit - 1);
    Divide9(c.row * 9 + c.col, c.digit - 1);
    Divide9(c.row, c.col);
  }

  /** Euclidean division undoes `a * 81 + b` for a remainder `b < 81`. */
  lemma Divide81(a: nat, b: nat)
    requires b < 81
    ensures (a * 81 + b) / 81 == a && (a * 81 + b) % 81 == b
  {
  }

  /** Euclidean division undoes `a * 9 + b` for a remainder `b < 9`. */
  lemma Divide9(a: nat, b: nat)
    requires b < 9
    ensures (a * 9 + b) / 9 == a && (a * 9 + b) % 9 == b
  {
  }

  lemma CandidateAtValid(k: nat)
    requires k < 729
    ensures ValidCandidate(CandidateAt(k)) && CandidateIndex(CandidateAt(k)) == k
  {
  }

  /** The item of turn `k` of the item loops: the 81 cells, then (row,
      digit), (column, digit) and (block, digit), 81 of each. */
  function ItemAt(k: nat): Item {
    if k < 81 then Cell(k / 9, k % 9)
    else if k < 162 then RowDigit((k - 81) / 9, (k - 81) % 9 + 1)
    else if k < 243 then ColDigit((k - 162) / 9, (k - 162) % 9 + 1)
    else BlockDigit((k - 243) / 9, (k - 243) % 9 + 1)
  }

  function ItemIndex(it: Item): nat
    requires ValidItem(it)
  {
    match it
    case Cell(row, col) => row * 9 + col
    case RowDigit(row, digit) => 81 + row * 9 + (digit - 1)
    case ColDigit(col, digit) => 162 + col * 9 + (digit - 1)
    case BlockDigit(block, digit) => 243 + block * 9 + (digit - 1)
  }

  /** The item loops visit every item exactly once. */
  lemma ItemIndexing(it: Item)
    requires ValidItem(it)
    ensures ItemIndex(it) < 324 && ItemAt(ItemIndex(it)) == it
  {
  }

  lemma ItemAtValid(k: nat)
    requires k < 324
    ensures ValidItem(ItemAt(k)) && ItemIndex(ItemAt(k)) == k
  {
  }

  /** The names of the items a candidate covers. */
  function CandidateItemNames(c: Candidate): (r: seq<Name>)
    ensures |r| == 4 && forall m | 0 <= m < 4 :: r[m] == ItemName(CandidateItems(c)[m])
  {
    seq(4, m requires 0 <= m < 4 => ItemName(CandidateItems(c)[m]))
  }

  /** The 324 required items of `convert_to_exact_cover_problem`, in the
      order its loops push them. */
  function RequiredItems(): (r: seq<Name>)
    ensures |r| == 324 && forall k | 0 <= k < 324 :: r[k] == ItemName(ItemAt(k))
  {
    seq(324, k requires 0 <= k < 324 => ItemName(ItemAt(k)))
  }

  /** A name of one of the board's items. */
  ghost predicate IsItemName(x: Name) {
    exists it | ValidItem(it) :: x == ItemName(it)
  }

  /** Every required item is pushed once, and they are exactly the names of
      the board's items. */
  lemma RequiredItemsEnumerate()
    ensures Distinct(RequiredItems())
    ensures forall x :: x in RequiredItems() <==> IsItemName(x)
  {
    var r := RequiredItems();
    forall k, m | 0 <= k < m < |r| ensures r[k] != r[m] {
      ItemAtValid(k);
      ItemAtValid(m);
      ItemNameInjective(ItemAt(k), ItemAt(m));
    }
    forall x ensures x in r <==> IsItemName(x) {
      if x in r {
        var k :| 0 <= k < |r| && r[k] == x;
        ItemAtValid(k);
      }
      if IsItemName(x) {
        var it :| ValidItem(it) && x == ItemName(it);
        ItemIndexing(it);
        assert r[ItemIndex(it)] == x;
      }
    }
  }

  /** The option loop of the encoder: every candidate, pushed onto the lists
      of its four items. */
  function Placements(): (r: seq<Placement>)
    ensures |r| == 729
    ensures forall k | 0 <= k < 729 ::
      r[k] == Placement(OptionName(CandidateAt(k)), CandidateItemNames(CandidateAt(k)))
  {
    seq(729, k requires 0 <= k < 729 => Placement(OptionName(CandidateAt(k)), CandidateItemNames(CandidateAt(k))))
  }

  /** The `covered_by` map the encoder builds. */
  function CoveredByMap(): map<Name, seq<Name>> {
    PushAll(map[], Placements())
  }

  /** The items of a candidate are items of the board. */
  lemma CandidateItemsValid(c: Candidate)
    requires ValidCandidate(c)
    ensures forall m | 0 <= m < 4 :: ValidItem(CandidateItems(c)[m])
  {
    CellToBlockRanges(c.row, c.col, 0);
  }

  /** Every item of the board is covered by some candidate. */
  lemma CoveringCandidate(it: Item) returns (c: Candidate)
    requires ValidItem(it)
    ensures ValidCandidate(c) && ItemName(it) in CandidateItemNames(c)
  {
    match it
    case Cell(row, col) =>
      c := Candidate(row, col, 1);
      assert CandidateItemNames(c)[0] == ItemName(it);
    case RowDigit(row, digit) =>
      c := Candidate(row, 0, digit);
      assert CandidateItemNames(c)[1] == ItemName(it);
    case ColDigit(col, digit) =>
      c := Candidate(0, col, digit);
      assert CandidateItemNames(c)[2] == ItemName(it);
    case BlockDigit(block, digit) =>
      c := Candidate(block / 3 * 3, block % 3 * 3, digit);
      assert CellToBlock(c.row, c.col) == block;
      assert CandidateItemNames(c)[3] == ItemName(it);
  }

  /** The keys of the encoder's `covered_by` are exactly the required
      items: every item is listed, and nothing else. */
  lemma CoveredByKeys()
    ensures forall x :: x in CoveredByMap() <==> IsItemName(x)
  {
    var ps := Placements();
    forall x ensures x in PlacedItems(ps) <==> IsItemName(x) {
      if x in PlacedItems(ps) {
        var k, y :| 0 <= k < |ps| && y in ps[k].items && x == y;
        var c := CandidateAt(k);
        CandidateAtValid(k);
        CandidateItemsValid(c);
        var m :| 0 <= m < 4 && CandidateItemNames(c)[m] == x;
        assert ValidItem(CandidateItems(c)[m]);
      }
      if IsItemName(x) {
        var it :| ValidItem(it) && x == ItemName(it);
        var c := CoveringCandidate(it);
        CandidateIndexing(c);
        assert x in ps[CandidateIndex(c)].items;
      }
    }
  }

  /** The encoder lists an option under an item exactly when the option is
      a candidate that covers the item. */
  lemma CoveredByLists(x: Name, o: Name)
    requires x in CoveredByMap()
    ensures o in CoveredByMap()[x] <==>
      exists c | ValidCandidate(c) :: o == OptionName(c) && x in CandidateItemNames(c)
  {
    var ps := Placements();
    if o in CoveredByMap()[x] {
      assert Placed(ps, o, x);
      var k :| 0 <= k < |ps| && ps[k].option == o && x in ps[k].items;
      CandidateAtValid(k);
    }
    if exists c | ValidCandidate(c) :: o == OptionName(c) && x in CandidateItemNames(c) {
      var c :| ValidCandidate(c) && o == OptionName(c) && x in CandidateItemNames(c);
      CandidateIndexing(c);
      assert ps[CandidateIndex(c)].option == o;
    }
  }

  // ---------------------------------------------------------------------
  // Clues
  // ---------------------------------------------------------------------

  /** The board shows the candidate: its cell holds the candidate's digit. */
  predicate Shows(board: Board, c: Candidate) {
    Big(board) && ValidCandidate(c) && board.rows[c.row][c.col] == c.digit
  }

  /** The required options of the encoder from turn `k` of the option loop
      on: the candidates the board already shows, in loop order.  A cell
      holding 0 or a value above 9 gives none. */
  function Clues(board: Board, k: nat): (r: seq<Name>)
    requires Big(board)
    ensures forall o :: o in r <==> exists c | Shows(board, c) && CandidateIndex(c) >= k :: o == OptionName(c)
    decreases 729 - k
  {
    if k >= 729 then
      assert forall c | ValidCandidate(c) :: CandidateIndex(c) < 729 by {
        forall c | ValidCandidate(c) ensures CandidateIndex(c) < 729 {
          CandidateIndexing(c);
        }
      }
      []
    else
      var c := CandidateAt(k);
      CandidateAtValid(k);
      var rest := Clues(board, k + 1);
      var here := if board.rows[c.row][c.col] == c.digit then [OptionName(c)] else [];
      assert forall c' | Shows(board, c') && CandidateIndex(c') >= k ::
        c' == c || CandidateIndex(c') >= k + 1 by {
        forall c' | Shows(board, c') && CandidateIndex(c') >= k ensures c' == c || CandidateIndex(c') >= k + 1 {
          CandidateIndexing(c');
        }
      }
      here + rest
  }

  /** No two digit clues clash: equal digits are in different rows,
      columns and blocks. */
  predicate CluesConsistent(board: Board)
    requires Big(board)
  {
    forall i, j, i', j' |
      && 0 <= i < 9 && 0 <= j < 9 && 0 <= i' < 9 && 0 <= j' < 9
      && (i != i' || j != j') && 1 <= board.rows[i][j] <= 9 && board.rows[i][j] == board.rows[i'][j'] ::
      i != i' && j != j' && CellToBlock(i, j) != CellToBlock(i', j')
  }

  /** `solution` shows every digit clue of `board`. */
  predicate KeepsClues(board: Board, solution: Board)
    requires Big(board) && Big(solution)
  {
    forall i, j | 0 <= i < 9 && 0 <= j < 9 && 1 <= board.rows[i][j] <= 9 ::
      solution.rows[i][j] == board.rows[i][j]
  }

  // ---------------------------------------------------------------------
  // The problem
  // ---------------------------------------------------------------------

  /** What the encoder's problem means: the required items are the board's
      items, the options are the candidates, and a candidate covers exactly
      its four items. */
  ghost predicate SudokuProblem(pb: Problem) {
    && (forall x :: x in pb.requiredItems <==> IsItemName(x))
    && (forall o | o in pb.covers :: exists c | ValidCandidate(c) :: o == OptionName(c))
    && (forall c | ValidCandidate(c) :: OptionName(c) in pb.covers)
    && (forall c, x | ValidCandidate(c) && OptionName(c) in pb.covers ::
          x in pb.covers[OptionName(c)] <==> x in CandidateItemNames(c))
  }

  /** The encoder lists a candidate under each of its items. */
  lemma CandidateListed(c: Candidate, x: Name)
    requires ValidCandidate(c) && x in CandidateItemNames(c)
    ensures x in CoveredByMap() && OptionName(c) in CoveredByMap()[x]
  {
    var ps := Placements();
    CandidateIndexing(c);
    var k := CandidateIndex(c);
    assert ps[k].option == OptionName(c) && x in ps[k].items;
    assert x in PlacedItems(ps);
    assert Placed(ps, OptionName(c), x);
  }

  /** The encoder lists a candidate under its own items only. */
  lemma ListedUnderOwn(c: Candidate, x: Name)
    requires ValidCandidate(c) && x in CoveredByMap() && OptionName(c) in CoveredByMap()[x]
    ensures x in CandidateItemNames(c)
  {
    CoveredByLists(x, OptionName(c));
    var c' :| ValidCandidate(c') && OptionName(c) == OptionName(c') && x in CandidateItemNames(c');
    OptionNameInjective(c, c');
  }

  /** What the encoder's `covered_by` says: its keys are the board's
      items, and it lists the candidates, each under exactly its four
      items. */
  ghost predicate EncodesBoard(m: map<Name, seq<Name>>) {
    && (forall x :: x in m <==> IsItemName(x))
    && (forall c, k | ValidCandidate(c) && 0 <= k < 4 ::
          CandidateItemNames(c)[k] in m && OptionName(c) in m[CandidateItemNames(c)[k]])
    && (forall c, x | ValidCandidate(c) && x in m && OptionName(c) in m[x] :: x in CandidateItemNames(c))
    && (forall x, o | x in m && o in m[x] :: exists c | ValidCandidate(c) :: o == OptionName(c))
  }

  /** The encoder's `covered_by` encodes the board's rules. */
  lemma CoveredByMeaning()
    ensures EncodesBoard(CoveredByMap())
  {
    var m := CoveredByMap();
    CoveredByKeys();
    forall c, k | ValidCandidate(c) && 0 <= k < 4
      ensures CandidateItemNames(c)[k] in m && OptionName(c) in m[CandidateItemNames(c)[k]]
    {
      CandidateListed(c, CandidateItemNames(c)[k]);
    }
    forall c, x | ValidCandidate(c) && x in m && OptionName(c) in m[x] ensures x in CandidateItemNames(c) {
      ListedUnderOwn(c, x);
    }
    forall x, o | x in m && o in m[x] ensures exists c | ValidCandidate(c) :: o == OptionName(c) {
      CoveredByLists(x, o);
    }
  }

  /** The items of one candidate, read off the inverse of `covered_by`. */
  lemma CandidateCovers(pb: Problem, c: Candidate, x: Name)
    requires Inverse(pb.coveredBy, pb.covers) && EncodesBoard(pb.coveredBy) && ValidCandidate(c)
    ensures OptionName(c) in pb.covers
    ensures x in pb.covers[OptionName(c)] <==> x in CandidateItemNames(c)
  {
    var o := OptionName(c);
    var x0 := CandidateItemNames(c)[0];
    assert x0 in pb.coveredBy && o in pb.coveredBy[x0];
    if x in pb.covers[o] {
      assert x in pb.coveredBy && o in pb.coveredBy[x];
    }
    if x in CandidateItemNames(c) {
      var k :| 0 <= k < 4 && CandidateItemNames(c)[k] == x;
      assert x in pb.coveredBy && o in pb.coveredBy[x];
    }
  }

  /** A known option is a candidate: it is listed under some item. */
  lemma KnownIsCandidate(pb: Problem, o: Name)
    requires EncodesBoard(pb.coveredBy) && Listed(pb.coveredBy, pb.covers) && o in pb.covers
    ensures exists c | ValidCandidate(c) :: o == OptionName(c)
  {
    var x :| x in pb.coveredBy && o in pb.coveredBy[x];
  }

  /** The problem `new` builds from the encoder's map means what it
      should. */
  lemma ProblemMeaning(pb: WfProblem)
    requires EncodesBoard(pb.coveredBy) && Listed(pb.coveredBy, pb.covers)
    requires pb.requiredItems == pb.coveredBy.Keys
    ensures SudokuProblem(pb)
  {
    forall o | o in pb.covers ensures exists c | ValidCandidate(c) :: o == OptionName(c) {
      KnownIsCandidate(pb, o);
    }
    forall c | ValidCandidate(c) ensures OptionName(c) in pb.covers {
      CandidateCovers(pb, c, "");
    }
    forall c, x | ValidCandidate(c) && OptionName(c) in pb.covers
      ensures x in pb.covers[OptionName(c)] <==> x in CandidateItemNames(c)
    {
      CandidateCovers(pb, c, x);
    }
  }

  // ---------------------------------------------------------------------
  // Exact covers are solved boards
  // ---------------------------------------------------------------------

  /** An option of an exact cover is a candidate, which the converter
      writes into its cell. */
  lemma SelectedCandidate(pb: Problem, sol: seq<Name>, k: nat) returns (c: Candidate)
    requires SudokuProblem(pb) && IsExactCover(pb, sol) && k < |sol|
    ensures ValidCandidate(c) && sol[k] == OptionName(c)
    ensures NameToCellOption(sol[k]) == Some(c) && WritesTo(sol[k], c.row, c.col)
  {
    assert sol[k] in sol;
    c :| ValidCandidate(c) && sol[k] == OptionName(c);
    NameToCellOptionRoundTrip(c);
    OptionNameText(c);
  }

  /** Two positions of an exact cover hold candidates with no item in
      common. */
  lemma SelectedApart(pb: Problem, sol: seq<Name>, k: nat, m: nat) returns (c: Candidate, c': Candidate)
    requires SudokuProblem(pb) && IsExactCover(pb, sol) && k < |sol| && m < |sol| && k != m
    ensures ValidCandidate(c) && sol[k] == OptionName(c)
    ensures ValidCandidate(c') && sol[m] == OptionName(c')
    ensures forall t | 0 <= t < 4 :: CandidateItems(c)[t] != CandidateItems(c')[t]
  {
    c := SelectedCandidate(pb, sol, k);
    c' := SelectedCandidate(pb, sol, m);
    CandidateItemsValid(c);
    CandidateItemsValid(c');
    forall t | 0 <= t < 4 ensures CandidateItems(c)[t] != CandidateItems(c')[t] {
      var x := CandidateItemNames(c)[t];
      if CandidateItems(c)[t] == CandidateItems(c')[t] {
        assert x == CandidateItemNames(c')[t];
        if k < m {
          CoverCountTwo(pb, sol, k, m, x);
        } else {
          CoverCountTwo(pb, sol, m, k, x);
        }
      }
    }
  }

  /** Every cell is the cell of some option of an exact cover. */
  lemma CellCovered(pb: Problem, sol: seq<Name>, i: nat, j: nat) returns (k: nat, c: Candidate)
    requires SudokuProblem(pb) && IsExactCover(pb, sol) && i < 9 && j < 9
    ensures k < |sol| && ValidCandidate(c) && sol[k] == OptionName(c) && c.row == i && c.col == j
  {
    var x := CellItemName(i, j);
    assert ValidItem(Cell(i, j)) && x == ItemName(Cell(i, j));
    assert x in pb.requiredItems;
    k := CoverCountWitness(pb, sol, x);
    c := SelectedCandidate(pb, sol, k);
    assert x in pb.covers[sol[k]];
    assert x in CandidateItemNames(c);
    CellOfCandidate(c, i, j);
  }

  /** The only cell item a candidate covers is its own cell. */
  lemma CellOfCandidate(c: Candidate, i: nat, j: nat)
    requires ValidCandidate(c) && i < 9 && j < 9 && CellItemName(i, j) in CandidateItemNames(c)
    ensures c.row == i && c.col == j
  {
    var t :| 0 <= t < 4 && CandidateItemNames(c)[t] == CellItemName(i, j);
    CandidateItemsValid(c);
    assert CellItemName(i, j) == ItemName(Cell(i, j));
    ItemNameInjective(CandidateItems(c)[t], Cell(i, j));
  }

  /** No later option of an exact cover writes into the cell of the
      option at position `k`. */
  lemma CellNotRewritten(pb: Problem, sol: seq<Name>, k: nat, m: nat, c: Candidate)
    requires SudokuProblem(pb) && IsExactCover(pb, sol) && k < |sol| && m < |sol| && k != m
    requires ValidCandidate(c) && sol[k] == OptionName(c)
    ensures !WritesTo(sol[m], c.row, c.col)
  {
    var c1, c2 := SelectedApart(pb, sol, k, m);
    var c3 := SelectedCandidate(pb, sol, m);
    OptionNameInjective(c1, c);
    OptionNameInjective(c2, c3);
    assert CandidateItems(c)[0] != CandidateItems(c3)[0];
  }

  /** The option at position `k` of an exact cover is the last to write
      into its cell. */
  lemma LastWriter(pb: Problem, sol: seq<Name>, k: nat) returns (c: Candidate)
    requires SudokuProblem(pb) && IsExactCover(pb, sol) && k < |sol|
    ensures ValidCandidate(c) && sol[k] == OptionName(c) && WritesTo(sol[k], c.row, c.col)
    ensures forall m | k < m < |sol| :: !WritesTo(sol[m], c.row, c.col)
  {
    c := SelectedCandidate(pb, sol, k);
    forall m | k < m < |sol| ensures !WritesTo(sol[m], c.row, c.col) {
      CellNotRewritten(pb, sol, k, m, c);
    }
  }

  /** The last option to write into a cell decides the cell's digit. */
  lemma FillShows(options: seq<Name>, k: nat, c: Candidate)
    requires k < |options| && ValidCandidate(c) && NameToCellOption(options[k]) == Some(c)
    requires WritesTo(options[k], c.row, c.col)
    requires forall m | k < m < |options| :: !WritesTo(options[m], c.row, c.col)
    requires Fill(Zeros(), options).Some?
    ensures Shows(Board(Fill(Zeros(), options).value), c)
  {
  }

  /** An exact cover holds only options the converter can write. */
  lemma ConvertsSelected(pb: Problem, sol: seq<Name>)
    requires SudokuProblem(pb) && IsExactCover(pb, sol)
    ensures ConvertToSudokuSolution(sol).Some?
  {
    forall k | 0 <= k < |sol| ensures Convertible(sol[k]) {
      var c := SelectedCandidate(pb, sol, k);
    }
  }

  /** The board converted from an exact cover shows every option of the
      cover. */
  lemma ShowsSelected(pb: Problem, sol: seq<Name>)
    requires SudokuProblem(pb) && IsExactCover(pb, sol)
    ensures ConvertToSudokuSolution(sol).Some?
    ensures forall k | 0 <= k < |sol| :: exists c :: sol[k] == OptionName(c) && Shows(ConvertToSudokuSolution(sol).value, c)
  {
    ConvertsSelected(pb, sol);
    forall k | 0 <= k < |sol| ensures exists c :: sol[k] == OptionName(c) && Shows(ConvertToSudokuSolution(sol).value, c) {
      var c := LastWriter(pb, sol, k);
      NameToCellOptionRoundTrip(c);
      FillShows(sol, k, c);
    }
  }

  /** The converted board holds, in each cell, the digit of the option of
      the cover that fills that cell. */
  lemma CellCandidate(pb: Problem, sol: seq<Name>, i: nat, j: nat) returns (k: nat, c: Candidate)
    requires SudokuProblem(pb) && IsExactCover(pb, sol) && i < 9 && j < 9
    ensures ConvertToSudokuSolution(sol).Some?
    ensures k < |sol| && ValidCandidate(c) && sol[k] == OptionName(c) && c.row == i && c.col == j
    ensures Shows(ConvertToSudokuSolution(sol).value, c)
  {
    ShowsSelected(pb, sol);
    k, c := CellCovered(pb, sol, i, j);
    var c' :| sol[k] == OptionName(c') && Shows(ConvertToSudokuSolution(sol).value, c');
    OptionNameInjective(c, c');
  }

  /** Two different cells of the converted board hold candidates with no
      item in common. */
  lemma TwoCells(pb: Problem, sol: seq<Name>, i: nat, j: nat, i': nat, j': nat) returns (c: Candidate, c': Candidate)
    requires SudokuProblem(pb) && IsExactCover(pb, sol)
    requires i < 9 && j < 9 && i' < 9 && j' < 9 && (i != i' || j != j')
    ensures ConvertToSudokuSolution(sol).Some?
    ensures Shows(ConvertToSudokuSolution(sol).value, c) && c.row == i && c.col == j
    ensures Shows(ConvertToSudokuSolution(sol).value, c') && c'.row == i' && c'.col == j'
    ensures forall t | 0 <= t < 4 :: CandidateItems(c)[t] != CandidateItems(c')[t]
  {
    var k, m;
    k, c := CellCandidate(pb, sol, i, j);
    m, c' := CellCandidate(pb, sol, i', j');
    OptionNameInjective(c, c');
    var c1, c2 := SelectedApart(pb, sol, k, m);
    OptionNameInjective(c1, c);
    OptionNameInjective(c2, c');
  }

  /** Every cell of a board converted from an exact cover holds a digit. */
  lemma CoverDigitsOnly(pb: Problem, sol: seq<Name>)
    requires SudokuProblem(pb) && IsExactCover(pb, sol)
    ensures ConvertToSudokuSolution(sol).Some?
    ensures DigitsOnly(ConvertToSudokuSolution(sol).value)
  {
    ShowsSelected(pb, sol);
    var b := ConvertToSudokuSolution(sol).value;
    forall i, j | 0 <= i < 9 && 0 <= j < 9 ensures 1 <= b.rows[i][j] <= 9 {
      var k, c := CellCandidate(pb, sol, i, j);
    }
  }

  /** No digit repeats in a row of a board converted from an exact cover. */
  lemma CoverRowsDistinct(pb: Problem, sol: seq<Name>)
    requires SudokuProblem(pb) && IsExactCover(pb, sol)
    ensures ConvertToSudokuSolution(sol).Some?
    ensures RowsDistinct(ConvertToSudokuSolution(sol).value)
  {
    ShowsSelected(pb, sol);
    var b := ConvertToSudokuSolution(sol).value;
    forall i, j, j' | 0 <= i < 9 && 0 <= j < j' < 9 ensures b.rows[i][j] != b.rows[i][j'] {
      var c, c' := TwoCells(pb, sol, i, j, i, j');
      assert CandidateItems(c)[1] != CandidateItems(c')[1];
      assert c.digit != c'.digit;
    }
  }

  /** No digit repeats in a column of a board converted from an exact
      cover. */
  lemma CoverColsDistinct(pb: Problem, sol: seq<Name>)
    requires SudokuProblem(pb) && IsExactCover(pb, sol)
    ensures ConvertToSudokuSolution(sol).Some?
    ensures ColsDistinct(ConvertToSudokuSolution(sol).value)
  {
    ShowsSelected(pb, sol);
    var b := ConvertToSudokuSolution(sol).value;
    forall i, i', j | 0 <= i < i' < 9 && 0 <= j < 9 ensures b.rows[i][j] != b.rows[i'][j] {
      var c, c' := TwoCells(pb, sol, i, j, i', j);
      assert CandidateItems(c)[2] != CandidateItems(c')[2];
      assert c.digit != c'.digit;
    }
  }

  /** No digit repeats in a block of a board converted from an exact
      cover. */
  lemma CoverBlocksDistinct(pb: Problem, sol: seq<Name>)
    requires SudokuProblem(pb) && IsExactCover(pb, sol)
    ensures ConvertToSudokuSolution(sol).Some?
    ensures BlocksDistinct(ConvertToSudokuSolution(sol).value)
  {
    ShowsSelected(pb, sol);
    var b := ConvertToSudokuSolution(sol).value;
    forall i, j, i', j' |
      && 0 <= i < 9 && 0 <= j < 9 && 0 <= i' < 9 && 0 <= j' < 9
      && (i != i' || j != j') && CellToBlock(i, j) == CellToBlock(i', j')
      ensures b.rows[i][j] != b.rows[i'][j']
    {
      var c, c' := TwoCells(pb, sol, i, j, i', j');
      assert CandidateItems(c)[3] != CandidateItems(c')[3];
      assert c.digit != c'.digit;
    }
  }

  /** Soundness of the encoding: an exact cover of the problem converts to
      a solved board that shows every option of the cover. */
  lemma CoverSolves(pb: Problem, sol: seq<Name>)
    requires SudokuProblem(pb) && IsExactCover(pb, sol)
    ensures ConvertToSudokuSolution(sol).Some?
    ensures Solved(ConvertToSudokuSolution(sol).value)
    ensures forall k | 0 <= k < |sol| :: exists c :: sol[k] == OptionName(c) && Shows(ConvertToSudokuSolution(sol).value, c)
  {
    ShowsSelected(pb, sol);
    CoverDigitsOnly(pb, sol);
    CoverRowsDistinct(pb, sol);
    CoverColsDistinct(pb, sol);
    CoverBlocksDistinct(pb, sol);
  }
}
