/**
 * The N-queens reduction of `nqueens.rs`: one required item per row and
 * per column, one optional item per diagonal in each direction, and one
 * option per square covering its row, its column and its two diagonals.
 * Columns are named by letters, rows by their number counted from one.
 */
module NQueens {
  import opened Wrappers
  import opened Text
  import opened ExactCover
  import opened CoveredBy
  import opened NQueensBoard

  // ---------------------------------------------------------------------
  // Names
  // ---------------------------------------------------------------------

  /** `col_to_name`: the letter `col` places after `a`.  The byte sum
      `col + b'a'` overflows, and panics, from column 159 on. */
  function ColName(col: nat): (s: Name)
    requires col < 159
    ensures |s| == 1 && 'a' <= s[0] && s[0] as int < 256
  {
    [(col + 'a' as int) as char]
  }

  /** `name_to_col`: the first character, cut to a byte, minus `b'a'`.  An
      empty name or a byte below `b'a'` panics. */
  function NameToCol(name: Name): (r: Option<nat>)
    ensures r.Some? <==> |name| >= 1 && name[0] as int % 256 >= 'a' as int
    ensures r.Some? ==> r.value < 159
  {
    if |name| == 0 then None
    else
      var byte := name[0] as int % 256;
      if byte < 'a' as int then None else Some(byte - 'a' as int)
  }

  /** Reading a column name gives the column back. */
  lemma ColNameRoundTrip(col: nat)
    requires col < 159
    ensures NameToCol(ColName(col)) == Some(col)
  {
  }

  /** A one-letter name that reads as a column is that column's name. */
  lemma NameToColExact(name: Name)
    requires |name| == 1 && name[0] as int < 256 && NameToCol(name).Some?
    ensures ColName(NameToCol(name).value) == name
  {
    assert ColName(NameToCol(name).value)[0] == name[0];
  }

  /** `row_to_name`: the row number counted from one.  The byte sum
      `row + 1` overflows for row 255. */
  function RowName(row: nat): (s: Name)
    requires row < 255
    ensures |s| >= 1 && AllDigits(s)
  {
    NatToString(row + 1)
  }

  /** `name_to_row`: the name parsed as a byte, minus one; a name that does
      not parse, or the number 0, panics. */
  function NameToRow(name: Name): (r: Option<nat>)
    ensures r.Some? ==> r.value < 255 && ParseU8(name) == Some(r.value + 1)
    ensures ParseU8(name).Some? && ParseU8(name).value >= 1 ==> r.Some?
  {
    match ParseU8(name)
    case None => None
    case Some(v) => if v == 0 then None else Some(v - 1)
  }

  /** Reading a row name gives the row back. */
  lemma RowNameRoundTrip(row: nat)
    requires row < 255
    ensures NameToRow(RowName(row)) == Some(row)
  {
    ParseNatToString(row + 1);
  }

  /** Different rows have different names. */
  lemma RowNameInjective(a: nat, b: nat)
    requires a < 255 && b < 255
    ensures RowName(a) == RowName(b) <==> a == b
  {
  }

  /** `diag1_to_name`. */
  function Diag1Name(d: int): Name {
    "/" + IntToString(d)
  }

  /** `diag2_to_name`. */
  function Diag2Name(d: int): Name {
    "\\" + IntToString(d)
  }

  // ---------------------------------------------------------------------
  // Items and options
  // ---------------------------------------------------------------------

  /** A square of the board. */
  datatype Square = Square(col: nat, row: nat)

  predicate OnBoard(sq: Square, n: nat) {
    sq.col < n && sq.row < n
  }

  /** An item of the `n`-queens problem. */
  datatype Item =
    | RowItem(row: nat)
    | ColItem(col: nat)
    | Diag1Item(d1: int)
    | Diag2Item(d2: int)

  /** The items of an `n` by `n` board: its rows and columns, and its
      diagonals `-(n-1) .. n-1` in each direction. */
  predicate ValidItem(it: Item, n: nat) {
    match it
    case RowItem(row) => row < n
    case ColItem(col) => col < n
    case Diag1Item(d) => -(n - 1) <= d <= n - 1
    case Diag2Item(d) => -(n - 1) <= d <= n - 1
  }

  /** Rows and columns must be covered; diagonals may stay empty. */
  predicate Required(it: Item) {
    it.RowItem? || it.ColItem?
  }

  /** The items whose names the source can write. */
  predicate Nameable(it: Item) {
    match it
    case RowItem(row) => row < 255
    case ColItem(col) => col < 159
    case _ => true
  }

  function ItemName(it: Item): Name
    requires Nameable(it)
  {
    match it
    case RowItem(row) => RowName(row)
    case ColItem(col) => ColName(col)
    case Diag1Item(d) => Diag1Name(d)
    case Diag2Item(d) => Diag2Name(d)
  }

  /** Different items have different names: row names are digits, column
      names one letter, diagonal names start with `/` or `\`. */
  lemma ItemNameInjective(a: Item, b: Item)
    requires Nameable(a) && Nameable(b)
    ensures ItemName(a) == ItemName(b) <==> a == b
  {
    if ItemName(a) == ItemName(b) {
      var s := ItemName(a);
      assert s[0] == ItemName(b)[0];
      match a
      case Diag1Item(d) =>
        assert s[1..] == IntToString(d);
        assert ItemName(b)[1..] == IntToString(b.d1);
        IntToStringInjective(d, b.d1);
      case Diag2Item(d) =>
        assert s[1..] == IntToString(d);
        assert ItemName(b)[1..] == IntToString(b.d2);
        IntToStringInjective(d, b.d2);
      case _ =>
    }
  }

  /** The option of a square: its column letter and row number. */
  function OptionName(sq: Square): Name
    requires sq.col < 159 && sq.row < 255
  {
    ColName(sq.col) + RowName(sq.row)
  }

  /** Different squares have different option names. */
  lemma OptionNameInjective(a: Square, b: Square)
    requires a.col < 159 && a.row < 255 && b.col < 159 && b.row < 255
    ensures OptionName(a) == OptionName(b) <==> a == b
  {
    if OptionName(a) == OptionName(b) {
      assert OptionName(a)[0] == OptionName(b)[0];
      assert OptionName(a)[1..] == RowName(a.row);
      assert OptionName(b)[1..] == RowName(b.row);
    }
  }

  /** The text the converters read as the row: the whole numeral after the
      column letter, or, as the source does, only its first character. */
  function RowPart(o: Name, whole: bool): Name
    requires |o| >= 2
  {
    if whole then o[1..] else [o[1]]
  }

  /** The row number the sizing loop reads from an option: `to_digit(10)`
      of the second character as written, the whole numeral as intended.
      `None` is a panic. */
  function RowNumber(o: Name, whole: bool): Option<nat> {
    if |o| < 2 then None
    else if whole then ParseU8(o[1..])
    else ToDigit(o[1])
  }

  /** The square the placing loop reads from an option: the column from the
      first character, the row from the row text.  `None` is a panic. */
  function ReadSquare(o: Name, whole: bool): Option<Square> {
    if |o| < 2 then None
    else
      match (NameToCol([o[0]]), NameToRow(RowPart(o, whole)))
      case (Some(col), Some(row)) => Some(Square(col, row))
      case _ => None
  }

  /** The name of a square reads back as that square; the names of the
      first nine rows have two characters. */
  lemma OptionNameParse(sq: Square)
    requires sq.col < 159 && sq.row < 255
    ensures ReadSquare(OptionName(sq), true) == Some(sq)
    ensures sq.row < 9 ==> |OptionName(sq)| == 2
  {
    var o := OptionName(sq);
    assert o[1..] == RowName(sq.row);
    assert [o[0]] == ColName(sq.col);
    ColNameRoundTrip(sq.col);
    RowNameRoundTrip(sq.row);
  }

  /** `o` is the name of a square of the `n` by `n` board. */
  predicate NamesSquare(o: Name, n: nat)
    requires n <= 159
  {
    ReadSquare(o, true).Some? && OnBoard(ReadSquare(o, true).value, n) && o == OptionName(ReadSquare(o, true).value)
  }

  /** The items a queen on `sq` covers, in the order the encoder pushes
      it. */
  function SquareItems(sq: Square, n: nat): seq<Item> {
    [RowItem(sq.row), ColItem(sq.col), Diag1Item(Diag1(sq.col, sq.row)), Diag2Item(Diag2(sq.col, sq.row, n))]
  }

  /** The items of a square are items of the board. */
  lemma SquareItemsValid(sq: Square, n: nat)
    requires OnBoard(sq, n)
    ensures forall k | 0 <= k < 4 :: ValidItem(SquareItems(sq, n)[k], n)
  {
    DiagRanges(sq.col, sq.row, n);
  }

  function SquareItemNames(sq: Square, n: nat): (r: seq<Name>)
    requires sq.col < 159 && sq.row < 255
    ensures |r| == 4 && forall k | 0 <= k < 4 :: r[k] == ItemName(SquareItems(sq, n)[k])
  {
    seq(4, k requires 0 <= k < 4 => ItemName(SquareItems(sq, n)[k]))
  }

  // ---------------------------------------------------------------------
  // The items the encoder declares
  // ---------------------------------------------------------------------

  /** The number of diagonals in each direction: `2n - 1`, none for an
      empty board. */
  function DiagCount(n: nat): nat {
    if n == 0 then 0 else 2 * n - 1
  }

  /** The diagonal at position `k` of the loop `-(n-1) .. n-1`. */
  function DiagAt(n: nat, k: nat): int {
    k - (n - 1)
  }

  function RowItemNames(n: nat): (r: seq<Name>)
    requires n <= 159
    ensures |r| == n && forall k | 0 <= k < n :: r[k] == ItemName(RowItem(k))
  {
    seq(n, k requires 0 <= k < n => ItemName(RowItem(k)))
  }

  function ColItemNames(n: nat): (r: seq<Name>)
    requires n <= 159
    ensures |r| == n && forall k | 0 <= k < n :: r[k] == ItemName(ColItem(k))
  {
    seq(n, k requires 0 <= k < n => ItemName(ColItem(k)))
  }

  function Diag1ItemNames(n: nat): (r: seq<Name>)
    ensures |r| == DiagCount(n) && forall k | 0 <= k < DiagCount(n) :: r[k] == ItemName(Diag1Item(DiagAt(n, k)))
  {
    seq(DiagCount(n), k requires 0 <= k < DiagCount(n) => ItemName(Diag1Item(DiagAt(n, k))))
  }

  function Diag2ItemNames(n: nat): (r: seq<Name>)
    ensures |r| == DiagCount(n) && forall k | 0 <= k < DiagCount(n) :: r[k] == ItemName(Diag2Item(DiagAt(n, k)))
  {
    seq(DiagCount(n), k requires 0 <= k < DiagCount(n) => ItemName(Diag2Item(DiagAt(n, k))))
  }

  /** The required items in the order the encoder lists them: rows, then
      columns. */
  function RequiredItemNames(n: nat): seq<Name>
    requires n <= 159
  {
    RowItemNames(n) + ColItemNames(n)
  }

  /** Every item the encoder declares. */
  function AllItemNames(n: nat): seq<Name>
    requires n <= 159
  {
    RowItemNames(n) + ColItemNames(n) + Diag1ItemNames(n) + Diag2ItemNames(n)
  }

  ghost predicate IsItemName(x: Name, n: nat) {
    exists it | ValidItem(it, n) && Nameable(it) :: x == ItemName(it)
  }

  ghost predicate IsRequiredName(x: Name, n: nat) {
    exists it | ValidItem(it, n) && Nameable(it) && Required(it) :: x == ItemName(it)
  }

  /** A diagonal of the board sits at position `d + n - 1` of its loop. */
  lemma DiagIndex(d: int, n: nat)
    requires -(n - 1) <= d <= n - 1
    ensures 0 <= d + n - 1 < DiagCount(n) && DiagAt(n, d + n - 1) == d
  {
  }

  /** An item of the board is declared. */
  lemma ItemDeclared(it: Item, n: nat)
    requires n <= 159 && ValidItem(it, n) && Nameable(it)
    ensures ItemName(it) in AllItemNames(n)
    ensures Required(it) ==> ItemName(it) in RequiredItemNames(n)
  {
    var x := ItemName(it);
    match it
    case RowItem(row) => assert x == RowItemNames(n)[row];
    case ColItem(col) => assert x == ColItemNames(n)[col];
    case Diag1Item(d) => DiagIndex(d, n); assert x == Diag1ItemNames(n)[d + n - 1];
    case Diag2Item(d) => DiagIndex(d, n); assert x == Diag2ItemNames(n)[d + n - 1];
  }

  /** A declared name is the name of an item of the board. */
  lemma DeclaredItem(x: Name, n: nat) returns (it: Item)
    requires n <= 159 && x in AllItemNames(n)
    ensures ValidItem(it, n) && Nameable(it) && x == ItemName(it)
    ensures x in RequiredItemNames(n) ==> Required(it)
  {
    var rs, cs, d1, d2 := RowItemNames(n), ColItemNames(n), Diag1ItemNames(n), Diag2ItemNames(n);
    assert x in RequiredItemNames(n) <==> x in rs || x in cs;
    assert x in rs || x in cs || x in d1 || x in d2 by {
      assert AllItemNames(n) == rs + cs + d1 + d2;
    }
    if x in rs {
      var k :| 0 <= k < n && rs[k] == x;
      it := RowItem(k);
    } else if x in cs {
      var k :| 0 <= k < n && cs[k] == x;
      it := ColItem(k);
    } else if x in d1 {
      var k :| 0 <= k < DiagCount(n) && d1[k] == x;
      it := Diag1Item(DiagAt(n, k));
    } else {
      var k :| 0 <= k < DiagCount(n) && d2[k] == x;
      it := Diag2Item(DiagAt(n, k));
    }
  }

  /** The declared names are the names of the board's items, and the
      required ones those of its rows and columns. */
  lemma ItemNamesMeaning(n: nat)
    requires n <= 159
    ensures forall x :: x in Elems(AllItemNames(n)) <==> IsItemName(x, n)
    ensures forall x :: x in Elems(RequiredItemNames(n)) <==> IsRequiredName(x, n)
  {
    forall x | IsItemName(x, n) ensures x in AllItemNames(n) {
      var it :| ValidItem(it, n) && Nameable(it) && x == ItemName(it);
      ItemDeclared(it, n);
    }
    forall x | IsRequiredName(x, n) ensures x in RequiredItemNames(n) {
      var it :| ValidItem(it, n) && Nameable(it) && Required(it) && x == ItemName(it);
      ItemDeclared(it, n);
    }
    forall x | x in AllItemNames(n) ensures IsItemName(x, n) {
      var it := DeclaredItem(x, n);
    }
    forall x | x in RequiredItemNames(n) ensures IsRequiredName(x, n) {
      var it := DeclaredItem(x, n);
    }
  }

  /** The four declaring loops, one list after another. */
  function DeclareFour(a: seq<Name>, b: seq<Name>, c: seq<Name>, d: seq<Name>): (m: map<Name, seq<Name>>)
    ensures forall x :: x in m <==> x in a || x in b || x in c || x in d
    ensures forall x | x in m :: m[x] == []
  {
    Declare(Declare(Declare(Declare(map[], a), b), c), d)
  }

  /** `covered_by` after the four declaring loops: every item, with an
      empty list. */
  function Declared(n: nat): (m: map<Name, seq<Name>>)
    requires n <= 159
    ensures m.Keys == Elems(AllItemNames(n))
    ensures forall x | x in m :: m[x] == []
  {
    var rs, cs, d1, d2 := RowItemNames(n), ColItemNames(n), Diag1ItemNames(n), Diag2ItemNames(n);
    ElemsConcat(rs, cs);
    ElemsConcat(rs + cs, d1);
    ElemsConcat(rs + cs + d1, d2);
    DeclareFour(rs, cs, d1, d2)
  }

  // ---------------------------------------------------------------------
  // The options the encoder pushes
  // ---------------------------------------------------------------------

  /** A queen on `sq`, with the items it covers. */
  function PlacementOf(sq: Square, n: nat): Placement
    requires sq.col < 159 && sq.row < 255
  {
    Placement(OptionName(sq), SquareItemNames(sq, n))
  }

  /** The inner loop of the option construction, over the columns of
      `row`. */
  function RowPlacements(n: nat, row: nat): (r: seq<Placement>)
    requires n <= 159 && row < n
    ensures |r| == n && forall c | 0 <= c < n :: r[c] == PlacementOf(Square(c, row), n)
  {
    seq(n, c requires 0 <= c < n => PlacementOf(Square(c, row), n))
  }

  /** The option construction from `row` on: one placement per square, row
      by row. */
  function Placements(n: nat, row: nat): (r: seq<Placement>)
    requires n <= 159
    ensures forall p :: p in r <==> exists sq | OnBoard(sq, n) && row <= sq.row :: p == PlacementOf(sq, n)
    decreases n - row
  {
    if row >= n then []
    else
      var rest := Placements(n, row + 1);
      var here := RowPlacements(n, row);
      forall p | p in here ensures exists sq | OnBoard(sq, n) && row <= sq.row :: p == PlacementOf(sq, n) {
        var c :| 0 <= c < n && here[c] == p;
        assert OnBoard(Square(c, row), n);
      }
      forall sq | OnBoard(sq, n) && row <= sq.row ensures PlacementOf(sq, n) in here + rest {
        if sq.row == row {
          assert here[sq.col] == PlacementOf(sq, n);
        } else {
          assert PlacementOf(sq, n) in rest;
        }
      }
      here + rest
  }

  /** The items a placement covers are declared. */
  lemma PlacedItemsDeclared(n: nat)
    requires n <= 159
    ensures PlacedItems(Placements(n, 0)) <= Elems(AllItemNames(n))
  {
    var ps := Placements(n, 0);
    forall x | x in PlacedItems(ps) ensures x in Elems(AllItemNames(n)) {
      var k :| 0 <= k < |ps| && x in ps[k].items;
      assert ps[k] in ps;
      var sq :| OnBoard(sq, n) && ps[k] == PlacementOf(sq, n);
      var t :| 0 <= t < 4 && SquareItemNames(sq, n)[t] == x;
      SquareItemsValid(sq, n);
      ItemDeclared(SquareItems(sq, n)[t], n);
    }
  }

  /** Which options a placement lists under an item: those of the squares
      covering it. */
  lemma PlacedMeaning(n: nat, o: Name, x: Name)
    requires n <= 159
    ensures Placed(Placements(n, 0), o, x) <==>
      exists sq | OnBoard(sq, n) :: o == OptionName(sq) && x in SquareItemNames(sq, n)
  {
    if Placed(Placements(n, 0), o, x) {
      PlacedSquare(n, o, x);
    }
    if exists sq | OnBoard(sq, n) :: o == OptionName(sq) && x in SquareItemNames(sq, n) {
      var sq :| OnBoard(sq, n) && o == OptionName(sq) && x in SquareItemNames(sq, n);
      SquarePlaced(n, sq, x);
    }
  }

  lemma PlacedSquare(n: nat, o: Name, x: Name)
    requires n <= 159 && Placed(Placements(n, 0), o, x)
    ensures exists sq | OnBoard(sq, n) :: o == OptionName(sq) && x in SquareItemNames(sq, n)
  {
    var ps := Placements(n, 0);
    var k :| 0 <= k < |ps| && ps[k].option == o && x in ps[k].items;
    assert ps[k] in ps;
    var sq :| OnBoard(sq, n) && ps[k] == PlacementOf(sq, n);
  }

  lemma SquarePlaced(n: nat, sq: Square, x: Name)
    requires n <= 159 && OnBoard(sq, n) && x in SquareItemNames(sq, n)
    ensures Placed(Placements(n, 0), OptionName(sq), x)
  {
    var ps := Placements(n, 0);
    assert PlacementOf(sq, n) in ps;
    var k :| 0 <= k < |ps| && ps[k] == PlacementOf(sq, n);
  }

  /** The `covered_by` map the encoder builds: every `get_mut(..).unwrap()`
      finds its item. */
  function CoveredByMap(n: nat): (m: map<Name, seq<Name>>)
    requires n <= 159
    ensures m.Keys == Elems(AllItemNames(n))
    ensures forall x, o | x in m :: o in m[x] <==> Placed(Placements(n, 0), o, x)
  {
    PlacedItemsDeclared(n);
    PushExisting(Declared(n), Placements(n, 0)).value
  }

  /** A `covered_by` map listing, under each item of the `n` by `n` board,
      exactly the squares whose queen covers it. */
  ghost predicate EncodesQueens(m: map<Name, seq<Name>>, n: nat)
    requires n <= 159
  {
    && (forall x :: x in m <==> IsItemName(x, n))
    && (forall sq, k | OnBoard(sq, n) && 0 <= k < 4 ::
          SquareItemNames(sq, n)[k] in m && OptionName(sq) in m[SquareItemNames(sq, n)[k]])
    && (forall sq, x | OnBoard(sq, n) && x in m && OptionName(sq) in m[x] :: x in SquareItemNames(sq, n))
    && (forall x, o | x in m && o in m[x] :: NamesSquare(o, n))
  }

  /** The encoder lists a square under each of its items. */
  lemma SquareListed(n: nat, sq: Square, k: nat)
    requires n <= 159 && OnBoard(sq, n) && k < 4
    ensures SquareItemNames(sq, n)[k] in CoveredByMap(n)
    ensures OptionName(sq) in CoveredByMap(n)[SquareItemNames(sq, n)[k]]
  {
    var x := SquareItemNames(sq, n)[k];
    SquareItemsValid(sq, n);
    ItemDeclared(SquareItems(sq, n)[k], n);
    PlacedMeaning(n, OptionName(sq), x);
  }

  /** A square is listed only under its own items. */
  lemma ListedUnderOwn(n: nat, sq: Square, x: Name)
    requires n <= 159 && OnBoard(sq, n) && x in CoveredByMap(n) && OptionName(sq) in CoveredByMap(n)[x]
    ensures x in SquareItemNames(sq, n)
  {
    PlacedMeaning(n, OptionName(sq), x);
    var sq' :| OnBoard(sq', n) && OptionName(sq) == OptionName(sq') && x in SquareItemNames(sq', n);
    OptionNameInjective(sq, sq');
  }

  /** Only squares are listed. */
  lemma ListedSquare(n: nat, x: Name, o: Name)
    requires n <= 159 && x in CoveredByMap(n) && o in CoveredByMap(n)[x]
    ensures NamesSquare(o, n)
  {
    PlacedMeaning(n, o, x);
    var sq :| OnBoard(sq, n) && o == OptionName(sq) && x in SquareItemNames(sq, n);
    OptionNameParse(sq);
  }

  /** The encoder's `covered_by` encodes the board's rules. */
  lemma CoveredByMeaning(n: nat)
    requires n <= 159
    ensures EncodesQueens(CoveredByMap(n), n)
  {
    var m := CoveredByMap(n);
    ItemNamesMeaning(n);
    assert forall x :: x in m <==> IsItemName(x, n);
    forall sq, k | OnBoard(sq, n) && 0 <= k < 4
      ensures SquareItemNames(sq, n)[k] in m && OptionName(sq) in m[SquareItemNames(sq, n)[k]]
    {
      SquareListed(n, sq, k);
    }
    forall sq, x | OnBoard(sq, n) && x in m && OptionName(sq) in m[x] ensures x in SquareItemNames(sq, n) {
      ListedUnderOwn(n, sq, x);
    }
    forall x, o | x in m && o in m[x] ensures NamesSquare(o, n) {
      ListedSquare(n, x, o);
    }
  }

  // ---------------------------------------------------------------------
  // The problem handed to the solver
  // ---------------------------------------------------------------------

  /** What the encoder's problem means: rows and columns are required,
      diagonals optional, and each option is a square covering its row,
      its column and its two diagonals. */
  ghost predicate QueensProblem(pb: Problem, n: nat)
    requires n <= 159
  {
    && (forall x :: x in pb.requiredItems <==> IsRequiredName(x, n))
    && pb.requiredOptions == []
    && (forall o | o in pb.covers :: NamesSquare(o, n))
    && (forall sq | OnBoard(sq, n) :: OptionName(sq) in pb.covers)
    && (forall sq, x | OnBoard(sq, n) && OptionName(sq) in pb.covers ::
          x in pb.covers[OptionName(sq)] <==> x in SquareItemNames(sq, n))
  }

  /** A square is listed under each of its items, so it is an option
      covering them. */
  lemma SquareCoversOwn(pb: Problem, n: nat, sq: Square, k: nat)
    requires n <= 159 && Inverse(pb.coveredBy, pb.covers) && EncodesQueens(pb.coveredBy, n)
    requires OnBoard(sq, n) && k < 4
    ensures OptionName(sq) in pb.covers && SquareItemNames(sq, n)[k] in pb.covers[OptionName(sq)]
  {
    var x := SquareItemNames(sq, n)[k];
    assert x in pb.coveredBy && OptionName(sq) in pb.coveredBy[x];
    InverseListed(pb.coveredBy, pb.covers, x, OptionName(sq));
  }

  /** The items of one square, read off the inverse of `covered_by`. */
  lemma SquareCovers(pb: Problem, n: nat, sq: Square, x: Name)
    requires n <= 159 && Inverse(pb.coveredBy, pb.covers) && EncodesQueens(pb.coveredBy, n) && OnBoard(sq, n)
    ensures OptionName(sq) in pb.covers
    ensures x in pb.covers[OptionName(sq)] <==> x in SquareItemNames(sq, n)
  {
    var o := OptionName(sq);
    SquareCoversOwn(pb, n, sq, 0);
    if x in pb.covers[o] {
      assert x in pb.coveredBy && o in pb.coveredBy[x];
    }
    if x in SquareItemNames(sq, n) {
      var k :| 0 <= k < 4 && SquareItemNames(sq, n)[k] == x;
      SquareCoversOwn(pb, n, sq, k);
    }
  }

  /** A known option is a square: it is listed under some item. */
  lemma KnownIsSquare(pb: Problem, n: nat, o: Name)
    requires n <= 159 && EncodesQueens(pb.coveredBy, n) && Listed(pb.coveredBy, pb.covers) && o in pb.covers
    ensures NamesSquare(o, n)
  {
    var x :| x in pb.coveredBy && o in pb.coveredBy[x];
  }

  /** The problem `new` builds from the encoder's map means what it
      should. */
  lemma ProblemMeaning(pb: WfProblem, n: nat)
    requires n <= 159 && EncodesQueens(pb.coveredBy, n) && Listed(pb.coveredBy, pb.covers)
    requires pb.requiredItems == Elems(RequiredItemNames(n)) && pb.requiredOptions == []
    ensures QueensProblem(pb, n)
  {
    ItemNamesMeaning(n);
    forall o | o in pb.covers ensures NamesSquare(o, n) {
      KnownIsSquare(pb, n, o);
    }
    forall sq | OnBoard(sq, n) ensures OptionName(sq) in pb.covers {
      SquareCovers(pb, n, sq, "");
    }
    forall sq, x | OnBoard(sq, n) && OptionName(sq) in pb.covers
      ensures x in pb.covers[OptionName(sq)] <==> x in SquareItemNames(sq, n)
    {
      SquareCovers(pb, n, sq, x);
    }
  }

  /** `new` applied to the encoder's items and `covered_by`, given as
      parameters so that their constructions stay out of sight. */
  function Encode(n: nat, items: seq<Name>, coveredBy: map<Name, seq<Name>>, itemOrder: seq<Name>)
    : (r: (WfProblem, State))
    requires n <= 159 && EncodesQueens(coveredBy, n)
    requires items == RequiredItemNames(n) && Elems(items) <= coveredBy.Keys
    requires Enumerates(itemOrder, coveredBy.Keys)
    ensures QueensProblem(r.0, n) && InitialState(r.0, r.1)
  {
    var r := New(items, [], coveredBy, itemOrder);
    assert r.Success?;
    NoElems(r.value.0.requiredOptions);
    ProblemMeaning(r.value.0, n);
    r.value
  }

  /** The names of every item of an `n` by `n` board: the keys of the
      encoder's `covered_by`. */
  function ItemNameSet(n: nat): set<Name>
    requires n <= 159
  {
    Elems(AllItemNames(n))
  }

  /** `convert_to_exact_cover_problem`: `n` is a `u16` the encoder cuts to
      a byte.  From 160 on, the byte sum in `col_to_name` overflows, which
      the source panics on, modelled as `None`.  `itemOrder` is the
      traversal order of the `covered_by` hash map. */
  function ConvertToExactCoverProblem(n: nat, itemOrder: seq<Name>): (r: Option<(WfProblem, State)>)
    requires n < 65536
    requires n % 256 < 160 ==> Enumerates(itemOrder, ItemNameSet(n % 256))
    ensures r.Some? <==> n % 256 < 160
    ensures r.Some? ==> QueensProblem(r.value.0, n % 256) && InitialState(r.value.0, r.value.1)
  {
    var n8 := n % 256;
    if n8 >= 160 then None
    else
      CoveredByMeaning(n8);
      ItemNamesMeaning(n8);
      ElemsConcat(RowItemNames(n8) + ColItemNames(n8), Diag1ItemNames(n8) + Diag2ItemNames(n8));
      assert AllItemNames(n8) == RequiredItemNames(n8) + (Diag1ItemNames(n8) + Diag2ItemNames(n8));
      Some(Encode(n8, RequiredItemNames(n8), CoveredByMap(n8), itemOrder))
  }
}
