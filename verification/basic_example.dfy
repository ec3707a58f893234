/**
 * The set-family example: items are named by strings, and an option is
 * a string that covers the one-character items spelled by its characters
 * (option "AD" covers items "A" and "D").  The encoder declares every
 * item, files each option under the items of its characters, and hands
 * the map to `ExactCoverProblem::new`; the solver's answer is handed back
 * unchanged.
 */
module BasicExample {
  import opened Wrappers
  import opened ExactCover
  import opened ExactCoverSemantics
  import opened ExactCoverSearch
  import opened CoveredBy

  /** `BasicExampleProblem`: the required items, the optional items and the
      options, in the order given. */
  datatype Example = Example(requiredItems: seq<Name>, optionalItems: seq<Name>, options: seq<Name>)

  /** `get_items_which_can_be_covered_by_option`: the option's characters,
      each as a one-character item name, in order. */
  function CharItems(option: Name): (r: seq<Name>)
    ensures |r| == |option|
    ensures forall x :: x in r <==> |x| == 1 && x[0] in option
    decreases |option|
  {
    if option == [] then []
    else
      var r := [[option[0]]] + CharItems(option[1..]);
      assert forall x :: x in r <==> x == [option[0]] || x in CharItems(option[1..]);
      assert forall c :: c in option <==> c == option[0] || c in option[1..];
      r
  }

  /** The items of an option joined back together give the option. */
  function Concat(xs: seq<Name>): Name {
    if xs == [] then [] else xs[0] + Concat(xs[1..])
  }

  lemma {:induction false} CharItemsConcat(option: Name)
    ensures Concat(CharItems(option)) == option
    decreases |option|
  {
    if option != [] {
      CharItemsConcat(option[1..]);
      assert CharItems(option)[1..] == CharItems(option[1..]);
      assert [option[0]] + option[1..] == option;
    }
  }

  /** The declared items of an example. */
  function DeclaredItems(ex: Example): set<Name> {
    Elems(ex.requiredItems) + Elems(ex.optionalItems)
  }

  /** Every character of every option names a declared item, so that the
      encoder's `get_mut(..).unwrap()` finds its list. */
  predicate AllDeclared(ex: Example) {
    forall k, c | 0 <= k < |ex.options| && c in ex.options[k] :: [c] in DeclaredItems(ex)
  }

  /** One placement per option, in the order given. */
  function Placements(options: seq<Name>): (r: seq<Placement>)
    ensures |r| == |options|
    ensures forall k | 0 <= k < |r| :: r[k].option == options[k] && r[k].items == CharItems(options[k])
  {
    seq(|options|, k requires 0 <= k < |options| => Placement(options[k], CharItems(options[k])))
  }

  /** The placements list an option under an item exactly when the option
      is given and spells the item. */
  lemma PlacedMeaning(options: seq<Name>, o: Name, x: Name)
    ensures Placed(Placements(options), o, x) <==> o in options && |x| == 1 && x[0] in o
  {
    var ps := Placements(options);
    if o in options && |x| == 1 && x[0] in o {
      var k :| 0 <= k < |options| && options[k] == o;
      assert ps[k].option == o && x in ps[k].items;
    }
  }

  /** Every item the placements name is declared when every character of
      every option is. */
  lemma DeclaredPlaced(ex: Example)
    requires AllDeclared(ex)
    ensures PlacedItems(Placements(ex.options)) <= DeclaredItems(ex)
  {
    var ps := Placements(ex.options);
    forall x | x in PlacedItems(ps) ensures x in DeclaredItems(ex) {
      var k :| 0 <= k < |ps| && x in ps[k].items;
      assert [x[0]] == x;
    }
  }

  /** Every character of every option is declared when every item the
      placements name is. */
  lemma PlacedAreDeclared(ex: Example)
    requires PlacedItems(Placements(ex.options)) <= DeclaredItems(ex)
    ensures AllDeclared(ex)
  {
    var ps := Placements(ex.options);
    forall k, c | 0 <= k < |ex.options| && c in ex.options[k] ensures [c] in DeclaredItems(ex) {
      assert [c] in ps[k].items;
    }
  }

  /** The placements name only declared items exactly when every
      character of every option is declared. */
  lemma PlacedDeclared(ex: Example)
    ensures PlacedItems(Placements(ex.options)) <= DeclaredItems(ex) <==> AllDeclared(ex)
  {
    if PlacedItems(Placements(ex.options)) <= DeclaredItems(ex) {
      PlacedAreDeclared(ex);
    }
    if AllDeclared(ex) {
      DeclaredPlaced(ex);
    }
  }

  /** The declaration loops: every item with an empty list. */
  function Declared(ex: Example): (m: map<Name, seq<Name>>)
    ensures m.Keys == DeclaredItems(ex)
    ensures forall x | x in m :: m[x] == []
  {
    Declare(Declare(map[], ex.requiredItems), ex.optionalItems)
  }

  /** The meaning of a `covered_by` map for an example: the declared items
      are the keys, and an item lists exactly the options that spell it. */
  ghost predicate EncodesExample(m: map<Name, seq<Name>>, ex: Example) {
    && m.Keys == DeclaredItems(ex)
    && forall x, o | x in m :: o in m[x] <==> o in ex.options && |x| == 1 && x[0] in o
  }

  /** The encoder's `covered_by` map; `None` is the panic on an option
      character that names no declared item. */
  function CoveredByMap(ex: Example): (r: Option<map<Name, seq<Name>>>)
    ensures r.Some? <==> AllDeclared(ex)
    ensures r.Some? ==> EncodesExample(r.value, ex)
  {
    PlacedDeclared(ex);
    var r := PushExisting(Declared(ex), Placements(ex.options));
    assert r.Some? ==> EncodesExample(r.value, ex) by {
      if r.Some? {
        forall x, o | x in r.value
          ensures o in r.value[x] <==> o in ex.options && |x| == 1 && x[0] in o
        {
          PlacedMeaning(ex.options, o, x);
        }
      }
    }
    r
  }

  /** What the encoder's problem means: the required items are the
      example's, no option is required, the options are the example's
      non-empty options, and each covers the items it spells. */
  ghost predicate ExampleProblem(pb: Problem, ex: Example) {
    && pb.requiredItems == Elems(ex.requiredItems)
    && pb.requiredOptions == []
    && (forall o :: o in pb.covers <==> o in ex.options && o != [])
    && (forall o, x | o in pb.covers :: x in pb.covers[o] <==> |x| == 1 && x[0] in o)
  }

  /** An option listed under an item is a known option covering it. */
  lemma ListedCovers(pb: WfProblem, ex: Example, o: Name, x: Name)
    requires EncodesExample(pb.coveredBy, ex) && AllDeclared(ex)
    requires o in ex.options && |x| == 1 && x[0] in o
    ensures o in pb.covers && x in pb.covers[o]
  {
    var k :| 0 <= k < |ex.options| && ex.options[k] == o;
    assert [x[0]] == x;
    InverseListed(pb.coveredBy, pb.covers, x, o);
  }

  /** The problem `new` builds from the encoder's map means what it
      should. */
  lemma ProblemMeaning(pb: WfProblem, ex: Example)
    requires EncodesExample(pb.coveredBy, ex) && AllDeclared(ex) && Listed(pb.coveredBy, pb.covers)
    requires pb.requiredItems == Elems(ex.requiredItems) && pb.requiredOptions == []
    ensures ExampleProblem(pb, ex)
  {
    forall o ensures o in pb.covers <==> o in ex.options && o != [] {
      if o in pb.covers {
        var i :| i in pb.coveredBy && o in pb.coveredBy[i];
      }
      if o in ex.options && o != [] {
        ListedCovers(pb, ex, o, [o[0]]);
      }
    }
    forall o, x | o in pb.covers ensures x in pb.covers[o] <==> |x| == 1 && x[0] in o {
      if x in pb.covers[o] {
        assert x in pb.coveredBy && o in pb.coveredBy[x];
      }
      if |x| == 1 && x[0] in o {
        var i :| i in pb.coveredBy && o in pb.coveredBy[i];
        ListedCovers(pb, ex, o, x);
      }
    }
  }

  /** `convert_to_exact_cover_problem`: `None` is the panic on an
      undeclared option character.  `itemOrder` is the traversal order of
      the `covered_by` hash map. */
  function ConvertToExactCoverProblem(ex: Example, itemOrder: seq<Name>): (r: Option<(WfProblem, State)>)
    requires Enumerates(itemOrder, DeclaredItems(ex))
    ensures r.Some? <==> AllDeclared(ex)
    ensures r.Some? ==> ExampleProblem(r.value.0, ex) && InitialState(r.value.0, r.value.1)
  {
    match CoveredByMap(ex)
    case None => None
    case Some(m) =>
      var r := New(ex.requiredItems, [], m, itemOrder);
      assert r.Success?;
      var pb := r.value.0;
      NoElems(pb.requiredOptions);
      ProblemMeaning(pb, ex);
      Some(r.value)
  }

  // ---------------------------------------------------------------------
  // Exact covers in the example's own terms
  // ---------------------------------------------------------------------

  /** How many options of `sel` spell the item `x`. */
  function Hits(sel: seq<Name>, x: Name): (r: nat)
    ensures r <= |sel|
    decreases |sel|
  {
    if sel == [] then 0
    else Hits(sel[..|sel| - 1], x) + if |x| == 1 && x[0] in sel[|sel| - 1] then 1 else 0
  }

  /** A solution of the example: non-empty options of the example that
      spell every required item once and no item twice. */
  ghost predicate Solves(ex: Example, sel: seq<Name>) {
    && (forall k | 0 <= k < |sel| :: sel[k] in ex.options && sel[k] != [])
    && (forall x :: Hits(sel, x) <= 1)
    && (forall x | x in ex.requiredItems :: Hits(sel, x) == 1)
  }

  /** Over known options the solver's cover count is the number of options
      spelling the item. */
  lemma {:induction false} CountIsHits(pb: Problem, ex: Example, sel: seq<Name>, x: Name)
    requires ExampleProblem(pb, ex) && forall k | 0 <= k < |sel| :: sel[k] in pb.covers
    ensures CoverCount(pb, sel, x) == Hits(sel, x)
    decreases |sel|
  {
    if sel != [] {
      var init := sel[..|sel| - 1];
      assert forall k | 0 <= k < |init| :: init[k] == sel[k];
      CountIsHits(pb, ex, init, x);
    }
  }

  /** The solver's exact covers of the encoder's problem are the example's
      solutions. */
  lemma ExactCoverIff(pb: Problem, ex: Example, sel: seq<Name>)
    requires ExampleProblem(pb, ex)
    ensures IsExactCover(pb, sel) <==> Solves(ex, sel)
  {
    if IsExactCover(pb, sel) {
      forall k | 0 <= k < |sel| ensures sel[k] in pb.covers {
        assert sel[k] in sel;
      }
      forall x ensures CoverCount(pb, sel, x) == Hits(sel, x) {
        CountIsHits(pb, ex, sel, x);
      }
    }
    if Solves(ex, sel) {
      forall x ensures CoverCount(pb, sel, x) == Hits(sel, x) {
        CountIsHits(pb, ex, sel, x);
      }
    }
  }

  /** The example has a solution exactly when the encoder's problem has an
      exact cover. */
  lemma SolvableIff(pb: Problem, ex: Example)
    requires ExampleProblem(pb, ex)
    ensures Extensible(pb, []) <==> exists sel :: Solves(ex, sel)
  {
    if Extensible(pb, []) {
      var x :| IsExactCover(pb, [] + x);
      assert [] + x == x;
      ExactCoverIff(pb, ex, x);
    }
    if exists sel :: Solves(ex, sel) {
      var sel :| Solves(ex, sel);
      ExactCoverIff(pb, ex, sel);
      assert [] + sel == sel;
    }
  }

  // ---------------------------------------------------------------------
  // Solving
  // ---------------------------------------------------------------------

  /** `solve_basic_example_with_exact_cover`: the outer `None` is the
      encoder's panic; the inner option is the solver's answer, whose
      selected options `convert_to_basic_example_solution` copies as they
      are.  A selection comes back exactly when the example has a solution,
      and it is one. */
  function SolveBasicExample(ex: Example, itemOrder: seq<Name>): (r: Option<Option<seq<Name>>>)
    requires Enumerates(itemOrder, DeclaredItems(ex))
    ensures r.Some? <==> AllDeclared(ex)
    ensures r.Some? && r.value.Some? ==> Solves(ex, r.value.value)
    ensures r.Some? ==> (r.value.Some? <==> exists sel :: Solves(ex, sel))
  {
    match ConvertToExactCoverProblem(ex, itemOrder)
    case None => None
    case Some((pb, s)) =>
      var found := Solve(pb, s);
      assert found.Success?;
      SolvableIff(pb, ex);
      match found.value
      case None => Some(None)
      case Some(sol) =>
        ExactCoverIff(pb, ex, sol);
        Some(Some(sol))
  }

  /** With no required items the solver selects nothing. */
  lemma NoRequiredItems(ex: Example, itemOrder: seq<Name>)
    requires Enumerates(itemOrder, DeclaredItems(ex)) && AllDeclared(ex) && ex.requiredItems == []
    ensures SolveBasicExample(ex, itemOrder) == Some(Some([]))
  {
    var (pb, s) := ConvertToExactCoverProblem(ex, itemOrder).value;
    assert pb.requiredItems == {};
  }

  /** A required item with no option spelling it leaves the example
      without a solution. */
  lemma UncoverableItem(ex: Example, itemOrder: seq<Name>, x: Name)
    requires Enumerates(itemOrder, DeclaredItems(ex)) && AllDeclared(ex)
    requires x in ex.requiredItems && forall k | 0 <= k < |ex.options| :: !(|x| == 1 && x[0] in ex.options[k])
    ensures SolveBasicExample(ex, itemOrder) == Some(None)
  {
    forall sel | Solves(ex, sel) ensures false {
      NoHits(ex, sel, x);
    }
  }

  /** Options of the example that do not spell `x` never hit it. */
  lemma {:induction false} NoHits(ex: Example, sel: seq<Name>, x: Name)
    requires forall k | 0 <= k < |sel| :: sel[k] in ex.options
    requires forall k | 0 <= k < |ex.options| :: !(|x| == 1 && x[0] in ex.options[k])
    ensures Hits(sel, x) == 0
    decreases |sel|
  {
    if sel != [] {
      var init := sel[..|sel| - 1];
      assert forall k | 0 <= k < |init| :: init[k] == sel[k];
      NoHits(ex, init, x);
      var k :| 0 <= k < |ex.options| && ex.options[k] == sel[|sel| - 1];
    }
  }

  // ---------------------------------------------------------------------
  // Small examples
  // ---------------------------------------------------------------------

  /** An item spelled once is spelled by some option of the selection. */
  lemma {:induction false} HitsWitness(sel: seq<Name>, x: Name) returns (k: nat)
    requires Hits(sel, x) > 0
    ensures k < |sel| && |x| == 1 && x[0] in sel[k]
    decreases |sel|
  {
    var init := sel[..|sel| - 1];
    if |x| == 1 && x[0] in sel[|sel| - 1] {
      k := |sel| - 1;
    } else {
      k := HitsWitness(init, x);
      assert init[k] == sel[k];
    }
  }

  /** Two positions spelling the same item make it spelled twice. */
  lemma {:induction false} HitsTwo(sel: seq<Name>, k: nat, m: nat, x: Name)
    requires k < m < |sel| && |x| == 1 && x[0] in sel[k] && x[0] in sel[m]
    ensures Hits(sel, x) >= 2
    decreases |sel|
  {
    var init := sel[..|sel| - 1];
    assert init[k] == sel[k];
    if m == |sel| - 1 {
      HitsPositive(init, k, x);
    } else {
      assert init[m] == sel[m];
      HitsTwo(init, k, m, x);
    }
  }

  /** A position spelling an item makes it spelled at least once. */
  lemma {:induction false} HitsPositive(sel: seq<Name>, k: nat, x: Name)
    requires k < |sel| && |x| == 1 && x[0] in sel[k]
    ensures Hits(sel, x) >= 1
    decreases |sel|
  {
    if k < |sel| - 1 {
      var init := sel[..|sel| - 1];
      assert init[k] == sel[k];
      HitsPositive(init, k, x);
    }
  }

  /** The items A, B and C with options AB, BC and AC. */
  function Triangle(): Example {
    Example(["A", "B", "C"], [], ["AB", "BC", "AC"])
  }

  /** No two of AB, BC and AC are disjoint, and one of them leaves an item
      uncovered: the triangle has no solution. */
  lemma TriangleUnsolvable(sel: seq<Name>)
    ensures !Solves(Triangle(), sel)
  {
    var ex := Triangle();
    if Solves(ex, sel) {
      assert "A" in ex.requiredItems && "B" in ex.requiredItems && "C" in ex.requiredItems;
      var a := HitsWitness(sel, "A");
      assert sel[a] in ex.options;
      if sel[a] == "AB" {
        var c := HitsWitness(sel, "C");
        assert sel[c] in ex.options;
        if sel[c] == "BC" {
          if a < c { HitsTwo(sel, a, c, "B"); } else { HitsTwo(sel, c, a, "B"); }
        } else {
          if a < c { HitsTwo(sel, a, c, "A"); } else { HitsTwo(sel, c, a, "A"); }
        }
      } else {
        var b := HitsWitness(sel, "B");
        assert sel[b] in ex.options;
        if sel[b] == "AB" {
          if a < b { HitsTwo(sel, a, b, "A"); } else { HitsTwo(sel, b, a, "A"); }
        } else {
          if a < b { HitsTwo(sel, a, b, "C"); } else { HitsTwo(sel, b, a, "C"); }
        }
      }
    }
  }

  /** The solver finds no selection for the triangle. */
  lemma TriangleNoSolution(itemOrder: seq<Name>)
    requires Enumerates(itemOrder, DeclaredItems(Triangle()))
    ensures SolveBasicExample(Triangle(), itemOrder) == Some(None)
  {
    var ex := Triangle();
    assert AllDeclared(ex) by {
      forall k, c | 0 <= k < |ex.options| && c in ex.options[k] ensures [c] in DeclaredItems(ex) {
        assert c in "ABC";
      }
    }
    forall sel ensures !Solves(ex, sel) {
      TriangleUnsolvable(sel);
    }
  }

  /** Two positions of a selection whose options share a character spell
      that character twice. */
  lemma HitsShared(sel: seq<Name>, k: nat, m: nat, c: char)
    requires k < |sel| && m < |sel| && k != m && c in sel[k] && c in sel[m]
    ensures Hits(sel, [c]) >= 2
  {
    if k < m { HitsTwo(sel, k, m, [c]); } else { HitsTwo(sel, m, k, [c]); }
  }

  /** Two different options that both spell `c`. */
  predicate Share(o: Name, p: Name, c: char) {
    o != p && c in o && c in p
  }

  /** Two options of a solution do not both spell `c`, unless they are the
      same option. */
  lemma Clash(ex: Example, sel: seq<Name>, k: nat, m: nat, c: char)
    requires Solves(ex, sel) && k < |sel| && m < |sel|
    ensures !Share(sel[k], sel[m], c)
  {
    if Share(sel[k], sel[m], c) {
      HitsShared(sel, k, m, c);
    }
  }

  /** A required item of a solution is spelled by one of its options. */
  lemma Covered(ex: Example, sel: seq<Name>, x: Name) returns (k: nat)
    requires Solves(ex, sel) && x in ex.requiredItems && |x| == 1
    ensures k < |sel| && x[0] in sel[k] && sel[k] in ex.options
  {
    k := HitsWitness(sel, x);
  }

  /** A solution lists no option twice. */
  lemma SolutionDistinct(ex: Example, sel: seq<Name>)
    requires Solves(ex, sel)
    ensures Distinct(sel)
  {
    forall k, m | 0 <= k < m < |sel| ensures sel[k] != sel[m] {
      if sel[k] == sel[m] {
        HitsShared(sel, k, m, sel[k][0]);
      }
    }
  }

  /** The example of the Wikipedia article "Exact cover": the items 1 to 7
      and the options 147, 14, 457, 356, 2367 and `last`, which is 27 in
      the article. */
  function Wikipedia(last: Name): Example {
    Example(["1", "2", "3", "4", "5", "6", "7"], [], ["147", "14", "457", "356", "2367", last])
  }

  /** Every option of the Wikipedia example names declared items. */
  lemma WikipediaDeclared(last: Name)
    requires forall c | c in last :: c in "1234567"
    ensures AllDeclared(Wikipedia(last))
  {
    var ex := Wikipedia(last);
    forall k, c | 0 <= k < |ex.options| && c in ex.options[k] ensures [c] in DeclaredItems(ex) {
      assert c in "1234567";
    }
  }

  /** The options of the Wikipedia example that spell 1, 2, 3 or 5. */
  lemma WikipediaSpelling(last: Name, o: Name)
    requires o in Wikipedia(last).options
    ensures '1' in o ==> o in ["147", "14", last]
    ensures '2' in o ==> o in ["2367", last]
    ensures '3' in o ==> o in ["356", "2367", last]
    ensures '5' in o ==> o in ["457", "356", last]
  {
  }

  /** The options covering 1, 2 and 5 in a solution, which pairwise share
      no 7, 4 or 3: 147 leaves 2 to an option with a 7, so 14 covers 1,
      which leaves 5 to 356 and then 2 to 27. */
  lemma WikipediaChoice(o1: Name, o2: Name, o5: Name)
    requires o1 in Wikipedia("27").options && o2 in Wikipedia("27").options && o5 in Wikipedia("27").options
    requires '1' in o1 && '2' in o2 && '5' in o5
    requires !Share(o1, o2, '7') && !Share(o1, o5, '4') && !Share(o2, o5, '3')
    ensures o1 == "14" && o2 == "27" && o5 == "356"
  {
    WikipediaSpelling("27", o1);
    WikipediaSpelling("27", o2);
    WikipediaSpelling("27", o5);
  }

  /** No option but 14, 356 and 27 avoids a 4 besides 14 and a 2 besides
      27. */
  lemma WikipediaOthers(o: Name)
    requires o in Wikipedia("27").options && !Share(o, "14", '4') && !Share(o, "27", '2')
    ensures o in {"14", "356", "27"}
  {
  }

  /** The only solution of the Wikipedia example is 14, 356 and 27. */
  lemma WikipediaUnique(sel: seq<Name>)
    requires Solves(Wikipedia("27"), sel)
    ensures Enumerates(sel, {"14", "356", "27"})
  {
    var ex := Wikipedia("27");
    assert "1" in ex.requiredItems && "2" in ex.requiredItems && "5" in ex.requiredItems;
    var a := Covered(ex, sel, "1");
    var b := Covered(ex, sel, "2");
    var e := Covered(ex, sel, "5");
    Clash(ex, sel, a, b, '7');
    Clash(ex, sel, a, e, '4');
    Clash(ex, sel, b, e, '3');
    WikipediaChoice(sel[a], sel[b], sel[e]);
    forall k | 0 <= k < |sel| ensures sel[k] in {"14", "356", "27"} {
      Clash(ex, sel, k, a, '4');
      Clash(ex, sel, k, b, '2');
      WikipediaOthers(sel[k]);
    }
    SolutionDistinct(ex, sel);
  }

  /** 14, 356 and 27 solve the Wikipedia example. */
  lemma WikipediaSolved()
    ensures exists sel :: Solves(Wikipedia("27"), sel)
  {
    var sol: seq<Name> := ["14", "356", "27"];
    assert sol[..2] == ["14", "356"] && sol[..2][..1] == ["14"] && sol[..2][..1][..0] == [];
    assert Solves(Wikipedia("27"), sol);
  }

  /** The solver finds 14, 356 and 27 for the Wikipedia example, in some
      order. */
  lemma WikipediaSolution(itemOrder: seq<Name>)
    requires Enumerates(itemOrder, DeclaredItems(Wikipedia("27")))
    ensures var r := SolveBasicExample(Wikipedia("27"), itemOrder);
      r.Some? && r.value.Some? && Enumerates(r.value.value, {"14", "356", "27"})
  {
    WikipediaDeclared("27");
    WikipediaSolved();
    var r := SolveBasicExample(Wikipedia("27"), itemOrder);
    assert r.Some? && r.value.Some?;
    WikipediaUnique(r.value.value);
  }

  /** With 26 for 27, the options covering 1, 2, 3 and 5 always share a
      character: with 147, item 3 needs 2367 (a second 7) or 356, after
      which item 2 needs 2367 or 26 (a second 7 or 6); with 14, item 5
      needs 457 (a second 4) or 356, after which item 2 needs 2367 or 26 (a
      second 3 or 6). */
  lemma VariantChoice(o1: Name, o2: Name, o3: Name, o5: Name)
    requires o1 in Wikipedia("26").options && o2 in Wikipedia("26").options
    requires o3 in Wikipedia("26").options && o5 in Wikipedia("26").options
    requires '1' in o1 && '2' in o2 && '3' in o3 && '5' in o5
    ensures || Share(o1, o3, '7') || Share(o1, o2, '7') || Share(o2, o3, '6')
            || Share(o1, o5, '4') || Share(o2, o5, '3') || Share(o2, o5, '6')
  {
    WikipediaSpelling("26", o1);
    WikipediaSpelling("26", o2);
    WikipediaSpelling("26", o3);
    WikipediaSpelling("26", o5);
  }

  /** The Wikipedia example with 26 for 27 has no solution. */
  lemma VariantUnsolvable(sel: seq<Name>)
    ensures !Solves(Wikipedia("26"), sel)
  {
    var ex := Wikipedia("26");
    if Solves(ex, sel) {
      assert "1" in ex.requiredItems && "2" in ex.requiredItems && "3" in ex.requiredItems && "5" in ex.requiredItems;
      var a := Covered(ex, sel, "1");
      var b := Covered(ex, sel, "2");
      var c := Covered(ex, sel, "3");
      var e := Covered(ex, sel, "5");
      Clash(ex, sel, a, c, '7');
      Clash(ex, sel, a, b, '7');
      Clash(ex, sel, b, c, '6');
      Clash(ex, sel, a, e, '4');
      Clash(ex, sel, b, e, '3');
      Clash(ex, sel, b, e, '6');
      VariantChoice(sel[a], sel[b], sel[c], sel[e]);
    }
  }

  /** The solver finds no selection for the Wikipedia example with 26 for
      27. */
  lemma VariantNoSolution(itemOrder: seq<Name>)
    requires Enumerates(itemOrder, DeclaredItems(Wikipedia("26")))
    ensures SolveBasicExample(Wikipedia("26"), itemOrder) == Some(None)
  {
    WikipediaDeclared("26");
    forall sel ensures !Solves(Wikipedia("26"), sel) {
      VariantUnsolvable(sel);
    }
  }

  /** Knuth's example: the items A to G, the given optional items, and the
      options CEF, ADG, BCF, AD, BG and DEG. */
  function Knuth(optionalItems: seq<Name>): Example {
    Example(["A", "B", "C", "D", "E", "F", "G"], optionalItems, ["CEF", "ADG", "BCF", "AD", "BG", "DEG"])
  }

  /** Every option of Knuth's example names a required item. */
  lemma KnuthDeclared(optionalItems: seq<Name>)
    ensures AllDeclared(Knuth(optionalItems))
  {
    var ex := Knuth(optionalItems);
    forall k, c | 0 <= k < |ex.options| && c in ex.options[k] ensures [c] in DeclaredItems(ex) {
      assert c in "ABCDEFG";
      assert [c] in ex.requiredItems;
    }
  }

  /** The options covering A, B and E in a solution, which pairwise share
      no D, C or G: ADG leaves E to CEF and then B to BCF or BG, each
      clashing, so AD covers A. */
  lemma KnuthFirstChoice(oA: Name, oB: Name, oE: Name)
    requires oA in Knuth([]).options && oB in Knuth([]).options && oE in Knuth([]).options
    requires 'A' in oA && 'B' in oB && 'E' in oE
    requires !Share(oA, oE, 'D') && !Share(oE, oB, 'C') && !Share(oA, oB, 'G')
    ensures oA == "AD"
  {
  }

  /** Next to AD, G is covered by BG and then C by CEF. */
  lemma KnuthRestChoice(oG: Name, oC: Name)
    requires oG in Knuth([]).options && oC in Knuth([]).options
    requires 'G' in oG && 'C' in oC
    requires !Share("AD", oG, 'A') && !Share("AD", oG, 'D') && !Share(oG, oC, 'B')
    ensures oG == "BG" && oC == "CEF"
  {
  }

  /** No option but CEF, AD and BG avoids an A or a D besides AD and a B
      besides BG. */
  lemma KnuthOthers(o: Name)
    requires o in Knuth([]).options && !Share(o, "AD", 'A') && !Share(o, "AD", 'D') && !Share(o, "BG", 'B')
    ensures o in {"CEF", "AD", "BG"}
  {
  }

  /** A solution of Knuth's example selects AD, BG and CEF. */
  lemma KnuthPicks(optionalItems: seq<Name>, sel: seq<Name>) returns (a: nat, g: nat)
    requires Solves(Knuth(optionalItems), sel)
    ensures a < |sel| && g < |sel| && sel[a] == "AD" && sel[g] == "BG" && "CEF" in sel
  {
    var ex := Knuth(optionalItems);
    assert ex.options == Knuth([]).options;
    assert "A" in ex.requiredItems && "B" in ex.requiredItems && "C" in ex.requiredItems;
    assert "E" in ex.requiredItems && "G" in ex.requiredItems;
    a := Covered(ex, sel, "A");
    var b := Covered(ex, sel, "B");
    var e := Covered(ex, sel, "E");
    Clash(ex, sel, a, e, 'D');
    Clash(ex, sel, e, b, 'C');
    Clash(ex, sel, a, b, 'G');
    KnuthFirstChoice(sel[a], sel[b], sel[e]);
    g := Covered(ex, sel, "G");
    var c := Covered(ex, sel, "C");
    Clash(ex, sel, a, g, 'A');
    Clash(ex, sel, a, g, 'D');
    Clash(ex, sel, g, c, 'B');
    KnuthRestChoice(sel[g], sel[c]);
  }

  /** The only solution of Knuth's example is CEF, AD and BG, whatever the
      optional items. */
  lemma KnuthUnique(optionalItems: seq<Name>, sel: seq<Name>)
    requires Solves(Knuth(optionalItems), sel)
    ensures Enumerates(sel, {"CEF", "AD", "BG"})
  {
    var ex := Knuth(optionalItems);
    assert ex.options == Knuth([]).options;
    var a, g := KnuthPicks(optionalItems, sel);
    forall k | 0 <= k < |sel| ensures sel[k] in {"CEF", "AD", "BG"} {
      Clash(ex, sel, k, a, 'A');
      Clash(ex, sel, k, a, 'D');
      Clash(ex, sel, k, g, 'B');
      KnuthOthers(sel[k]);
    }
    SolutionDistinct(ex, sel);
  }

  /** CEF, AD and BG solve Knuth's example. */
  lemma KnuthSolved(optionalItems: seq<Name>)
    ensures exists sel :: Solves(Knuth(optionalItems), sel)
  {
    var sol: seq<Name> := ["CEF", "AD", "BG"];
    assert sol[..2] == ["CEF", "AD"] && sol[..2][..1] == ["CEF"] && sol[..2][..1][..0] == [];
    assert Solves(Knuth(optionalItems), sol);
  }

  /** The solver finds CEF, AD and BG for Knuth's example, in some order,
      whatever the optional items. */
  lemma KnuthSolution(optionalItems: seq<Name>, itemOrder: seq<Name>)
    requires Enumerates(itemOrder, DeclaredItems(Knuth(optionalItems)))
    ensures var r := SolveBasicExample(Knuth(optionalItems), itemOrder);
      r.Some? && r.value.Some? && Enumerates(r.value.value, {"CEF", "AD", "BG"})
  {
    KnuthDeclared(optionalItems);
    KnuthSolved(optionalItems);
    var r := SolveBasicExample(Knuth(optionalItems), itemOrder);
    assert r.Some? && r.value.Some?;
    KnuthUnique(optionalItems, r.value.value);
  }
}
