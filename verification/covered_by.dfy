/**
 * How the encoders fill the `covered_by` map: every option is pushed onto
 * the list of each item it covers.  The Sudoku encoder creates missing
 * lists on the fly (`entry(..).or_insert(Vec::new())`); the N-queens and
 * set-family encoders declare every item first and then use
 * `get_mut(..).unwrap()`, which panics on an undeclared item.
 */
module CoveredBy {
  import opened Wrappers
  import opened ExactCover

  /** One option together with the items it covers, in push order. */
  datatype Placement = Placement(option: Name, items: seq<Name>)

  /** Every item some placement covers. */
  function PlacedItems(ps: seq<Placement>): set<Name> {
    set k, x | 0 <= k < |ps| && x in ps[k].items :: x
  }

  /** Some placement lists `option` under `item`. */
  ghost predicate Placed(ps: seq<Placement>, option: Name, item: Name) {
    exists k | 0 <= k < |ps| :: ps[k].option == option && item in ps[k].items
  }

  /** `covered_by.entry(item).or_insert(Vec::new()).push(option)` for each
      item in turn. */
  function Push(m: map<Name, seq<Name>>, option: Name, items: seq<Name>): (r: map<Name, seq<Name>>)
    ensures r.Keys == m.Keys + Elems(items)
    ensures forall x, o | x in r :: o in r[x] <==> (x in m && o in m[x]) || (o == option && x in items)
    decreases |items|
  {
    if items == [] then m
    else
      var x := items[0];
      ElemsCons(items);
      Push(m[x := (if x in m then m[x] else []) + [option]], option, items[1..])
  }

  lemma PlacedItemsSnoc(ps: seq<Placement>)
    requires ps != []
    ensures PlacedItems(ps) == PlacedItems(ps[..|ps| - 1]) + Elems(ps[|ps| - 1].items)
  {
    var init := ps[..|ps| - 1];
    forall x | x in PlacedItems(ps) ensures x in PlacedItems(init) + Elems(ps[|ps| - 1].items) {
      var k :| 0 <= k < |ps| && x in ps[k].items;
      if k < |init| { assert init[k] == ps[k]; }
    }
    forall x | x in PlacedItems(init) ensures x in PlacedItems(ps) {
      var k :| 0 <= k < |init| && x in init[k].items;
      assert ps[k] == init[k];
    }
  }

  lemma PlacedSnoc(ps: seq<Placement>, o: Name, x: Name)
    requires ps != []
    ensures Placed(ps, o, x) <==>
      Placed(ps[..|ps| - 1], o, x) || (o == ps[|ps| - 1].option && x in ps[|ps| - 1].items)
  {
    var init := ps[..|ps| - 1];
    if Placed(ps, o, x) {
      var k :| 0 <= k < |ps| && ps[k].option == o && x in ps[k].items;
      if k < |init| { assert init[k] == ps[k]; }
    }
    if Placed(init, o, x) {
      var k :| 0 <= k < |init| && init[k].option == o && x in init[k].items;
      assert ps[k] == init[k];
    }
  }

  /** The encoders' option loop with `or_insert`: the placements are pushed
      in order. */
  function PushAll(m: map<Name, seq<Name>>, ps: seq<Placement>): (r: map<Name, seq<Name>>)
    ensures r.Keys == m.Keys + PlacedItems(ps)
    ensures forall x, o | x in r :: o in r[x] <==> (x in m && o in m[x]) || Placed(ps, o, x)
    decreases |ps|
  {
    if ps == [] then m
    else
      var init := ps[..|ps| - 1];
      var last := ps[|ps| - 1];
      PlacedItemsSnoc(ps);
      var r := Push(PushAll(m, init), last.option, last.items);
      assert forall x, o | x in r :: o in r[x] <==> (x in m && o in m[x]) || Placed(ps, o, x) by {
        forall x, o | x in r ensures o in r[x] <==> (x in m && o in m[x]) || Placed(ps, o, x) {
          PlacedSnoc(ps, o, x);
        }
      }
      r
  }

  /** The encoders' option loop with `get_mut(..).unwrap()` on a map whose
      items were all declared first: `None` (the panic) exactly when some
      placement names an undeclared item. */
  function PushExisting(m: map<Name, seq<Name>>, ps: seq<Placement>): (r: Option<map<Name, seq<Name>>>)
    ensures r.Some? <==> PlacedItems(ps) <= m.Keys
    ensures r.Some? ==> r.value.Keys == m.Keys
    ensures r.Some? ==> forall x, o | x in r.value :: o in r.value[x] <==> o in m[x] || Placed(ps, o, x)
  {
    if forall p | p in ps :: forall x | x in p.items :: x in m then
      assert PlacedItems(ps) <= m.Keys by {
        forall x | x in PlacedItems(ps) ensures x in m {
          var k :| 0 <= k < |ps| && x in ps[k].items;
          assert ps[k] in ps;
        }
      }
      Some(PushAll(m, ps))
    else
      assert !(PlacedItems(ps) <= m.Keys) by {
        var p :| p in ps && exists x | x in p.items :: x !in m;
        var x :| x in p.items && x !in m;
        var k :| 0 <= k < |ps| && ps[k] == p;
        assert x in PlacedItems(ps);
      }
      None
  }

  /** A map that declares each of `items` with an empty list, as the
      encoders' `covered_by.insert(item, Vec::new())` loops do. */
  function Declare(m: map<Name, seq<Name>>, items: seq<Name>): (r: map<Name, seq<Name>>)
    ensures r.Keys == m.Keys + Elems(items)
    ensures forall x | x in r :: r[x] == if x in items then [] else m[x]
    decreases |items|
  {
    if items == [] then m
    else
      ElemsCons(items);
      Declare(m[items[0] := []], items[1..])
  }
}
