/**
 * What a selection of options means for an exact-cover problem: how often
 * it covers each item, when it is an exact cover, and the facts about the
 * solver state that tie its bookkeeping to that meaning.  The search
 * (`ExactCoverSearch`) states its soundness and completeness with these.
 */
module ExactCoverSemantics {
  import opened ExactCover

  /** How many options of `sel` cover item `j`. */
  function CoverCount(pb: Problem, sel: seq<Name>, j: Name): (r: nat)
    ensures r <= |sel|
    decreases |sel|
  {
    if sel == [] then 0
    else
      var last := sel[|sel| - 1];
      CoverCount(pb, sel[..|sel| - 1], j) + (if last in pb.covers && j in pb.covers[last] then 1 else 0)
  }

  /** An exact cover: known options that cover every required item exactly
      once and no item twice. */
  ghost predicate IsExactCover(pb: Problem, sol: seq<Name>) {
    && (forall o | o in sol :: o in pb.covers)
    && (forall j :: CoverCount(pb, sol, j) <= 1)
    && (forall j | j in pb.requiredItems :: CoverCount(pb, sol, j) == 1)
  }

  /** What the selection means during the search: no item is covered twice,
      a required item (outside `except`) is queued exactly when no selected
      option covers it, and an item that still has an available option is
      not covered. */
  ghost predicate Covering(pb: WfProblem, s: State, except: set<Name>) {
    && (forall j :: CoverCount(pb, s.selected, j) <= 1)
    && (forall j | j in pb.requiredItems && j !in except ::
          j in s.queue <==> CoverCount(pb, s.selected, j) == 0)
    && (forall j | j in s.available && s.available[j] != {} :: CoverCount(pb, s.selected, j) == 0)
  }

  lemma CoverCountSnoc(pb: Problem, sel: seq<Name>, o: Name, j: Name)
    ensures CoverCount(pb, sel + [o], j) ==
      CoverCount(pb, sel, j) + if o in pb.covers && j in pb.covers[o] then 1 else 0
  {
    assert (sel + [o])[..|sel|] == sel;
  }

  /** Nothing is selected by `new`, so nothing is covered and every
      required item is queued. */
  lemma InitialCovering(pb: WfProblem, s: State)
    requires InitialState(pb, s)
    ensures Covering(pb, s, {})
  {
  }

  /** Selecting an option none of whose items is covered yet keeps the
      meaning of the selection; its items need no exception any more. */
  lemma SelectKeepsCovering(pb: WfProblem, s: State, option: Name, except: set<Name>)
    requires Valid(pb, s) && option in pb.covers && Covering(pb, s, except)
    requires forall i | i in pb.covers[option] :: CoverCount(pb, s.selected, i) == 0
    ensures Covering(pb, SelectOption(pb, s, option).0, except - Elems(pb.covers[option]))
  {
    var s2 := SelectOption(pb, s, option).0;
    SelectOptionRemoves(pb, s, option);
    SelectItemsAvailable(pb, s.(selected := s.selected + [option]), pb.covers[option]);
    forall j ensures CoverCount(pb, s2.selected, j) ==
      CoverCount(pb, s.selected, j) + if j in pb.covers[option] then 1 else 0
    {
      CoverCountSnoc(pb, s.selected, option, j);
    }
    assert forall j | j in s2.available && s2.available[j] != {} ::
      j !in pb.covers[option] && s.available[j] != {};
  }

  /** With the queue empty, the selection is an exact cover. */
  lemma DoneCovering(pb: WfProblem, s: State)
    requires Valid(pb, s) && s.queue.Keys == {}
    ensures Covering(pb, s, {}) ==> IsExactCover(pb, s.selected)
  {
    if Covering(pb, s, {}) {
      assert forall j | j in pb.requiredItems :: CoverCount(pb, s.selected, j) != 0;
      assert forall o | o in s.selected :: o in pb.covers;
    }
  }

  lemma {:induction false} CoverCountConcat(pb: Problem, a: seq<Name>, b: seq<Name>, j: Name)
    ensures CoverCount(pb, a + b, j) == CoverCount(pb, a, j) + CoverCount(pb, b, j)
    decreases |b|
  {
    if b != [] {
      var b' := b[..|b| - 1];
      var last := b[|b| - 1];
      assert a + b == (a + b') + [last];
      assert b == b' + [last];
      CoverCountSnoc(pb, a + b', last, j);
      CoverCountSnoc(pb, b', last, j);
      CoverCountConcat(pb, a, b', j);
    } else {
      assert a + b == a;
    }
  }

  /** An item covered at all is covered by some option of the selection. */
  lemma {:induction false} CoverCountWitness(pb: Problem, sel: seq<Name>, j: Name) returns (k: nat)
    requires CoverCount(pb, sel, j) > 0
    ensures k < |sel| && sel[k] in pb.covers && j in pb.covers[sel[k]]
    decreases |sel|
  {
    var last := sel[|sel| - 1];
    if last in pb.covers && j in pb.covers[last] {
      k := |sel| - 1;
    } else {
      k := CoverCountWitness(pb, sel[..|sel| - 1], j);
    }
  }

  /** Moving one option of `x` to the front keeps every count. */
  lemma MoveToFront(pb: Problem, sel: seq<Name>, x: seq<Name>, k: nat, j: Name)
    requires k < |x|
    ensures CoverCount(pb, sel + [x[k]] + (x[..k] + x[k + 1..]), j) == CoverCount(pb, sel + x, j)
  {
    assert x == x[..k] + [x[k]] + x[k + 1..];
    CoverCountConcat(pb, sel + [x[k]], x[..k] + x[k + 1..], j);
    CoverCountConcat(pb, sel, [x[k]], j);
    CoverCountConcat(pb, x[..k], x[k + 1..], j);
    CoverCountConcat(pb, sel, x, j);
    CoverCountConcat(pb, x[..k] + [x[k]], x[k + 1..], j);
    CoverCountConcat(pb, x[..k], [x[k]], j);
  }

  /** No two of `options` share an item. */
  ghost predicate PairwiseDisjoint(pb: Problem, options: seq<Name>) {
    forall k, m, i | 0 <= k < m < |options| && options[k] in pb.covers && options[m] in pb.covers ::
      !(i in pb.covers[options[k]] && i in pb.covers[options[m]])
  }

  /** No two of `options` share an item, and none of their items is covered
      by `sel`. */
  ghost predicate Untouched(pb: Problem, sel: seq<Name>, options: seq<Name>) {
    && (forall k, i | 0 <= k < |options| && options[k] in pb.covers && i in pb.covers[options[k]] ::
          CoverCount(pb, sel, i) == 0)
    && PairwiseDisjoint(pb, options)
  }

  // ---------------------------------------------------------------------
  // Completeness
  // ---------------------------------------------------------------------

  /** Some exact cover starts with `sel`. */
  ghost predicate Extensible(pb: Problem, sel: seq<Name>) {
    exists x :: IsExactCover(pb, sel + x)
  }

  /** A known option none of whose items `sel` covers. */
  ghost predicate Free(pb: Problem, sel: seq<Name>, p: Name) {
    p in pb.covers && forall i | i in pb.covers[p] :: CoverCount(pb, sel, i) == 0
  }

  /** The available options of an item are exactly the options of its
      `covered_by` list that share no item with the selection. */
  ghost predicate AvailExact(pb: WfProblem, s: State) {
    forall j, p | j in s.available && j in pb.coveredBy ::
      p in s.available[j] <==> p in pb.coveredBy[j] && Free(pb, s.selected, p)
  }

  /** After `new`, nothing is selected and every option is available. */
  lemma InitialAvailExact(pb: WfProblem, s: State)
    requires InitialState(pb, s)
    ensures AvailExact(pb, s)
  {
  }

  /** `select_option` removes exactly the options that share an item with
      the option it selects. */
  lemma SelectKeepsAvailExact(pb: WfProblem, s: State, option: Name)
    requires Valid(pb, s) && option in pb.covers
    ensures AvailExact(pb, s) ==> AvailExact(pb, SelectOption(pb, s, option).0)
  {
    if AvailExact(pb, s) {
      var (s2, removed) := SelectOption(pb, s, option);
      SelectOptionRemoves(pb, s, option);
      SelectItemsAvailable(pb, s.(selected := s.selected + [option]), pb.covers[option]);
      forall i ensures CoverCount(pb, s2.selected, i) ==
        CoverCount(pb, s.selected, i) + if i in pb.covers[option] then 1 else 0
      {
        CoverCountSnoc(pb, s.selected, option, i);
      }
      forall j, p | j in s2.available && j in pb.coveredBy
        ensures p in s2.available[j] <==> p in pb.coveredBy[j] && Free(pb, s2.selected, p)
      {
        FreeAfterSelect(pb, s, option, removed, p);
      }
    }
  }

  lemma FreeAfterSelect(pb: WfProblem, s: State, option: Name, removed: seq<Name>, p: Name)
    requires Valid(pb, s) && option in pb.covers && AvailExact(pb, s)
    requires forall q :: q in removed <==> exists i :: i in pb.covers[option] && q in s.available[i]
    requires forall i | i in pb.covers[option] :: i in s.available
    ensures Free(pb, s.selected + [option], p) <==> Free(pb, s.selected, p) && p !in removed
  {
    forall i ensures CoverCount(pb, s.selected + [option], i) ==
      CoverCount(pb, s.selected, i) + if i in pb.covers[option] then 1 else 0
    {
      CoverCountSnoc(pb, s.selected, option, i);
    }
    if Free(pb, s.selected, p) {
      if p in removed {
        var i :| i in pb.covers[option] && p in s.available[i];
        assert i in pb.covers[p];
      }

    }
  }

  /** When an exact cover extends the selection, one of the available
      options of any queued item extends it further. */
  lemma ExtendThroughItem(pb: WfProblem, s: State, item: Name)
    requires Valid(pb, s) && item in s.queue
    ensures Covering(pb, s, {}) && AvailExact(pb, s) && Extensible(pb, s.selected) ==>
      exists p | p in s.available[item] :: Extensible(pb, s.selected + [p])
  {
    if Covering(pb, s, {}) && AvailExact(pb, s) && Extensible(pb, s.selected) {
      var x :| IsExactCover(pb, s.selected + x);
      CoverCountConcat(pb, s.selected, x, item);
      var k := CoverCountWitness(pb, x, item);
      FreeInCover(pb, s.selected, x, k);
      ExtendByOne(pb, s.selected, x, k);
      assert x[k] in pb.coveredBy[item];
      assert x[k] in s.available[item];
    }
  }

  /** An option of an exact cover's extension shares no item with the
      selection it extends. */
  lemma FreeInCover(pb: Problem, sel: seq<Name>, x: seq<Name>, k: nat)
    requires IsExactCover(pb, sel + x) && k < |x|
    ensures Free(pb, sel, x[k])
  {
    assert x[k] in sel + x;
    forall i | i in pb.covers[x[k]] ensures CoverCount(pb, sel, i) == 0 {
      CoverCountConcat(pb, sel, x, i);
      CoverCountPositive(pb, x, k, i);
    }
  }

  /** Moving an option of the extension into the selection keeps an exact
      cover. */
  lemma ExtendByOne(pb: Problem, sel: seq<Name>, x: seq<Name>, k: nat)
    requires IsExactCover(pb, sel + x) && k < |x|
    ensures Extensible(pb, sel + [x[k]])
  {
    var rest := x[..k] + x[k + 1..];
    forall j ensures CoverCount(pb, sel + [x[k]] + rest, j) == CoverCount(pb, sel + x, j) {
      MoveToFront(pb, sel, x, k, j);
    }
    assert forall o | o in sel + [x[k]] + rest :: o in sel + x;
    assert IsExactCover(pb, sel + [x[k]] + rest);
  }

  /** An item covered by one option of the selection has a positive count. */
  lemma CoverCountPositive(pb: Problem, x: seq<Name>, k: nat, i: Name)
    requires k < |x| && x[k] in pb.covers && i in pb.covers[x[k]]
    ensures CoverCount(pb, x, i) > 0
  {
    assert x == x[..k] + [x[k]] + x[k + 1..];
    CoverCountConcat(pb, x[..k] + [x[k]], x[k + 1..], i);
    CoverCountSnoc(pb, x[..k], x[k], i);
  }

  /** Two positions of the selection that cover the same item make it
      covered twice. */
  lemma CoverCountTwo(pb: Problem, x: seq<Name>, k: nat, m: nat, i: Name)
    requires k < m < |x|
    requires x[k] in pb.covers && i in pb.covers[x[k]]
    requires x[m] in pb.covers && i in pb.covers[x[m]]
    ensures CoverCount(pb, x, i) >= 2
  {
    var a := x[..m];
    assert x == a + [x[m]] + x[m + 1..];
    CoverCountConcat(pb, a + [x[m]], x[m + 1..], i);
    CoverCountSnoc(pb, a, x[m], i);
    assert a[k] == x[k];
    CoverCountPositive(pb, a, k, i);
  }

  /** An item covered twice is covered by two positions of the
      selection. */
  lemma {:induction false} CoverCountPair(pb: Problem, sel: seq<Name>, j: Name) returns (k: nat, m: nat)
    requires CoverCount(pb, sel, j) >= 2
    ensures k < m < |sel|
    ensures sel[k] in pb.covers && j in pb.covers[sel[k]]
    ensures sel[m] in pb.covers && j in pb.covers[sel[m]]
    decreases |sel|
  {
    var init := sel[..|sel| - 1];
    var last := sel[|sel| - 1];
    if last in pb.covers && j in pb.covers[last] {
      k := CoverCountWitness(pb, init, j);
      m := |sel| - 1;
      assert init[k] == sel[k];
    } else {
      k, m := CoverCountPair(pb, init, j);
      assert init[k] == sel[k] && init[m] == sel[m];
    }
  }
}
