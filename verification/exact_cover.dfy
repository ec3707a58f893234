/**
 * The bookkeeping of the set-based Algorithm X solver: the problem
 * (`covered_by`, its inverse `covers`, the required items and options),
 * the mutable search state (available options per item, the queue of
 * uncovered required items, the selected options) and the reversible
 * edits `select_option` / `unselect_option` with their helpers.
 *
 * The source keeps the search state in `RefCell`s and mutates it; here
 * every edit is a pure function from state to state.  Hash-map and
 * hash-set iteration orders are unspecified in the source; the model fixes
 * them through two orders stored in the problem: `itemOrder` (the order in
 * which `covered_by` is traversed) and `optionOrder` (every option, in the
 * order the inverse map first met it).  Iterating a hash set of options is
 * modelled as walking `optionOrder` and keeping the members of the set.
 */
module ExactCover {
  import opened Wrappers

  type Name = string

  /** The panics of the source (an `unwrap` on a missing key), as values. */
  datatype Error =
    | UnknownRequiredItem(item: Name)
    | UnknownRequiredOption(option: Name)

  datatype Problem = Problem(
    /** item -> the options that cover it */
    coveredBy: map<Name, seq<Name>>,
    /** option -> the items it covers */
    covers: map<Name, seq<Name>>,
    requiredItems: set<Name>,
    /** the required options, each once, in the order they are selected */
    requiredOptions: seq<Name>,
    /** the traversal order of the keys of coveredBy */
    itemOrder: seq<Name>,
    /** every option, in the order the construction of covers met it */
    optionOrder: seq<Name>)

  datatype State = State(
    /** item -> the options still available for it */
    available: map<Name, set<Name>>,
    /** the priority queue: uncovered required item -> priority */
    queue: map<Name, int>,
    selected: seq<Name>)

  // ---------------------------------------------------------------------
  // Sequences as sets
  // ---------------------------------------------------------------------

  predicate Distinct<T(==)>(s: seq<T>) {
    forall i, j | 0 <= i < j < |s| :: s[i] != s[j]
  }

  function Elems<T>(s: seq<T>): set<T> {
    set x | x in s
  }

  /** `s` lists every element of `xs` exactly once and nothing else. */
  predicate Enumerates<T(==)>(s: seq<T>, xs: set<T>) {
    Distinct(s) && Elems(s) == xs
  }

  /** A sequence with no elements is empty. */
  lemma NoElems<T>(s: seq<T>)
    ensures Elems(s) == {} ==> s == []
  {
    if s != [] {
      assert s[0] in Elems(s);
    }
  }

  lemma ElemsCons<T>(s: seq<T>)
    requires s != []
    ensures Elems(s) == {s[0]} + Elems(s[1..])
  {
    assert s == [s[0]] + s[1..];
  }

  lemma ElemsConcat<T>(a: seq<T>, b: seq<T>)
    ensures Elems(a + b) == Elems(a) + Elems(b)
  {
    forall x | x in Elems(a) ensures x in Elems(a + b) {
      var k :| 0 <= k < |a| && a[k] == x;
      assert (a + b)[k] == x;
    }
    forall x | x in Elems(b) ensures x in Elems(a + b) {
      var k :| 0 <= k < |b| && b[k] == x;
      assert (a + b)[|a| + k] == x;
    }
  }

  lemma DistinctConcat<T>(a: seq<T>, b: seq<T>)
    requires Distinct(a) && Distinct(b) && Elems(a) * Elems(b) == {}
    ensures Distinct(a + b)
  {
    forall x, y | 0 <= x < y < |a + b| ensures (a + b)[x] != (a + b)[y] {
      if y < |a| {
        assert (a + b)[x] == a[x] && (a + b)[y] == a[y];
        assert a[x] != a[y];
      } else if x >= |a| {
        assert (a + b)[x] == b[x - |a|] && (a + b)[y] == b[y - |a|];
        assert b[x - |a|] != b[y - |a|];
      } else {
        var u, v := a[x], b[y - |a|];
        assert u in Elems(a) && v in Elems(b);
        assert u !in Elems(a) * Elems(b);
        assert (a + b)[x] == u && (a + b)[y] == v;
      }
    }
  }

  /** The distinct elements of `s` in order of first occurrence: how the
      source's `HashSet::from_iter` of a vector is iterated. */
  function Dedup(s: seq<Name>): (r: seq<Name>)
    ensures Distinct(r)
    ensures Elems(r) == Elems(s)
  {
    if s == [] then []
    else
      var rest := Dedup(s[..|s| - 1]);
      assert Elems(s) == Elems(s[..|s| - 1]) + {s[|s| - 1]} by {
        assert s == s[..|s| - 1] + [s[|s| - 1]];
      }
      if s[|s| - 1] in rest then rest else rest + [s[|s| - 1]]
  }

  /** The first element of `xs` outside `known`, if any. */
  function FirstMissing(known: set<Name>, xs: seq<Name>): (r: Option<Name>)
    ensures r.None? <==> forall x | x in xs :: x in known
    ensures r.Some? ==>
      exists k | 0 <= k < |xs| ::
        && xs[k] == r.value && xs[k] !in known
        && forall m | 0 <= m < k :: xs[m] in known
    decreases |xs|
  {
    if xs == [] then None
    else if xs[0] !in known then Some(xs[0])
    else
      var r := FirstMissing(known, xs[1..]);
      assert r.Some? ==> exists k | 0 <= k < |xs| ::
        && xs[k] == r.value && xs[k] !in known
        && forall m | 0 <= m < k :: xs[m] in known
      by {
        if r.Some? {
          var k :| 0 <= k < |xs[1..]| && xs[1..][k] == r.value && xs[1..][k] !in known
            && forall m | 0 <= m < k :: xs[1..][m] in known;
          assert forall m | 0 <= m < k + 1 :: xs[m] in known by {
            forall m | 0 <= m < k + 1 ensures xs[m] in known {
              if m > 0 { assert xs[m] == xs[1..][m - 1]; }
            }
          }
          assert xs[k + 1] == xs[1..][k];
        }
      }
      r
  }

  /** The members of `xs` in the order of `order`. */
  function Filter(order: seq<Name>, xs: set<Name>): (r: seq<Name>)
    ensures Elems(r) == Elems(order) * xs
    ensures Distinct(order) ==> Distinct(r)
  {
    if order == [] then []
    else
      var rest := Filter(order[..|order| - 1], xs);
      var last := order[|order| - 1];
      assert order == order[..|order| - 1] + [last];
      assert Elems(order) == Elems(order[..|order| - 1]) + {last};
      if last in xs then
        assert Elems(rest + [last]) == Elems(rest) + {last};
        rest + [last]
      else rest
  }

  // ---------------------------------------------------------------------
  // The problem
  // ---------------------------------------------------------------------

  /** `covers` is the exact inverse of `coveredBy`. */
  ghost predicate Inverse(coveredBy: map<Name, seq<Name>>, covers: map<Name, seq<Name>>) {
    && (forall o, i | o in covers && i in covers[o] :: i in coveredBy && o in coveredBy[i])
    && (forall i, o | i in coveredBy && o in coveredBy[i] :: o in covers && i in covers[o])
  }

  /** An option listed under an item covers it. */
  lemma InverseListed(coveredBy: map<Name, seq<Name>>, covers: map<Name, seq<Name>>, i: Name, o: Name)
    requires Inverse(coveredBy, covers) && i in coveredBy && o in coveredBy[i]
    ensures o in covers && i in covers[o]
  {
  }

  ghost predicate WellFormed(pb: Problem) {
    && Enumerates(pb.itemOrder, pb.coveredBy.Keys)
    && Enumerates(pb.optionOrder, pb.covers.Keys)
    && Inverse(pb.coveredBy, pb.covers)
    && pb.requiredItems <= pb.coveredBy.Keys
    && Distinct(pb.requiredOptions)
  }

  /** A problem as `new` builds it. */
  type WfProblem = pb: Problem | WellFormed(pb) witness Problem(map[], map[], {}, [], [], [])

  /** One pass of the inner loop that builds `covers`: `item` is appended to
      the list of every option in `options`; an option seen for the first
      time gets a fresh list and joins the option order. */
  function InsertItem(covers: map<Name, seq<Name>>, order: seq<Name>, item: Name, options: seq<Name>)
    : (r: (map<Name, seq<Name>>, seq<Name>))
    requires Enumerates(order, covers.Keys)
    ensures Enumerates(r.1, r.0.Keys)
    ensures r.0.Keys == covers.Keys + Elems(options)
    ensures forall o, j | o in r.0 :: j in r.0[o] <==> (o in covers && j in covers[o]) || (j == item && o in options)
    decreases |options|
  {
    if options == [] then (covers, order)
    else
      var prefix := options[..|options| - 1];
      var o := options[|options| - 1];
      assert options == prefix + [o];
      var (c, ord) := InsertItem(covers, order, item, prefix);
      var c' := if o in c then c[o := c[o] + [item]] else c[o := [item]];
      InsertOne(c, item, o);
      InsertStep(covers, c, c', item, prefix, o);
      if o in c then (c', ord)
      else
        EnumeratesSnoc(ord, c.Keys, o);
        (c', ord + [o])
  }

  /** The pairs after one more option of `options` is handled: those
      before, and (`o`, `item`). */
  lemma InsertStep(covers: map<Name, seq<Name>>, c: map<Name, seq<Name>>, c': map<Name, seq<Name>>,
                   item: Name, prefix: seq<Name>, o: Name)
    requires c.Keys == covers.Keys + Elems(prefix)
    requires forall p, j | p in c :: j in c[p] <==> (p in covers && j in covers[p]) || (j == item && p in prefix)
    requires c'.Keys == c.Keys + {o}
    requires forall p, j | p in c' :: j in c'[p] <==> (p in c && j in c[p]) || (j == item && p == o)
    ensures c'.Keys == covers.Keys + Elems(prefix + [o])
    ensures forall p, j | p in c' :: j in c'[p] <==> (p in covers && j in covers[p]) || (j == item && p in prefix + [o])
  {
    assert forall p :: p in prefix + [o] <==> p in prefix || p == o;
    assert Elems(prefix + [o]) == Elems(prefix) + {o};
  }

  /** An enumeration extended by a new element enumerates one more. */
  lemma EnumeratesSnoc<T>(s: seq<T>, xs: set<T>, x: T)
    requires Enumerates(s, xs) && x !in xs
    ensures Enumerates(s + [x], xs + {x})
  {
    assert Elems(s + [x]) == Elems(s) + {x};
    assert forall k | 0 <= k < |s| :: s[k] in Elems(s);
  }

  /** Appending `item` to the list of `o` (a fresh list if `o` has none)
      adds exactly the pair (`o`, `item`). */
  lemma InsertOne(c: map<Name, seq<Name>>, item: Name, o: Name)
    ensures var c' := if o in c then c[o := c[o] + [item]] else c[o := [item]];
      && c'.Keys == c.Keys + {o}
      && forall p, j | p in c' :: j in c'[p] <==> (p in c && j in c[p]) || (j == item && p == o)
  {
  }

  /** The loop of `new` that builds `covers` from `covered_by`, visiting the
      items in the order `items`. */
  function Invert(coveredBy: map<Name, seq<Name>>, items: seq<Name>): (r: (map<Name, seq<Name>>, seq<Name>))
    requires forall i | i in items :: i in coveredBy
    ensures Enumerates(r.1, r.0.Keys)
    ensures forall o, j | o in r.0 :: j in r.0[o] <==> j in items && o in coveredBy[j]
    ensures forall j, o | j in items && o in coveredBy[j] :: o in r.0
    decreases |items|
  {
    if items == [] then (map[], [])
    else
      var prefix := items[..|items| - 1];
      var last := items[|items| - 1];
      assert items == prefix + [last];
      var (c, ord) := Invert(coveredBy, prefix);
      InsertItem(c, ord, last, coveredBy[last])
  }

  /** The queue built by `new`: every required item, with priority minus the
      LENGTH of its `covered_by` list; the first required item missing from
      `covered_by` makes `unwrap` panic. */
  function InitialQueue(coveredBy: map<Name, seq<Name>>, required: seq<Name>): (r: Result<map<Name, int>, Error>)
    ensures r.Success? <==> forall i | i in required :: i in coveredBy
    ensures r.Failure? ==>
      exists k | 0 <= k < |required| ::
        && required[k] !in coveredBy
        && r.error == UnknownRequiredItem(required[k])
        && forall m | 0 <= m < k :: required[m] in coveredBy
    ensures r.Success? ==> r.value.Keys == Elems(required)
    ensures r.Success? ==> forall i | i in r.value :: i in coveredBy && r.value[i] == -|coveredBy[i]|
  {
    match FirstMissing(coveredBy.Keys, required)
    case Some(i) => Failure(UnknownRequiredItem(i))
    case None => Success(map i | i in Elems(required) :: -|coveredBy[i]|)
  }

  /** Every option of `covers` is listed under some item. */
  ghost predicate Listed(coveredBy: map<Name, seq<Name>>, covers: map<Name, seq<Name>>) {
    forall o | o in covers :: exists i | i in coveredBy :: o in coveredBy[i]
  }

  /** Inverting lists no option that no item lists. */
  lemma {:induction false} InvertListed(coveredBy: map<Name, seq<Name>>, items: seq<Name>)
    requires forall i | i in items :: i in coveredBy
    ensures Listed(coveredBy, Invert(coveredBy, items).0)
    decreases |items|
  {
    if items != [] {
      var prefix := items[..|items| - 1];
      var last := items[|items| - 1];
      assert items == prefix + [last];
      InvertListed(coveredBy, prefix);
      var (c, ord) := Invert(coveredBy, prefix);
      var r := InsertItem(c, ord, last, coveredBy[last]);
      forall o | o in r.0 ensures exists i | i in coveredBy :: o in coveredBy[i] {
        if o !in c {
          assert o in Elems(coveredBy[last]);
        }
      }
    }
  }

  /** A map that lists each item of `coveredBy` under exactly the options
      that list it is the inverse of `coveredBy`. */
  lemma InverseOf(coveredBy: map<Name, seq<Name>>, items: seq<Name>, c: map<Name, seq<Name>>)
    requires forall i :: i in items <==> i in coveredBy
    requires forall o, j | o in c :: j in c[o] <==> j in items && o in coveredBy[j]
    requires forall j, o | j in items && o in coveredBy[j] :: o in c
    ensures Inverse(coveredBy, c)
  {
  }

  /** Inverting a map along an enumeration of its keys gives its inverse. */
  lemma InvertInverse(coveredBy: map<Name, seq<Name>>, itemOrder: seq<Name>)
    requires Enumerates(itemOrder, coveredBy.Keys)
    ensures Inverse(coveredBy, Invert(coveredBy, itemOrder).0)
  {
    assert forall i :: i in itemOrder <==> i in Elems(itemOrder);
    var r := Invert(coveredBy, itemOrder);
    InverseOf(coveredBy, itemOrder, r.0);
  }

  /** The state `new` leaves behind: every item's available options are
      those of its `covered_by` list, the queue holds exactly the required
      items, nothing is selected. */
  ghost predicate InitialState(pb: WfProblem, s: State) {
    && s.available.Keys == pb.coveredBy.Keys
    && (forall i | i in s.available :: s.available[i] == Elems(pb.coveredBy[i]))
    && s.queue.Keys == pb.requiredItems
    && (forall i | i in s.queue :: i in pb.coveredBy && s.queue[i] == -|pb.coveredBy[i]|)
    && s.selected == []
  }

  /** `ExactCoverProblem::new`.  `itemOrder` is the traversal order of the
      `covered_by` hash map. */
  function New(requiredItems: seq<Name>, requiredOptions: seq<Name>, coveredBy: map<Name, seq<Name>>, itemOrder: seq<Name>)
    : (r: Result<(WfProblem, State), Error>)
    requires Enumerates(itemOrder, coveredBy.Keys)
    ensures r.Success? <==> forall i | i in requiredItems :: i in coveredBy
    ensures r.Failure? ==>
      exists k | 0 <= k < |requiredItems| ::
        && requiredItems[k] !in coveredBy
        && r.error == UnknownRequiredItem(requiredItems[k])
        && forall m | 0 <= m < k :: requiredItems[m] in coveredBy
    ensures r.Success? ==>
      && r.value.0.coveredBy == coveredBy
      && r.value.0.requiredItems == Elems(requiredItems)
      && Elems(r.value.0.requiredOptions) == Elems(requiredOptions)
      && InitialState(r.value.0, r.value.1)
    ensures r.Success? ==> Listed(coveredBy, r.value.0.covers)
  {
    var (covers, optionOrder) := Invert(coveredBy, itemOrder);
    InvertListed(coveredBy, itemOrder);
    InvertInverse(coveredBy, itemOrder);
    var available := map i | i in coveredBy :: Elems(coveredBy[i]);
    match InitialQueue(coveredBy, requiredItems)
    case Failure(e) => Failure(e)
    case Success(queue) =>
      assert Elems(requiredItems) <= coveredBy.Keys;
      var pb := Problem(coveredBy, covers, Elems(requiredItems), Dedup(requiredOptions), itemOrder, optionOrder);
      Success((pb, State(available, queue, [])))
  }

  // ---------------------------------------------------------------------
  // State invariants
  // ---------------------------------------------------------------------

  /** The bookkeeping invariant every edit keeps: the available options of
      an item come from its `covered_by` list, queued items are required,
      selected options are known options. */
  ghost predicate Valid(pb: WfProblem, s: State) {
    && s.available.Keys == pb.coveredBy.Keys
    && (forall i, o | i in s.available && o in s.available[i] :: o in pb.coveredBy[i])
    && s.queue.Keys <= pb.requiredItems
    && (forall k | 0 <= k < |s.selected| :: s.selected[k] in pb.covers)
  }

  /** An option is available for every item it covers or for none of them. */
  ghost predicate Uniform(pb: WfProblem, s: State)
    requires Valid(pb, s)
  {
    forall o | o in pb.covers :: AllOrNone(pb, s, o)
  }

  ghost predicate AllOrNone(pb: WfProblem, s: State, o: Name)
    requires Valid(pb, s) && o in pb.covers
  {
    || (forall i | i in pb.covers[o] :: o in s.available[i])
    || (forall i | i in pb.covers[o] :: o !in s.available[i])
  }

  /** Every queued item's priority is minus its number of available options. */
  ghost predicate PrioritiesExact(s: State) {
    forall i | i in s.queue :: i in s.available && s.queue[i] == -|s.available[i]|
  }

  /** `new` leaves a valid, uniform state. */
  lemma InitialStateValid(pb: WfProblem, s: State)
    requires InitialState(pb, s)
    ensures Valid(pb, s) && Uniform(pb, s)
  {
  }

  /** The initial priorities count list entries, so they are exact exactly
      when no `covered_by` list of a required item repeats an option. */
  lemma InitialPrioritiesExact(pb: WfProblem, s: State)
    requires InitialState(pb, s)
    ensures PrioritiesExact(s) <==> forall i | i in pb.requiredItems :: Distinct(pb.coveredBy[i])
  {
    forall i | i in pb.requiredItems
      ensures |Elems(pb.coveredBy[i])| == |pb.coveredBy[i]| <==> Distinct(pb.coveredBy[i])
    {
      DistinctIffCard(pb.coveredBy[i]);
    }
  }

  /** A sequence has as many elements as it has distinct values exactly when
      it repeats none. */
  lemma {:induction false} DistinctIffCard<T>(s: seq<T>)
    ensures |Elems(s)| <= |s|
    ensures |Elems(s)| == |s| <==> Distinct(s)
  {
    if s == [] {
    } else {
      var p := s[..|s| - 1];
      var x := s[|s| - 1];
      assert s == p + [x];
      assert Elems(s) == Elems(p) + {x};
      DistinctIffCard(p);
      if x in p {
        var k :| 0 <= k < |p| && p[k] == x;
        assert s[k] == s[|s| - 1];
        assert !Distinct(s);
        assert Elems(s) == Elems(p);
      } else {
        assert |Elems(s)| == |Elems(p)| + 1;
        if Distinct(p) {
          assert Distinct(s);
        } else {
          assert !Distinct(s);
        }
      }
    }
  }

  // ---------------------------------------------------------------------
  // The queue edits
  // ---------------------------------------------------------------------

  /** `update_priority`: a queued item gets minus its number of available
      options; an item not in the queue stays out of it. */
  function UpdatePriority(s: State, item: Name): (r: State)
    requires item in s.available
    ensures r.available == s.available && r.selected == s.selected
    ensures r.queue.Keys == s.queue.Keys
    ensures item in r.queue ==> r.queue[item] == -|s.available[item]|
    ensures forall j | j in r.queue && j != item :: r.queue[j] == s.queue[j]
    ensures PrioritiesExact(s) ==> PrioritiesExact(r)
  {
    if item in s.queue then s.(queue := s.queue[item := -|s.available[item]|]) else s
  }

  /** `remove_item`: the item leaves the queue. */
  function RemoveItem(s: State, item: Name): (r: State)
    ensures r.available == s.available && r.selected == s.selected
    ensures r.queue.Keys == s.queue.Keys - {item}
    ensures forall j | j in r.queue :: r.queue[j] == s.queue[j]
    ensures PrioritiesExact(s) ==> PrioritiesExact(r)
  {
    s.(queue := s.queue - {item})
  }

  /** `return_item`: the item is pushed (or re-prioritised) with minus its
      number of available options. */
  function ReturnItem(s: State, item: Name): (r: State)
    requires item in s.available
    ensures r.available == s.available && r.selected == s.selected
    ensures r.queue.Keys == s.queue.Keys + {item}
    ensures r.queue[item] == -|s.available[item]|
    ensures forall j | j in r.queue && j != item :: r.queue[j] == s.queue[j]
    ensures PrioritiesExact(s) ==> PrioritiesExact(r)
  {
    s.(queue := s.queue[item := -|s.available[item]|])
  }

  // ---------------------------------------------------------------------
  // remove_option / return_option
  // ---------------------------------------------------------------------

  /** One step of the loop: the option leaves the item's available set and a
      required item is re-prioritised. */
  function RemoveOptionAt(pb: WfProblem, s: State, option: Name, item: Name): (r: State)
    requires item in s.available
    ensures r.available == s.available[item := s.available[item] - {option}]
    ensures r.queue.Keys == s.queue.Keys && r.selected == s.selected
    ensures forall j | j in r.queue ::
      r.queue[j] == if j == item && item in pb.requiredItems then -|r.available[item]| else s.queue[j]
  {
    var s1 := s.(available := s.available[item := s.available[item] - {option}]);
    if item in pb.requiredItems then UpdatePriority(s1, item) else s1
  }

  /** The loop of `remove_option` over the items `items`: the option leaves
      their available sets, and each required one is re-prioritised. */
  function RemoveOptionFrom(pb: WfProblem, s: State, option: Name, items: seq<Name>): (r: State)
    requires forall i | i in items :: i in s.available
    ensures r.available.Keys == s.available.Keys && r.queue.Keys == s.queue.Keys && r.selected == s.selected
    ensures forall j | j in s.available ::
      r.available[j] == if j in items then s.available[j] - {option} else s.available[j]
    ensures forall j | j in r.queue ::
      r.queue[j] == if j in items && j in pb.requiredItems then -|r.available[j]| else s.queue[j]
    decreases |items|
  {
    if items == [] then s
    else RemoveOptionFrom(pb, RemoveOptionAt(pb, s, option, items[0]), option, items[1..])
  }

  /** One step of the loop: the option joins the item's available set and a
      required item is re-prioritised. */
  function ReturnOptionAt(pb: WfProblem, s: State, option: Name, item: Name): (r: State)
    requires item in s.available
    ensures r.available == s.available[item := s.available[item] + {option}]
    ensures r.queue.Keys == s.queue.Keys && r.selected == s.selected
    ensures forall j | j in r.queue ::
      r.queue[j] == if j == item && item in pb.requiredItems then -|r.available[item]| else s.queue[j]
  {
    var s1 := s.(available := s.available[item := s.available[item] + {option}]);
    if item in pb.requiredItems then UpdatePriority(s1, item) else s1
  }

  /** The loop of `return_option` over the items `items`. */
  function ReturnOptionTo(pb: WfProblem, s: State, option: Name, items: seq<Name>): (r: State)
    requires forall i | i in items :: i in s.available
    ensures r.available.Keys == s.available.Keys && r.queue.Keys == s.queue.Keys && r.selected == s.selected
    ensures forall j | j in s.available ::
      r.available[j] == if j in items then s.available[j] + {option} else s.available[j]
    ensures forall j | j in r.queue ::
      r.queue[j] == if j in items && j in pb.requiredItems then -|r.available[j]| else s.queue[j]
    decreases |items|
  {
    if items == [] then s
    else ReturnOptionTo(pb, ReturnOptionAt(pb, s, option, items[0]), option, items[1..])
  }

  /** `remove_option`: only the available sets and priorities of the items
      the option covers change. */
  function RemoveOption(pb: WfProblem, s: State, option: Name): (r: State)
    requires option in pb.covers
    requires forall i | i in pb.covers[option] :: i in s.available
    ensures r.available.Keys == s.available.Keys && r.queue.Keys == s.queue.Keys && r.selected == s.selected
    ensures forall j | j in s.available ::
      r.available[j] == if j in pb.covers[option] then s.available[j] - {option} else s.available[j]
    ensures forall j | j in r.queue ::
      r.queue[j] == if j in pb.covers[option] && j in pb.requiredItems then -|r.available[j]| else s.queue[j]
  {
    RemoveOptionFrom(pb, s, option, pb.covers[option])
  }

  /** `return_option`: only the available sets and priorities of the items
      the option covers change. */
  function ReturnOption(pb: WfProblem, s: State, option: Name): (r: State)
    requires option in pb.covers
    requires forall i | i in pb.covers[option] :: i in s.available
    ensures r.available.Keys == s.available.Keys && r.queue.Keys == s.queue.Keys && r.selected == s.selected
    ensures forall j | j in s.available ::
      r.available[j] == if j in pb.covers[option] then s.available[j] + {option} else s.available[j]
    ensures forall j | j in r.queue ::
      r.queue[j] == if j in pb.covers[option] && j in pb.requiredItems then -|r.available[j]| else s.queue[j]
  {
    ReturnOptionTo(pb, s, option, pb.covers[option])
  }

  // ---------------------------------------------------------------------
  // select_option / unselect_option
  // ---------------------------------------------------------------------

  /** What the edits below need in order not to panic: every item has an
      entry in the available map. */
  ghost predicate Fits(pb: WfProblem, s: State) {
    s.available.Keys == pb.coveredBy.Keys
  }

  /** The inner loop of `select_option` for one item: each option of the
      item's snapshot is removed in turn. */
  function RemoveOptions(pb: WfProblem, s: State, options: seq<Name>): (r: State)
    requires Fits(pb, s)
    requires forall p | p in options :: p in pb.covers
    ensures r.available.Keys == s.available.Keys && r.queue.Keys == s.queue.Keys && r.selected == s.selected
    decreases |options|
  {
    if options == [] then s
    else RemoveOptions(pb, RemoveOption(pb, s, options[0]), options[1..])
  }

  /** A snapshot taken along the option order holds only options. */
  lemma FilterOptions(pb: WfProblem, xs: set<Name>)
    ensures forall p | p in Filter(pb.optionOrder, xs) :: p in pb.covers
  {
    var r := Filter(pb.optionOrder, xs);
    assert forall p | p in r :: p in Elems(r);
  }

  /** The outer loop of `select_option`: each item leaves the queue and
      every option still available for it is removed; the removed options
      are collected in the order they were removed. */
  function SelectItems(pb: WfProblem, s: State, items: seq<Name>): (r: (State, seq<Name>))
    requires Fits(pb, s)
    requires forall i | i in items :: i in pb.coveredBy
    ensures r.0.available.Keys == s.available.Keys && r.0.selected == s.selected
    ensures r.0.queue.Keys == s.queue.Keys - Elems(items)
    decreases |items|
  {
    if items == [] then (s, [])
    else
      var i := items[0];
      var s1 := RemoveItem(s, i);
      var batch := Filter(pb.optionOrder, s1.available[i]);
      FilterOptions(pb, s1.available[i]);
      var s2 := RemoveOptions(pb, s1, batch);
      var (s3, rest) := SelectItems(pb, s2, items[1..]);
      ElemsCons(items);
      (s3, batch + rest)
  }

  /** `select_option`: the option is appended to the selection and its items
      are taken out of the search (see `SelectOptionRemoves`). */
  function SelectOption(pb: WfProblem, s: State, option: Name): (r: (State, seq<Name>))
    requires Fits(pb, s) && option in pb.covers
    ensures r.0.available.Keys == s.available.Keys
    ensures r.0.selected == s.selected + [option]
    ensures r.0.queue.Keys == s.queue.Keys - Elems(pb.covers[option])
  {
    SelectItems(pb, s.(selected := s.selected + [option]), pb.covers[option])
  }

  /** The inner loop of `unselect_option` for one item: every option of the
      item's `covered_by` list that was removed is returned. */
  function ReturnRemoved(pb: WfProblem, s: State, options: seq<Name>, removed: set<Name>): (r: State)
    requires Fits(pb, s)
    requires forall p | p in options :: p in pb.covers
    ensures r.available.Keys == s.available.Keys && r.queue.Keys == s.queue.Keys && r.selected == s.selected
    decreases |options|
  {
    if options == [] then s
    else if options[0] in removed then
      ReturnRemoved(pb, ReturnOption(pb, s, options[0]), options[1..], removed)
    else ReturnRemoved(pb, s, options[1..], removed)
  }

  /** The outer loop of `unselect_option`: for each item, the removed
      options it lists come back and a required item returns to the queue. */
  function UnselectItems(pb: WfProblem, s: State, items: seq<Name>, removed: set<Name>): (r: State)
    requires Fits(pb, s)
    requires forall i | i in items :: i in pb.coveredBy
    ensures r.available.Keys == s.available.Keys && r.selected == s.selected
    ensures r.queue.Keys == s.queue.Keys + (Elems(items) * pb.requiredItems)
    decreases |items|
  {
    if items == [] then s
    else
      var i := items[0];
      ElemsCons(items);
      var s1 := ReturnRemoved(pb, s, pb.coveredBy[i], removed);
      var s2 := if i in pb.requiredItems then ReturnItem(s1, i) else s1;
      UnselectItems(pb, s2, items[1..], removed)
  }

  /** `unselect_option`: the removed options come back, the option's
      required items return to the queue, and the last selection is popped
      (popping an empty selection does nothing). */
  function UnselectOption(pb: WfProblem, s: State, option: Name, removed: seq<Name>): (r: State)
    requires Fits(pb, s) && option in pb.covers
    ensures r.available.Keys == s.available.Keys
    ensures r.selected == if s.selected == [] then [] else s.selected[..|s.selected| - 1]
    ensures r.queue.Keys == s.queue.Keys + (Elems(pb.covers[option]) * pb.requiredItems)
  {
    var s1 := UnselectItems(pb, s, pb.covers[option], Elems(removed));
    s1.(selected := if s1.selected == [] then [] else s1.selected[..|s1.selected| - 1])
  }

  // ---------------------------------------------------------------------
  // What select_option does
  // ---------------------------------------------------------------------

  /** Under the invariant, an item's available options come from its list. */
  lemma AvailableListed(pb: WfProblem, s: State, j: Name)
    requires Valid(pb, s) && j in s.available
    ensures s.available[j] <= Elems(pb.coveredBy[j])
  {
    forall o | o in s.available[j] ensures o in Elems(pb.coveredBy[j]) {
      assert o in pb.coveredBy[j];
    }
  }

  /** The options available for an item are known options. */
  lemma AvailableAreOptions(pb: WfProblem, s: State, item: Name)
    requires Valid(pb, s) && item in s.available
    ensures s.available[item] <= Elems(pb.optionOrder)
  {
    forall o | o in s.available[item] ensures o in Elems(pb.optionOrder) {
      assert o in pb.coveredBy[item];
    }
  }

  /** Seen from one item whose available options all come from its list,
      removing several options takes exactly these options away: an option
      that does not cover the item was not available for it. */
  lemma {:induction false} RemoveOptionsOn(pb: WfProblem, s: State, options: seq<Name>, j: Name)
    requires Fits(pb, s) && j in s.available && s.available[j] <= Elems(pb.coveredBy[j])
    requires forall p | p in options :: p in pb.covers
    ensures RemoveOptions(pb, s, options).available[j] == s.available[j] - Elems(options)
    decreases |options|
  {
    if options != [] {
      var p := options[0];
      var s1 := RemoveOption(pb, s, p);
      assert s1.available[j] == s.available[j] - {p} by {
        if p in s.available[j] {
          assert p in pb.coveredBy[j];
        }
      }
      RemoveOptionsOn(pb, s1, options[1..], j);
      ElemsCons(options);
    }
  }

  lemma RemoveOptionsValid(pb: WfProblem, s: State, options: seq<Name>)
    requires Valid(pb, s)
    requires forall p | p in options :: p in pb.covers
    ensures var r := RemoveOptions(pb, s, options);
      && Valid(pb, r)
      && forall j | j in s.available :: r.available[j] == s.available[j] - Elems(options)
  {
    forall j | j in s.available
      ensures RemoveOptions(pb, s, options).available[j] == s.available[j] - Elems(options)
    {
      AvailableListed(pb, s, j);
      RemoveOptionsOn(pb, s, options, j);
    }
  }

  /** The union of the sets `m[i]` over the items `i` of `items`. */
  ghost function UnionOver(m: map<Name, set<Name>>, items: seq<Name>): set<Name>
    decreases |items|
  {
    if items == [] then {}
    else (if items[0] in m then m[items[0]] else {}) + UnionOver(m, items[1..])
  }

  lemma {:induction false} InUnionOver(m: map<Name, set<Name>>, items: seq<Name>, p: Name)
    ensures p in UnionOver(m, items) <==> exists i :: i in items && i in m && p in m[i]
    decreases |items|
  {
    if items != [] {
      InUnionOver(m, items[1..], p);
      if p in UnionOver(m, items[1..]) {
        var i :| i in items[1..] && i in m && p in m[i];
        assert i in items;
      }
      if i :| i in items && i in m && p in m[i] {
        if i != items[0] {
          assert i in items[1..];
        }
      }
    }
  }

  /** Taking `gone` out of every set takes it out of the union. */
  lemma {:induction false} UnionOverMinus(m: map<Name, set<Name>>, m': map<Name, set<Name>>, gone: set<Name>, items: seq<Name>)
    requires m'.Keys == m.Keys
    requires forall j | j in m :: m'[j] == m[j] - gone
    ensures UnionOver(m', items) == UnionOver(m, items) - gone
    decreases |items|
  {
    if items != [] {
      UnionOverMinus(m, m', gone, items[1..]);
    }
  }

  /** Taking `x` and then `y` out of every set takes out both. */
  lemma MinusTwice(a: map<Name, set<Name>>, b: map<Name, set<Name>>, c: map<Name, set<Name>>, x: set<Name>, y: set<Name>)
    requires b.Keys == a.Keys && c.Keys == a.Keys
    requires forall j | j in a :: b[j] == a[j] - x
    requires forall j | j in b :: c[j] == b[j] - y
    ensures forall j | j in a :: c[j] == a[j] - (x + y)
  {
  }

  lemma {:induction false} SelectItemsAvailable(pb: WfProblem, s: State, items: seq<Name>)
    requires Valid(pb, s)
    requires forall i | i in items :: i in pb.coveredBy
    ensures var (r, removed) := SelectItems(pb, s, items);
      && Valid(pb, r)
      && Distinct(removed)
      && Elems(removed) == UnionOver(s.available, items)
      && forall j | j in s.available :: r.available[j] == s.available[j] - Elems(removed)
    decreases |items|
  {
    if items != [] {
      var i := items[0];
      var s1 := RemoveItem(s, i);
      var batch := Filter(pb.optionOrder, s1.available[i]);
      AvailableAreOptions(pb, s, i);
      assert Elems(batch) == s.available[i];
      assert forall p | p in batch :: p in Elems(batch);
      var s2 := RemoveOptions(pb, s1, batch);
      RemoveOptionsValid(pb, s1, batch);
      var (s3, rest) := SelectItems(pb, s2, items[1..]);
      SelectItemsAvailable(pb, s2, items[1..]);
      assert SelectItems(pb, s, items) == (s3, batch + rest);
      SelectItemsStep(s.available, s2.available, s3.available, items, batch, rest);
    }
  }

  /** One step of `SelectItems` on the available sets alone: removing the
      first item's options, then those the remaining items lose, removes
      each option available for one of the items exactly once. */
  lemma SelectItemsStep(a: map<Name, set<Name>>, a2: map<Name, set<Name>>, a3: map<Name, set<Name>>,
                        items: seq<Name>, batch: seq<Name>, rest: seq<Name>)
    requires items != [] && items[0] in a
    requires Distinct(batch) && Elems(batch) == a[items[0]]
    requires a2.Keys == a.Keys && forall j | j in a :: a2[j] == a[j] - Elems(batch)
    requires Distinct(rest) && Elems(rest) == UnionOver(a2, items[1..])
    requires a3.Keys == a.Keys && forall j | j in a2 :: a3[j] == a2[j] - Elems(rest)
    ensures Distinct(batch + rest) && Elems(batch + rest) == UnionOver(a, items)
    ensures forall j | j in a :: a3[j] == a[j] - Elems(batch + rest)
  {
    UnionOverMinus(a, a2, Elems(batch), items[1..]);
    assert UnionOver(a, items) == a[items[0]] + UnionOver(a, items[1..]);
    DistinctConcat(batch, rest);
    ElemsConcat(batch, rest);
    MinusTwice(a, a2, a3, Elems(batch), Elems(rest));
  }

  /** What `select_option` promises: the option is appended to the
      selection, the items it covers leave the queue and are left with no
      available option, and the returned options are, each once, exactly
      those that were available for one of these items, the option itself
      included whenever it was available. */
  lemma SelectOptionRemoves(pb: WfProblem, s: State, option: Name)
    requires Valid(pb, s) && option in pb.covers
    ensures forall i | i in pb.covers[option] :: i in s.available
    ensures var (r, removed) := SelectOption(pb, s, option);
      && Valid(pb, r)
      && r.selected == s.selected + [option]
      && r.queue.Keys == s.queue.Keys - Elems(pb.covers[option])
      && (forall i | i in pb.covers[option] :: r.available[i] == {})
      && Distinct(removed)
      && (forall p :: p in removed <==> exists i :: i in pb.covers[option] && p in s.available[i])
      && ((exists i :: i in pb.covers[option] && option in s.available[i]) ==> option in removed)
  {
    var (r, removed) := SelectOption(pb, s, option);
    var s0 := s.(selected := s.selected + [option]);
    SelectItemsAvailable(pb, s0, pb.covers[option]);
    RemovedMeaning(s.available, r.available, pb.covers[option], removed);
  }

  /** Taking out of every set the options of the union over `items` leaves
      `items` with nothing, and the options taken are those available for
      one of `items`. */
  lemma RemovedMeaning(a: map<Name, set<Name>>, a': map<Name, set<Name>>, items: seq<Name>, removed: seq<Name>)
    requires forall i | i in items :: i in a
    requires Elems(removed) == UnionOver(a, items)
    requires a'.Keys == a.Keys && forall j | j in a :: a'[j] == a[j] - Elems(removed)
    ensures forall p :: p in removed <==> exists i :: i in items && p in a[i]
    ensures forall i | i in items :: a'[i] == {}
  {
    forall p ensures p in removed <==> exists i :: i in items && p in a[i] {
      InUnionOver(a, items, p);
      assert p in removed <==> p in Elems(removed);
    }
    forall i | i in items ensures a'[i] == {} {
      forall p | p in a[i] ensures p in Elems(removed) {
        InUnionOver(a, items, p);
      }
    }
  }

  /** Taking the same options out of every available set keeps uniformity. */
  lemma UniformAfterRemoval(pb: WfProblem, s: State, r: State, gone: set<Name>)
    requires Valid(pb, s) && Valid(pb, r) && Uniform(pb, s)
    requires forall j | j in s.available :: r.available[j] == s.available[j] - gone
    ensures Uniform(pb, r)
  {
    forall o | o in pb.covers ensures AllOrNone(pb, r, o) {
      assert AllOrNone(pb, s, o);
    }
  }

  /** `select_option` keeps every option available for all of its items or
      for none. */
  lemma SelectOptionUniform(pb: WfProblem, s: State, option: Name)
    requires Valid(pb, s) && Uniform(pb, s) && option in pb.covers
    ensures Valid(pb, SelectOption(pb, s, option).0)
    ensures Uniform(pb, SelectOption(pb, s, option).0)
  {
    var (r, removed) := SelectOption(pb, s, option);
    SelectItemsAvailable(pb, s.(selected := s.selected + [option]), pb.covers[option]);
    UniformAfterRemoval(pb, s, r, Elems(removed));
  }

  // ---------------------------------------------------------------------
  // What unselect_option does
  // ---------------------------------------------------------------------

  /** The options of each item's `covered_by` list, as sets. */
  ghost function OptionSets(pb: WfProblem): map<Name, set<Name>> {
    map i | i in pb.coveredBy :: Elems(pb.coveredBy[i])
  }

  /** Set algebra for one option of the loop that returns options. */
  lemma ReturnStep(x: set<Name>, x1: set<Name>, y: set<Name>, p: Name, rest: set<Name>, removed: set<Name>, listed: set<Name>)
    requires x1 == x + (if p in removed && p in listed then {p} else {})
    requires y == x1 + rest * removed * listed
    ensures y == x + ({p} + rest) * removed * listed
  {
  }

  /** Seen from one item, returning one option if it was removed adds it
      back exactly when the item lists it. */
  lemma ReturnOneOn(pb: WfProblem, s: State, p: Name, removed: set<Name>, j: Name)
    requires Fits(pb, s) && j in s.available && p in pb.covers
    ensures (if p in removed then ReturnOption(pb, s, p) else s).available[j]
         == s.available[j] + (if p in removed && p in Elems(pb.coveredBy[j]) then {p} else {})
  {
    assert p in Elems(pb.coveredBy[j]) <==> j in pb.covers[p] by {
      if p in Elems(pb.coveredBy[j]) {
        InverseListed(pb.coveredBy, pb.covers, j, p);
      }
    }
  }

  /** Seen from one item, returning the removed options among `options`
      adds back those the item lists. */
  lemma {:induction false} ReturnRemovedOn(pb: WfProblem, s: State, options: seq<Name>, removed: set<Name>, j: Name)
    requires Fits(pb, s) && j in s.available
    requires forall p | p in options :: p in pb.covers
    ensures ReturnRemoved(pb, s, options, removed).available[j]
         == s.available[j] + Elems(options) * removed * Elems(pb.coveredBy[j])
    decreases |options|
  {
    if options != [] {
      var p := options[0];
      ElemsCons(options);
      var s1 := if p in removed then ReturnOption(pb, s, p) else s;
      ReturnOneOn(pb, s, p, removed, j);
      ReturnRemovedOn(pb, s1, options[1..], removed, j);
      ReturnStep(s.available[j], s1.available[j], ReturnRemoved(pb, s, options, removed).available[j],
                 p, Elems(options[1..]), removed, Elems(pb.coveredBy[j]));
    }
  }

  /** Set algebra for one item of the loop that returns options. */
  lemma UnselectStep(x: set<Name>, x1: set<Name>, y: set<Name>, a: set<Name>, u: set<Name>, removed: set<Name>, listed: set<Name>)
    requires x1 == x + a * removed * listed
    requires y == x1 + u * removed * listed
    ensures y == x + (a + u) * removed * listed
  {
  }

  /** Seen from one item, the loop of `unselect_option` adds back the
      removed options that both the item and one of `items` list. */
  lemma {:induction false} UnselectItemsOn(pb: WfProblem, s: State, items: seq<Name>, removed: set<Name>, j: Name)
    requires Fits(pb, s) && j in s.available
    requires forall i | i in items :: i in pb.coveredBy
    ensures UnselectItems(pb, s, items, removed).available[j]
         == s.available[j] + UnionOver(OptionSets(pb), items) * removed * Elems(pb.coveredBy[j])
    decreases |items|
  {
    if items != [] {
      var i := items[0];
      var s1 := ReturnRemoved(pb, s, pb.coveredBy[i], removed);
      ReturnRemovedOn(pb, s, pb.coveredBy[i], removed, j);
      var s2 := if i in pb.requiredItems then ReturnItem(s1, i) else s1;
      UnselectItemsOn(pb, s2, items[1..], removed, j);
      assert OptionSets(pb)[i] == Elems(pb.coveredBy[i]);
      UnselectStep(s.available[j], s2.available[j], UnselectItems(pb, s, items, removed).available[j],
                   Elems(pb.coveredBy[i]), UnionOver(OptionSets(pb), items[1..]), removed, Elems(pb.coveredBy[j]));
    }
  }

  /** `unselect_option` adds back to each item the removed options that it
      and one of the option's items list, and keeps the invariant. */
  lemma UnselectOptionValid(pb: WfProblem, s: State, option: Name, removed: seq<Name>)
    requires Valid(pb, s) && option in pb.covers
    ensures var r := UnselectOption(pb, s, option, removed);
      && Valid(pb, r)
      && forall j | j in s.available ::
           r.available[j] == s.available[j] + UnionOver(OptionSets(pb), pb.covers[option]) * Elems(removed) * Elems(pb.coveredBy[j])
  {
    var r := UnselectOption(pb, s, option, removed);
    forall j | j in s.available
      ensures r.available[j] == s.available[j] + UnionOver(OptionSets(pb), pb.covers[option]) * Elems(removed) * Elems(pb.coveredBy[j])
    {
      UnselectItemsOn(pb, s, pb.covers[option], Elems(removed), j);
    }
    forall i, o | i in r.available && o in r.available[i] ensures o in pb.coveredBy[i] {
      assert o in s.available[i] || o in Elems(pb.coveredBy[i]);
    }
    assert forall k | 0 <= k < |r.selected| :: r.selected[k] == s.selected[k];
  }

  /** For one item: what `select_option` took away, `unselect_option` gives
      back, because a uniform option that was available for one of the
      selected option's items was available for every item it covers. */
  lemma RestoreOn(pb: WfProblem, s: State, option: Name, removed: set<Name>, after: set<Name>, j: Name)
    requires Valid(pb, s) && Uniform(pb, s) && option in pb.covers && j in s.available
    requires removed == UnionOver(s.available, pb.covers[option])
    requires after == (s.available[j] - removed) + UnionOver(OptionSets(pb), pb.covers[option]) * removed * Elems(pb.coveredBy[j])
    ensures after == s.available[j]
  {
    forall p | p in s.available[j] && p in removed
      ensures p in UnionOver(OptionSets(pb), pb.covers[option]) * removed * Elems(pb.coveredBy[j])
    {
      RemovedComesBack(pb, s, option, j, p);
    }
    forall p | p in UnionOver(OptionSets(pb), pb.covers[option]) * UnionOver(s.available, pb.covers[option]) * Elems(pb.coveredBy[j])
      ensures p in s.available[j]
    {
      ReturnedWasAvailable(pb, s, option, j, p);
    }
  }

  lemma RemovedComesBack(pb: WfProblem, s: State, option: Name, j: Name, p: Name)
    requires Valid(pb, s) && option in pb.covers && j in s.available
    requires p in s.available[j] && p in UnionOver(s.available, pb.covers[option])
    ensures p in UnionOver(OptionSets(pb), pb.covers[option]) && p in Elems(pb.coveredBy[j])
  {
    InUnionOver(s.available, pb.covers[option], p);
    var i :| i in pb.covers[option] && i in s.available && p in s.available[i];
    assert p in OptionSets(pb)[i];
    InUnionOver(OptionSets(pb), pb.covers[option], p);
    AvailableListed(pb, s, j);
  }

  lemma ReturnedWasAvailable(pb: WfProblem, s: State, option: Name, j: Name, p: Name)
    requires Valid(pb, s) && Uniform(pb, s) && option in pb.covers && j in s.available
    requires p in UnionOver(s.available, pb.covers[option]) && p in Elems(pb.coveredBy[j])
    ensures p in s.available[j]
  {
    InUnionOver(s.available, pb.covers[option], p);
    var i :| i in pb.covers[option] && i in s.available && p in s.available[i];
    assert AllOrNone(pb, s, p);
    assert i in pb.covers[p] && j in pb.covers[p];
  }

  /** `unselect_option(o, removed)` restores the available options that
      `select_option(o)` took away, on any state whose available options are
      those `select_option` left behind (the search in between may have
      changed the queue). */
  lemma UnselectRestores(pb: WfProblem, s: State, option: Name, selected: (State, seq<Name>), mid: State)
    requires Valid(pb, s) && Uniform(pb, s) && option in pb.covers
    requires selected == SelectOption(pb, s, option)
    requires Valid(pb, mid) && mid.available == selected.0.available
    ensures UnselectOption(pb, mid, option, selected.1).available == s.available
  {
    var removed := selected.1;
    var s0 := s.(selected := s.selected + [option]);
    SelectItemsAvailable(pb, s0, pb.covers[option]);
    assert s0.available == s.available;
    var s2 := UnselectOption(pb, mid, option, removed);
    UnselectOptionValid(pb, mid, option, removed);
    var back := UnionOver(OptionSets(pb), pb.covers[option]);
    forall j | j in s.available ensures s2.available[j] == s.available[j] {
      assert mid.available[j] == s.available[j] - Elems(removed);
      assert s2.available[j] == mid.available[j] + back * Elems(removed) * Elems(pb.coveredBy[j]);
      RestoreOn(pb, s, option, Elems(removed), s2.available[j], j);
    }
    SameMaps(s2.available, s.available);
  }

  /** Maps with the same keys and the same values are equal. */
  lemma SameMaps(a: map<Name, set<Name>>, b: map<Name, set<Name>>)
    requires a.Keys == b.Keys && forall j | j in b :: a[j] == b[j]
    ensures a == b
  {
  }

  /** `unselect_option(o, select_option(o))` restores the available options
      and the selection exactly and brings the option's required items back
      into the queue. */
  lemma SelectUnselectRestores(pb: WfProblem, s: State, option: Name)
    requires Valid(pb, s) && Uniform(pb, s) && option in pb.covers
    ensures var (s1, removed) := SelectOption(pb, s, option);
      var s2 := UnselectOption(pb, s1, option, removed);
      && s2.available == s.available
      && s2.selected == s.selected
      && s2.queue.Keys == (s.queue.Keys - Elems(pb.covers[option])) + (Elems(pb.covers[option]) * pb.requiredItems)
  {
    SelectOptionRemoves(pb, s, option);
    UnselectRestores(pb, s, option, SelectOption(pb, s, option), SelectOption(pb, s, option).0);
  }

  // ---------------------------------------------------------------------
  // The priority invariant
  // ---------------------------------------------------------------------

  /** A queued item's priority is minus its number of available options. */
  ghost predicate PriorityAt(s: State, j: Name) {
    j in s.queue ==> j in s.available && s.queue[j] == -|s.available[j]|
  }

  lemma {:induction false} RemoveOptionsPriorityOn(pb: WfProblem, s: State, options: seq<Name>, j: Name)
    requires Fits(pb, s) && s.queue.Keys <= pb.requiredItems && PriorityAt(s, j)
    requires forall p | p in options :: p in pb.covers
    ensures PriorityAt(RemoveOptions(pb, s, options), j)
    decreases |options|
  {
    if options != [] {
      RemoveOptionsPriorityOn(pb, RemoveOption(pb, s, options[0]), options[1..], j);
    }
  }

  lemma {:induction false} SelectItemsPriorityOn(pb: WfProblem, s: State, items: seq<Name>, j: Name)
    requires Fits(pb, s) && s.queue.Keys <= pb.requiredItems && PriorityAt(s, j)
    requires forall i | i in items :: i in pb.coveredBy
    ensures PriorityAt(SelectItems(pb, s, items).0, j)
    decreases |items|
  {
    if items != [] {
      var s1 := RemoveItem(s, items[0]);
      var batch := Filter(pb.optionOrder, s1.available[items[0]]);
      assert forall p | p in batch :: p in Elems(batch);
      RemoveOptionsPriorityOn(pb, s1, batch, j);
      SelectItemsPriorityOn(pb, RemoveOptions(pb, s1, batch), items[1..], j);
    }
  }

  lemma {:induction false} ReturnRemovedPriorityOn(pb: WfProblem, s: State, options: seq<Name>, removed: set<Name>, j: Name)
    requires Fits(pb, s) && s.queue.Keys <= pb.requiredItems && PriorityAt(s, j)
    requires forall p | p in options :: p in pb.covers
    ensures PriorityAt(ReturnRemoved(pb, s, options, removed), j)
    decreases |options|
  {
    if options != [] {
      var s1 := if options[0] in removed then ReturnOption(pb, s, options[0]) else s;
      ReturnRemovedPriorityOn(pb, s1, options[1..], removed, j);
    }
  }

  lemma {:induction false} UnselectItemsPriorityOn(pb: WfProblem, s: State, items: seq<Name>, removed: set<Name>, j: Name)
    requires Fits(pb, s) && s.queue.Keys <= pb.requiredItems && PriorityAt(s, j)
    requires forall i | i in items :: i in pb.coveredBy
    ensures PriorityAt(UnselectItems(pb, s, items, removed), j)
    decreases |items|
  {
    if items != [] {
      var i := items[0];
      var s1 := ReturnRemoved(pb, s, pb.coveredBy[i], removed);
      ReturnRemovedPriorityOn(pb, s, pb.coveredBy[i], removed, j);
      var s2 := if i in pb.requiredItems then ReturnItem(s1, i) else s1;
      UnselectItemsPriorityOn(pb, s2, items[1..], removed, j);
    }
  }

  /** `select_option` keeps every queued priority exact. */
  lemma SelectOptionPriorities(pb: WfProblem, s: State, option: Name)
    requires Valid(pb, s) && option in pb.covers && PrioritiesExact(s)
    ensures PrioritiesExact(SelectOption(pb, s, option).0)
  {
    var s0 := s.(selected := s.selected + [option]);
    var r := SelectOption(pb, s, option).0;
    assert Fits(pb, s0) && s0.queue.Keys <= pb.requiredItems;
    assert forall i | i in pb.covers[option] :: i in pb.coveredBy;
    forall j | j in r.queue ensures PriorityAt(r, j) {
      assert PriorityAt(s0, j);
      SelectItemsPriorityOn(pb, s0, pb.covers[option], j);
    }
  }

  /** `unselect_option` keeps every queued priority exact. */
  lemma UnselectOptionPriorities(pb: WfProblem, s: State, option: Name, removed: seq<Name>)
    requires Valid(pb, s) && option in pb.covers && PrioritiesExact(s)
    ensures PrioritiesExact(UnselectOption(pb, s, option, removed))
  {
    var r := UnselectOption(pb, s, option, removed);
    assert forall i | i in pb.covers[option] :: i in pb.coveredBy;
    forall j | j in r.queue ensures PriorityAt(r, j) {
      assert PriorityAt(s, j);
      UnselectItemsPriorityOn(pb, s, pb.covers[option], Elems(removed), j);
    }
  }
}
