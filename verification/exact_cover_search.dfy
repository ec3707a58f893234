/**
 * The backtracking search of the exact-cover solver: `select_new_item`
 * (pop the queued item with the highest priority), `_solve_until` (the
 * recursive Algorithm X with a solution budget), and the public entry points
 * `solve` and `count_all_solutions`.
 *
 * The loop of `_solve_until` over the options of the chosen item is the
 * function `TryOptions`; the two are mutually recursive.  Both thread the
 * search state through explicitly and return it with the outcome.
 */
module ExactCoverSearch {
  import opened Wrappers
  import opened ExactCover
  import opened ExactCoverSemantics

  // ---------------------------------------------------------------------
  // select_new_item
  // ---------------------------------------------------------------------

  /** The queued item of `order` with the highest priority; on a tie the one
      that comes first in `order`. */
  function PickItem(order: seq<Name>, queue: map<Name, int>): (r: Option<Name>)
    ensures r.None? <==> forall j | j in order :: j !in queue
    ensures r.Some? ==> r.value in order && r.value in queue
    ensures r.Some? ==> forall j | j in order && j in queue :: queue[j] <= queue[r.value]
    decreases |order|
  {
    if order == [] then None
    else
      var rest := PickItem(order[1..], queue);
      if order[0] !in queue then rest
      else if rest.Some? && queue[rest.value] > queue[order[0]] then rest
      else Some(order[0])
  }

  /** `select_new_item`: pop the queued item with the highest priority, that
      is the fewest available options when priorities are exact.  The
      priority queue's tie-breaking is modelled by the traversal order of
      `covered_by`. */
  function SelectNewItem(pb: WfProblem, s: State): (r: Option<(Name, State)>)
    requires s.queue.Keys <= pb.coveredBy.Keys
    ensures r.None? <==> s.queue.Keys == {}
    ensures r.Some? ==>
      && r.value.0 in s.queue
      && (forall j | j in s.queue :: s.queue[j] <= s.queue[r.value.0])
      && r.value.1 == RemoveItem(s, r.value.0)
  {
    match PickItem(pb.itemOrder, s.queue)
    case None =>
      assert forall j | j in Elems(pb.itemOrder) :: j !in s.queue;
      None
    case Some(item) => Some((item, RemoveItem(s, item)))
  }

  /** With exact priorities, the popped item has no more available options
      than any other queued item. */
  lemma SelectNewItemFewest(pb: WfProblem, s: State)
    requires Valid(pb, s) && PrioritiesExact(s)
    ensures match SelectNewItem(pb, s)
      case None => s.queue.Keys == {}
      case Some((item, s1)) =>
        && item in s.queue
        && s1.queue.Keys == s.queue.Keys - {item}
        && s1.available == s.available
        && forall j | j in s.queue :: |s.available[item]| <= |s.available[j]|
  {
  }

  // ---------------------------------------------------------------------
  // The search invariant
  // ---------------------------------------------------------------------

  /** A required item outside the queue (and outside `except`) has no
      available option left. */
  ghost predicate SettledExcept(pb: WfProblem, s: State, except: set<Name>) {
    forall j | j in pb.requiredItems && j !in s.queue && j !in except ::
      j in s.available && s.available[j] == {}
  }

  /** What the search keeps between two steps. */
  ghost predicate SearchInv(pb: WfProblem, s: State) {
    Valid(pb, s) && Uniform(pb, s) && SettledExcept(pb, s, {})
  }

  /** `new` leaves a state the search can start from. */
  lemma InitialSearchInv(pb: WfProblem, s: State)
    requires InitialState(pb, s)
    ensures SearchInv(pb, s)
  {
    InitialStateValid(pb, s);
  }

  /** `select_option` keeps the search invariant; the items it covers no
      longer need an exception. */
  lemma SelectKeepsInv(pb: WfProblem, s: State, option: Name, except: set<Name>)
    requires Valid(pb, s) && Uniform(pb, s) && SettledExcept(pb, s, except) && option in pb.covers
    ensures var s2 := SelectOption(pb, s, option).0;
      Valid(pb, s2) && Uniform(pb, s2) && SettledExcept(pb, s2, except - Elems(pb.covers[option]))
  {
    SelectOptionRemoves(pb, s, option);
    SelectOptionUniform(pb, s, option);
    SelectItemsAvailable(pb, s.(selected := s.selected + [option]), pb.covers[option]);
  }

  /** A subset of a set without one of its elements is smaller. */
  lemma SmallerQueue(a: set<Name>, b: set<Name>, x: Name)
    requires a <= b - {x} && x in b
    ensures |a| < |b|
  {
    SubsetCard(a, b - {x});
  }

  lemma {:induction false} SubsetCard(a: set<Name>, b: set<Name>)
    requires a <= b
    ensures |a| <= |b|
    decreases |a|
  {
    if a != {} {
      var y :| y in a;
      SubsetCard(a - {y}, b - {y});
    }
  }

  /** The state inside the loop over the options of `item`: the state at
      the start of the step, with `item` possibly popped. */
  ghost predicate InLoop(entry: State, s: State, item: Name) {
    && s.available == entry.available
    && s.selected == entry.selected
    && (s.queue.Keys == entry.queue.Keys || s.queue.Keys == entry.queue.Keys - {item})
  }

  /** Selecting an option of the popped item keeps the search invariant and
      shrinks the queue below its size at the start of the step. */
  lemma SelectForSearch(pb: WfProblem, entry: State, s: State, item: Name, option: Name)
    requires SearchInv(pb, entry) && item in entry.queue && InLoop(entry, s, item)
    requires option in entry.available[item]
    ensures Fits(pb, s) && option in pb.covers && item in pb.covers[option]
    ensures Valid(pb, s) && Uniform(pb, s)
    ensures SearchInv(pb, SelectOption(pb, s, option).0)
    ensures |SelectOption(pb, s, option).0.queue.Keys| < |entry.queue.Keys|
  {
    assert option in pb.coveredBy[item];
    assert Uniform(pb, s) by {
      forall o | o in pb.covers ensures AllOrNone(pb, s, o) {
        assert AllOrNone(pb, entry, o);
      }
    }
    SelectKeepsInv(pb, s, option, {item});
    SmallerQueue(SelectOption(pb, s, option).0.queue.Keys, entry.queue.Keys, item);
  }

  /** The search below a selected option starts from a state that means
      what it should. */
  lemma SearchCovering(pb: WfProblem, entry: State, s: State, item: Name, option: Name)
    requires SearchInv(pb, entry) && item in entry.queue && InLoop(entry, s, item)
    requires option in entry.available[item] && option in pb.covers && Fits(pb, s)
    ensures Covering(pb, entry, {}) ==> Covering(pb, SelectOption(pb, s, option).0, {})
    ensures AvailExact(pb, entry) ==> AvailExact(pb, SelectOption(pb, s, option).0)
  {
    if Covering(pb, entry, {}) {
      LoopCovering(pb, entry, s, item, option);
      SelectKeepsCovering(pb, s, option, {item});
    }
    assert AvailExact(pb, entry) ==> AvailExact(pb, s);
    SelectKeepsAvailExact(pb, s, option);
  }

  /** Undoing the selection after the recursive search brings the loop back
      to the state at the start of the step, with `item` queued again: every
      required item of the option was queued or is `item`, since the option
      was available for all of its items. */
  lemma UnselectForSearch(pb: WfProblem, entry: State, s: State, item: Name, option: Name,
                          selected: (State, seq<Name>), mid: State)
    requires SearchInv(pb, entry) && item in entry.queue && InLoop(entry, s, item)
    requires option in entry.available[item]
    requires option in pb.covers && Fits(pb, s) && selected == SelectOption(pb, s, option)
    requires Shape(mid) == Shape(selected.0)
    ensures Fits(pb, mid)
    ensures Shape(UnselectOption(pb, mid, option, selected.1)) == Shape(entry)
  {
    SelectForSearch(pb, entry, s, item, option);
    UnselectRestores(pb, s, option, selected, mid);
    UnselectRequeues(pb, entry, s, item, option, mid.queue.Keys);
    assert (s.selected + [option])[..|s.selected|] == s.selected;
  }

  /** The queue part of `UnselectForSearch`. */
  lemma UnselectRequeues(pb: WfProblem, entry: State, s: State, item: Name, option: Name, q: set<Name>)
    requires SearchInv(pb, entry) && item in entry.queue && InLoop(entry, s, item)
    requires option in entry.available[item] && option in pb.covers && item in pb.covers[option]
    requires q == s.queue.Keys - Elems(pb.covers[option])
    ensures q + Elems(pb.covers[option]) * pb.requiredItems == entry.queue.Keys
  {
    assert AllOrNone(pb, entry, option);
    forall j | j in pb.covers[option] && j in pb.requiredItems ensures j in entry.queue {
      if j != item {
        assert option in entry.available[j];
      }
    }
  }

  // ---------------------------------------------------------------------
  // What the search means
  // ---------------------------------------------------------------------

  /** The search from `s` has budget left and an exact cover to find. */
  ghost predicate Complete(pb: WfProblem, s: State, remaining: int) {
    remaining > 0 && Covering(pb, s, {}) && AvailExact(pb, s) && Extensible(pb, s.selected)
  }

  /** A reported solution is an exact cover that extends the selection the
      search started from. */
  ghost predicate Sound(pb: WfProblem, s: State, o: Outcome) {
    o.lastSolution.Some? ==> IsExactCover(pb, o.lastSolution.value) && s.selected <= o.lastSolution.value
  }

  /** A reported solution is made of known options. */
  ghost predicate Known(pb: WfProblem, o: Outcome) {
    o.lastSolution.Some? ==> forall k | 0 <= k < |o.lastSolution.value| :: o.lastSolution.value[k] in pb.covers
  }

  /** Inside the loop over the options of `item`, the state means what the
      state at the start of the step meant, except that `item` may be
      popped; and an available option covers nothing covered yet. */
  lemma LoopCovering(pb: WfProblem, entry: State, s: State, item: Name, option: Name)
    requires SearchInv(pb, entry) && item in entry.queue && InLoop(entry, s, item)
    requires option in entry.available[item] && Covering(pb, entry, {})
    ensures option in pb.covers && Covering(pb, s, {item})
    ensures forall i | i in pb.covers[option] :: CoverCount(pb, s.selected, i) == 0
  {
    assert option in pb.coveredBy[item];
    assert AllOrNone(pb, entry, option);
    assert forall i | i in pb.covers[option] :: option in entry.available[i];
  }

  // ---------------------------------------------------------------------
  // _solve_until
  // ---------------------------------------------------------------------

  /** `ExactCoverResult`: the first solution found, if any, and how many
      were found. */
  datatype Outcome = Outcome(lastSolution: Option<seq<Name>>, numSolutions: nat)

  /** The parts of the state the search restores exactly (priorities may
      differ). */
  function Shape(s: State): (map<Name, set<Name>>, seq<Name>, set<Name>) {
    (s.available, s.selected, s.queue.Keys)
  }

  /** An outcome fits a budget: nothing when the budget is spent, never
      more solutions than the budget, and a solution exactly when at least
      one is counted. */
  predicate WithinBudget(o: Outcome, budget: int) {
    && (budget <= 0 ==> o == Outcome(None, 0))
    && (o.numSolutions <= budget || o.numSolutions == 0)
    && (o.lastSolution.Some? <==> o.numSolutions > 0)
  }

  /** `o` carries on from `acc`: the count only grows and a solution once
      found is kept. */
  predicate Extends(acc: Outcome, o: Outcome) {
    && acc.numSolutions <= o.numSolutions
    && (acc.lastSolution.Some? ==> o.lastSolution == acc.lastSolution)
  }

  /** `_solve_until(remaining)`: with no budget left, nothing; with an
      empty queue, the current selection; otherwise the popped item is
      searched.  The state comes back as it went in, up to priorities. */
  function SolveUntil(pb: WfProblem, s: State, remaining: int): (r: (Outcome, State))
    requires SearchInv(pb, s)
    ensures Shape(r.1) == Shape(s)
    ensures WithinBudget(r.0, remaining)
    ensures Covering(pb, s, {}) ==> Sound(pb, s, r.0)
    ensures Complete(pb, s, remaining) ==> r.0.numSolutions > 0
    ensures Known(pb, r.0)
    decreases |s.queue.Keys|, 2, 0
  {
    if remaining <= 0 then (Outcome(None, 0), s)
    else
      match SelectNewItem(pb, s)
      case None =>
        DoneCovering(pb, s);
        (Outcome(Some(s.selected), 1), s)
      case Some((item, _)) => SolveItem(pb, s, item, remaining)
  }

  /** The body of `_solve_until` once `item` is popped: with no option left
      for it the item is pushed back and nothing is found; otherwise each of
      its options is tried. */
  function SolveItem(pb: WfProblem, s: State, item: Name, remaining: int): (r: (Outcome, State))
    requires SearchInv(pb, s) && item in s.queue && remaining > 0
    ensures Shape(r.1) == Shape(s)
    ensures WithinBudget(r.0, remaining)
    ensures Covering(pb, s, {}) ==> Sound(pb, s, r.0)
    ensures Complete(pb, s, remaining) ==> r.0.numSolutions > 0
    ensures Known(pb, r.0)
    ensures |s.available[item]| == 0 ==> r.0 == Outcome(None, 0)
    decreases |s.queue.Keys|, 1, 0
  {
    var s1 := RemoveItem(s, item);
    ExtendThroughItem(pb, s, item);
    if |s1.available[item]| == 0 then
      assert s1.queue.Keys + {item} == s.queue.Keys;
      (Outcome(None, 0), ReturnItem(s1, item))
    else
      var options := Filter(pb.optionOrder, s1.available[item]);
      AvailableAreOptions(pb, s, item);
      assert options != [] by {
        var o :| o in s1.available[item];
        assert o in Elems(options);
      }
      assert forall o | o in options :: o in Elems(options);
      assert forall o | o in s1.available[item] :: o in options by {
        forall o | o in s1.available[item] ensures o in options {
          assert o in Elems(options);
        }
      }
      TryOptions(pb, s, s1, item, options, remaining, Outcome(None, 0))
  }

  /** The loop of `_solve_until` over the options of the popped item, one
      option after the other. */
  function TryOptions(pb: WfProblem, entry: State, s: State, item: Name, options: seq<Name>,
                      remaining: int, acc: Outcome): (r: (Outcome, State))
    requires SearchInv(pb, entry) && item in entry.queue && InLoop(entry, s, item)
    requires forall o | o in options :: o in entry.available[item]
    requires WithinBudget(acc, remaining) && Known(pb, acc)
    ensures Known(pb, r.0)
    ensures Shape(r.1) == if options == [] then Shape(s) else Shape(entry)
    ensures WithinBudget(r.0, remaining) && Extends(acc, r.0)
    ensures Covering(pb, entry, {}) && Sound(pb, entry, acc) ==> Sound(pb, entry, r.0)
    ensures Complete(pb, entry, remaining) && (acc.numSolutions > 0 || exists p | p in options :: Extensible(pb, entry.selected + [p]))
      ==> r.0.numSolutions > 0
    decreases |entry.queue.Keys|, 0, |options|
  {
    if options == [] then (acc, s)
    else
      assert forall p | p in options && p != options[0] :: p in options[1..];
      var (acc', s') := TryOption(pb, entry, s, item, options[0], remaining, acc);
      TryOptions(pb, entry, s', item, options[1..], remaining, acc')
  }

  /** One turn of that loop: the option is selected, the search goes on
      below it with what is left of the budget, and the option is
      unselected; the first solution found is kept and the counts add up. */
  function TryOption(pb: WfProblem, entry: State, s: State, item: Name, option: Name,
                     remaining: int, acc: Outcome): (r: (Outcome, State))
    requires SearchInv(pb, entry) && item in entry.queue && InLoop(entry, s, item)
    requires option in entry.available[item]
    requires WithinBudget(acc, remaining) && Known(pb, acc)
    ensures Known(pb, r.0)
    ensures Shape(r.1) == Shape(entry)
    ensures WithinBudget(r.0, remaining) && Extends(acc, r.0)
    ensures Covering(pb, entry, {}) && Sound(pb, entry, acc) ==> Sound(pb, entry, r.0)
    ensures Complete(pb, entry, remaining) && (acc.numSolutions > 0 || Extensible(pb, entry.selected + [option]))
      ==> r.0.numSolutions > 0
    decreases |entry.queue.Keys|, 0, 0
  {
    SelectForSearch(pb, entry, s, item, option);
    var selected := SelectOption(pb, s, option);
    SearchCovering(pb, entry, s, item, option);
    var (found, s3) := SolveUntil(pb, selected.0, remaining - acc.numSolutions);
    UnselectForSearch(pb, entry, s, item, option, selected, s3);
    CombineBudget(acc, found, remaining);
    CombineSound(pb, entry, selected.0, acc, found);
    (Combine(acc, found), UnselectOption(pb, s3, option, selected.1))
  }

  /** Folding the outcome of one option into the running one: a search that
      found nothing is ignored, otherwise the first solution is kept and the
      counts add up. */
  function Combine(acc: Outcome, found: Outcome): (r: Outcome) {
    if found.numSolutions == 0 then acc
    else Outcome(acc.lastSolution.Or(found.lastSolution), acc.numSolutions + found.numSolutions)
  }

  // ---------------------------------------------------------------------
  // The solution budget
  // ---------------------------------------------------------------------

  /** Folding in the outcome of a search run with the rest of the budget
      stays within the budget. */
  lemma CombineBudget(acc: Outcome, found: Outcome, remaining: int)
    requires WithinBudget(acc, remaining) && WithinBudget(found, remaining - acc.numSolutions)
    ensures WithinBudget(Combine(acc, found), remaining) && Extends(acc, Combine(acc, found))
  {
  }

  /** Folding in a sound outcome of the search below keeps the running
      outcome sound. */
  lemma CombineSound(pb: WfProblem, entry: State, below: State, acc: Outcome, found: Outcome)
    requires entry.selected <= below.selected
    ensures Sound(pb, entry, acc) && Sound(pb, below, found) ==> Sound(pb, entry, Combine(acc, found))
    ensures Known(pb, acc) && Known(pb, found) ==> Known(pb, Combine(acc, found))
  {
  }

  // ---------------------------------------------------------------------
  // solve / count_all_solutions
  // ---------------------------------------------------------------------

  /** `i32::MAX`, the budget of `count_all_solutions`. */
  const I32Max: int := 0x7fff_ffff

  /** `select_required_options`: each required option is selected in turn.
      An option that covers nothing known makes the source panic on
      `unwrap`; the model reports the first such option instead. */
  function SelectRequired(pb: WfProblem, s: State, options: seq<Name>): (r: Result<State, Error>)
    requires SearchInv(pb, s)
    ensures r.Success? <==> forall o | o in options :: o in pb.covers
    ensures r.Failure? ==>
      exists k | 0 <= k < |options| ::
        && options[k] !in pb.covers
        && r.error == UnknownRequiredOption(options[k])
        && forall m | 0 <= m < k :: options[m] in pb.covers
    ensures r.Success? ==> SearchInv(pb, r.value) && r.value.selected == s.selected + options
    ensures r.Success? && Covering(pb, s, {}) && Untouched(pb, s.selected, options) ==>
      Covering(pb, r.value, {})
    ensures r.Success? && AvailExact(pb, s) ==> AvailExact(pb, r.value)
  {
    match FirstMissing(pb.covers.Keys, options)
    case Some(o) => Failure(UnknownRequiredOption(o))
    case None => Success(SelectAll(pb, s, options))
  }

  /** Appending the head of a sequence, then its tail, appends it. */
  lemma ConsAppend<T>(a: seq<T>, b: seq<T>)
    requires b != []
    ensures a + [b[0]] + b[1..] == a + b
  {
    assert [b[0]] + b[1..] == b;
  }

  /** The loop of `select_required_options` once every option is known. */
  function SelectAll(pb: WfProblem, s: State, options: seq<Name>): (r: State)
    requires SearchInv(pb, s) && forall o | o in options :: o in pb.covers
    ensures SearchInv(pb, r) && r.selected == s.selected + options
    ensures Covering(pb, s, {}) && Untouched(pb, s.selected, options) ==> Covering(pb, r, {})
    ensures AvailExact(pb, s) ==> AvailExact(pb, r)
    decreases |options|
  {
    if options == [] then s
    else
      SelectKeepsInv(pb, s, options[0], {});
      SelectKeepsAvailExact(pb, s, options[0]);
      var s1 := SelectOption(pb, s, options[0]).0;
      RequiredCovering(pb, s, options);
      ConsAppend(s.selected, options);
      SelectAll(pb, s1, options[1..])
  }

  /** Selecting the first of a set of untouched options keeps the meaning
      of the selection and leaves the others untouched. */
  lemma RequiredCovering(pb: WfProblem, s: State, options: seq<Name>)
    requires Valid(pb, s) && options != [] && forall o | o in options :: o in pb.covers
    ensures var s1 := SelectOption(pb, s, options[0]).0;
      Covering(pb, s, {}) && Untouched(pb, s.selected, options) ==>
        Covering(pb, s1, {}) && Untouched(pb, s1.selected, options[1..])
  {
    var o := options[0];
    var s1 := SelectOption(pb, s, o).0;
    if Covering(pb, s, {}) && Untouched(pb, s.selected, options) {
      SelectKeepsCovering(pb, s, o, {});
      forall i ensures CoverCount(pb, s1.selected, i) ==
        CoverCount(pb, s.selected, i) + if i in pb.covers[o] then 1 else 0
      {
        CoverCountSnoc(pb, s.selected, o, i);
      }
      forall k, i | 0 <= k < |options[1..]| && options[1..][k] in pb.covers && i in pb.covers[options[1..][k]]
        ensures CoverCount(pb, s1.selected, i) == 0
      {
        assert options[1..][k] == options[k + 1];
      }
      forall k, m, i | 0 <= k < m < |options[1..]| && options[1..][k] in pb.covers && options[1..][m] in pb.covers
        ensures !(i in pb.covers[options[1..][k]] && i in pb.covers[options[1..][m]])
      {
        assert options[1..][k] == options[k + 1] && options[1..][m] == options[m + 1];
      }
    }
  }

  /** Nothing is covered before the required options are selected. */
  lemma InitialUntouched(pb: WfProblem, s: State)
    requires InitialState(pb, s)
    ensures PairwiseDisjoint(pb, pb.requiredOptions) ==> Untouched(pb, s.selected, pb.requiredOptions)
  {
  }

  /** A reported solution shows that an exact cover extends the selection. */
  lemma SoundExtensible(pb: WfProblem, s: State, o: Outcome)
    ensures Sound(pb, s, o) && o.lastSolution.Some? ==> Extensible(pb, s.selected)
  {
    if Sound(pb, s, o) && o.lastSolution.Some? {
      var sol := o.lastSolution.value;
      assert s.selected + sol[|s.selected|..] == sol;
    }
  }

  /** After the required options are selected from the initial state, the
      state means what the search needs, provided they share no item. */
  lemma RequiredReady(pb: WfProblem, s: State, s1: State)
    requires InitialState(pb, s)
    requires SearchInv(pb, s) && SelectRequired(pb, s, pb.requiredOptions) == Success(s1)
    ensures SearchInv(pb, s1) && s1.selected == pb.requiredOptions
    ensures PairwiseDisjoint(pb, pb.requiredOptions) ==> Covering(pb, s1, {}) && AvailExact(pb, s1)
  {
    InitialCovering(pb, s);
    InitialAvailExact(pb, s);
    InitialUntouched(pb, s);
  }

  /** The search run from a state that means what it should: it reports a
      solution exactly when the selection extends to an exact cover, and
      what it reports is one. */
  function Search(pb: WfProblem, s: State, budget: int): (r: Outcome)
    requires SearchInv(pb, s) && budget > 0
    ensures WithinBudget(r, budget) && Known(pb, r)
    ensures Covering(pb, s, {}) ==> Sound(pb, s, r)
    ensures Covering(pb, s, {}) && AvailExact(pb, s) ==>
      (r.numSolutions > 0 <==> Extensible(pb, s.selected))
    ensures s.queue.Keys == {} ==> r == Outcome(Some(s.selected), 1)
  {
    var found := SolveUntil(pb, s, budget).0;
    SoundExtensible(pb, s, found);
    found
  }

  /** `solve`: the required options are selected, then the search stops at
      the first solution.  When the required options share no item, it finds
      a solution exactly when some exact cover contains them, and what it
      finds is one.  With no required item the required options are the
      solution. */
  function Solve(pb: WfProblem, s: State): (r: Result<Option<seq<Name>>, Error>)
    requires InitialState(pb, s)
    ensures r.Success? <==> forall o | o in pb.requiredOptions :: o in pb.covers
    ensures r.Success? && r.value.Some? ==> forall k | 0 <= k < |r.value.value| :: r.value.value[k] in pb.covers
    ensures r.Success? && r.value.Some? && PairwiseDisjoint(pb, pb.requiredOptions) ==>
      IsExactCover(pb, r.value.value) && pb.requiredOptions <= r.value.value
    ensures r.Success? && PairwiseDisjoint(pb, pb.requiredOptions) ==>
      (r.value.Some? <==> Extensible(pb, pb.requiredOptions))
    ensures r.Success? && pb.requiredItems == {} ==> r.value == Some(pb.requiredOptions)
  {
    InitialSearchInv(pb, s);
    match SelectRequired(pb, s, pb.requiredOptions)
    case Failure(e) => Failure(e)
    case Success(s1) =>
      RequiredReady(pb, s, s1);
      var found := Search(pb, s1, 1);
      Success(found.lastSolution)
  }

  /** `count_all_solutions`: the required options are selected, then every
      solution is counted, up to `i32::MAX`.  When the required options
      share no item, the count is zero exactly when no exact cover contains
      them.  With no required item there is one solution. */
  function CountAllSolutions(pb: WfProblem, s: State): (r: Result<nat, Error>)
    requires InitialState(pb, s)
    ensures r.Success? <==> forall o | o in pb.requiredOptions :: o in pb.covers
    ensures r.Success? ==> r.value <= I32Max
    ensures r.Success? && PairwiseDisjoint(pb, pb.requiredOptions) ==>
      (r.value > 0 <==> Extensible(pb, pb.requiredOptions))
    ensures r.Success? && pb.requiredItems == {} ==> r.value == 1
  {
    InitialSearchInv(pb, s);
    match SelectRequired(pb, s, pb.requiredOptions)
    case Failure(e) => Failure(e)
    case Success(s1) =>
      RequiredReady(pb, s, s1);
      var found := Search(pb, s1, I32Max);
      Success(found.numSolutions)
  }
}
