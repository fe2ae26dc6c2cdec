/** GreedySubmodularMaximizer: the lazy greedy maximiser of a set function.
    A queue holds every item with a (possibly stale) marginal gain; the item
    with the largest gain is re-evaluated against the current solution, and
    the current best is appended once no queued gain exceeds it. */
module GreedySubmodularMaximizer {
  import opened Wrappers
  import Utils

  /** `SetFunction`: the value of a single item and of an item array. */
  datatype SetFunction = SetFunction(single: int -> int, value: seq<int> -> int)

  /** `ItemGainPair`.  A pair is only changed while it is outside the queue,
      so it is modelled as a value. */
  datatype ItemGain = ItemGain(item: int, gain: int)

  /** The outcome of `findMax`: the solution, the `NullPointerException`
      of polling an empty queue, or the loop still running when the fuel
      is spent. */
  datatype Outcome = Done(solution: seq<int>) | NullPoll | OutOfFuel

  // ---------------------------------------------------------------------
  // The priority queue
  // ---------------------------------------------------------------------

  /** `m` is an element `poll` may return: a largest gain (the comparator
      orders by decreasing gain).  Among equal gains the model takes the
      first in its own queue order, which need not be the one the binary
      heap of `PriorityQueue` hands out. */
  predicate IsTop(q: seq<ItemGain>, m: int)
  {
    0 <= m < |q| &&
    (forall i :: 0 <= i < |q| ==> q[i].gain <= q[m].gain) &&
    (forall i :: 0 <= i < m ==> q[i].gain < q[m].gain)
  }

  function Top(q: seq<ItemGain>): (m: int)
    requires q != []
    ensures IsTop(q, m)
  {
    if |q| == 1 then 0
    else
      var m := Top(q[1..]);
      if q[0].gain >= q[m + 1].gain then 0 else m + 1
  }

  /** The queue after polling index `m`. */
  function Remove(q: seq<ItemGain>, m: int): (r: seq<ItemGain>)
    requires 0 <= m < |q|
    ensures |r| == |q| - 1
    ensures forall i :: 0 <= i < |r| ==> r[i] == (if i < m then q[i] else q[i + 1])
  {
    q[..m] + q[m + 1..]
  }

  /** The queue filled by the first loop of `findMax`. */
  function InitQueue(numItems: nat, f: SetFunction): (q: seq<ItemGain>)
    ensures |q| == numItems
    ensures forall i :: 0 <= i < numItems ==> q[i] == ItemGain(i, f.single(i))
  {
    seq(numItems, i requires 0 <= i < numItems => ItemGain(i, f.single(i)))
  }

  /** The gain of `e` recomputed against the solution: the value of the
      solution with `e.item` in the last cell of `partial`, minus the
      current value. */
  function Recompute(f: SetFunction, solution: seq<int>, fncValue: int, e: ItemGain): (r: ItemGain)
    ensures r.item == e.item && r.gain == f.value(solution + [e.item]) - fncValue
  {
    e.(gain := f.value(solution + [e.item]) - fncValue)
  }

  // ---------------------------------------------------------------------
  // findMax as written
  // ---------------------------------------------------------------------

  /** The state of the loop of `findMax`. */
  datatype State = State(queue: seq<ItemGain>, solution: seq<int>, best: ItemGain, fncValue: int)

  /** The state before the loop: the first polled item is the first
      solution item, `fncValue` is its gain, and its gain is reset to 0. */
  function Init(numItems: int, f: SetFunction): (r: Option<State>)
    ensures r.None? <==> numItems <= 0
    ensures r.Some? ==> r.value.solution == [r.value.best.item] && r.value.best.gain == 0 &&
                        IsTop(InitQueue(numItems, f), r.value.best.item) &&
                        r.value.fncValue == f.single(r.value.best.item)
  {
    if numItems <= 0 then None
    else
      var q := InitQueue(numItems, f);
      var m := Top(q);
      Some(State(Remove(q, m), [q[m].item], q[m].(gain := 0), q[m].gain))
  }

  /** One turn of the loop; `None` when the queue is empty. */
  function Step(s: State, f: SetFunction): (r: Option<State>)
    ensures r.None? <==> s.queue == []
    ensures r.Some? ==> |r.value.queue| == |s.queue|
    ensures r.Some? ==> r.value.solution == s.solution || r.value.solution == s.solution + [s.best.item]
  {
    if s.queue == [] then None
    else
      var m := Top(s.queue);
      var top := s.queue[m];
      var rest := Remove(s.queue, m);
      if top.gain <= s.best.gain then
        Some(State(rest + [top], s.solution + [s.best.item], s.best.(gain := 0), s.fncValue + s.best.gain))
      else
        var top' := Recompute(f, s.solution, s.fncValue, top);
        if top'.gain > s.best.gain then Some(State(rest + [s.best], s.solution, top', s.fncValue))
        else Some(State(rest + [top'], s.solution, s.best, s.fncValue))
  }

  /** The loop `while (solution.size() < k)`, with at most `fuel` turns. */
  function Loop(s: State, f: SetFunction, k: int, fuel: nat): Outcome
    decreases fuel
  {
    if |s.solution| >= k then Done(s.solution)
    else if fuel == 0 then OutOfFuel
    else match Step(s, f)
      case None => NullPoll
      case Some(s') => Loop(s', f, k, fuel - 1)
  }

  /** `findMax(k, numItems, f)` when the loop runs at most `fuel` turns. */
  function Greedy(k: int, numItems: int, f: SetFunction, fuel: nat): Outcome
  {
    match Init(numItems, f)
    case None => NullPoll
    case Some(s) => Loop(s, f, k, fuel)
  }

  /** One turn of `Loop` on a non-empty queue below `k` items. */
  lemma LoopUnfold(s: State, s': State, f: SetFunction, k: int, fuel: nat)
    requires |s.solution| < k && fuel >= 1 && Step(s, f) == Some(s')
    ensures Loop(s, f, k, fuel) == Loop(s', f, k, fuel - 1)
  {
  }

  /** What every state of the loop satisfies. */
  predicate Inv(s: State, numItems: int, k: int)
  {
    |s.queue| == numItems - 1 &&
    0 <= s.best.item < numItems &&
    (forall i :: 0 <= i < |s.queue| ==> 0 <= s.queue[i].item < numItems) &&
    (forall i :: 0 <= i < |s.solution| ==> 0 <= s.solution[i] < numItems) &&
    1 <= |s.solution| && (|s.solution| <= k || |s.solution| == 1)
  }

  lemma InitInv(numItems: int, f: SetFunction, k: int)
    requires numItems >= 1
    ensures Inv(Init(numItems, f).value, numItems, k)
  {
  }

  lemma StepInv(s: State, f: SetFunction, numItems: int, k: int)
    requires Inv(s, numItems, k) && |s.solution| < k && s.queue != []
    ensures Inv(Step(s, f).value, numItems, k)
  {
    var m := Top(s.queue);
    assert forall i :: 0 <= i < |s.queue| - 1 ==> 0 <= Remove(s.queue, m)[i].item < numItems;
  }

  /** A finished loop ends in a state of the loop whose solution extends
      the one it started from and has reached `k` items. */
  lemma {:induction false} LoopDone(s: State, f: SetFunction, k: int, fuel: nat, numItems: int)
    returns (t: State)
    requires Inv(s, numItems, k) && Loop(s, f, k, fuel).Done?
    ensures Inv(t, numItems, k) && t.solution == Loop(s, f, k, fuel).solution
    ensures |t.solution| >= k && s.solution <= t.solution
    decreases fuel
  {
    if |s.solution| >= k {
      t := s;
    } else {
      StepInv(s, f, numItems, k);
      var s' := Step(s, f).value;
      LoopUnfold(s, s', f, k, fuel);
      t := LoopDone(s', f, k, fuel - 1, numItems);
      assert s.solution <= s'.solution;
    }
  }

  /** The solution has exactly `k` items (one when `k < 1`), all of them
      item ids. */
  lemma GreedySolution(k: int, numItems: int, f: SetFunction, fuel: nat)
    requires Greedy(k, numItems, f, fuel).Done?
    ensures var sol := Greedy(k, numItems, f, fuel).solution;
            |sol| == (if k >= 1 then k else 1) &&
            forall i :: 0 <= i < |sol| ==> 0 <= sol[i] < numItems
  {
    InitInv(numItems, f, k);
    var t := LoopDone(Init(numItems, f).value, f, k, fuel, numItems);
  }

  /** The first solution item is the first item of largest singleton value. */
  lemma GreedyFirst(k: int, numItems: int, f: SetFunction, fuel: nat)
    requires Greedy(k, numItems, f, fuel).Done?
    ensures var sol := Greedy(k, numItems, f, fuel).solution;
            sol != [] && 0 <= sol[0] < numItems &&
            (forall i :: 0 <= i < numItems ==> f.single(i) <= f.single(sol[0])) &&
            (forall i :: 0 <= i < sol[0] ==> f.single(i) < f.single(sol[0]))
  {
    var s := Init(numItems, f).value;
    InitInv(numItems, f, k);
    var t := LoopDone(s, f, k, fuel, numItems);
    assert t.solution[0] == s.solution[0] == s.best.item;
    var q := InitQueue(numItems, f);
    forall i | 0 <= i < numItems ensures f.single(i) <= f.single(s.best.item) {
      assert q[i].gain <= q[s.best.item].gain;
    }
    forall i | 0 <= i < s.best.item ensures f.single(i) < f.single(s.best.item) {
      assert q[i].gain < q[s.best.item].gain;
    }
  }

  /** From a state of the loop, the queue is polled empty exactly when
      it holds nothing (a single item) and another item is still wanted. */
  lemma {:induction false} LoopNullPoll(s: State, f: SetFunction, k: int, fuel: nat, numItems: int)
    requires Inv(s, numItems, k)
    ensures Loop(s, f, k, fuel) == NullPoll <==> numItems == 1 && |s.solution| < k && fuel >= 1
    decreases fuel
  {
    if |s.solution| < k && fuel >= 1 && s.queue != [] {
      StepInv(s, f, numItems, k);
      LoopNullPoll(Step(s, f).value, f, k, fuel - 1, numItems);
    }
  }

  /** `findMax` throws exactly when there are no items, or a single item and
      `k >= 2`. */
  lemma GreedyNullPoll(k: int, numItems: int, f: SetFunction, fuel: nat)
    ensures Greedy(k, numItems, f, fuel) == NullPoll <==>
            numItems <= 0 || (numItems == 1 && k >= 2 && fuel >= 1)
  {
    if numItems >= 1 {
      InitInv(numItems, f, k);
      LoopNullPoll(Init(numItems, f).value, f, k, fuel, numItems);
    }
  }

  /** `getPartialSolution(solution)`: the solution followed by one free
      cell, which Java initialises to 0. */
  method GetPartialSolution(solution: seq<int>) returns (set_: array<int>)
    ensures fresh(set_)
    ensures set_[..] == solution + [0]
  {
    set_ := new int[|solution| + 1](_ => 0);
    var i := 0;
    while i < set_.Length - 1
      invariant 0 <= i <= |solution|
      invariant set_[..i] == solution[..i]
      invariant forall t :: i <= t < set_.Length ==> set_[t] == 0
    {
      set_[i] := solution[i];
      i := i + 1;
    }
    assert set_[..] == set_[..i] + [set_[i]];
  }

  /** The first loop of `findMax`: every item with its singleton value. */
  method FillQueue(numItems: int, f: SetFunction) returns (mg: seq<ItemGain>)
    ensures mg == InitQueue(if numItems > 0 then numItems else 0, f)
  {
    mg := [];
    var item := 0;
    while item < numItems
      invariant 0 <= item && (item <= numItems || item == 0)
      invariant mg == InitQueue(item, f)
    {
      mg := mg + [ItemGain(item, f.single(item))];
      item := item + 1;
    }
  }

  /** One turn of the loop of `findMax` on a non-empty queue, with the
      `partial` array holding the solution and one free cell. */
  method Turn(mg: seq<ItemGain>, solution: seq<int>, best: ItemGain, fncValue: int,
              partial: array<int>, f: SetFunction)
    returns (mg': seq<ItemGain>, solution': seq<int>, best': ItemGain, fncValue': int, partial': array<int>)
    requires mg != []
    requires partial.Length == |solution| + 1 && partial[..|solution|] == solution
    modifies partial
    ensures Step(State(mg, solution, best, fncValue), f) == Some(State(mg', solution', best', fncValue'))
    ensures partial' == partial || fresh(partial')
    ensures partial'.Length == |solution'| + 1 && partial'[..|solution'|] == solution'
  {
    var m := Top(mg);
    var top := mg[m];
    mg' := Remove(mg, m);
    solution', best', fncValue', partial' := solution, best, fncValue, partial;
    if top.gain <= best.gain {
      solution' := solution + [best.item];
      fncValue' := fncValue + best.gain;
      mg' := mg' + [top];
      best' := best.(gain := 0);
      partial' := GetPartialSolution(solution');
      assert partial'[..|solution'|] == (solution' + [0])[..|solution'|];
    } else {
      partial[partial.Length - 1] := top.item;
      assert partial[..] == solution + [top.item] by {
        assert partial[..] == partial[..|solution|] + [partial[|solution|]];
      }
      top := top.(gain := f.value(partial[..]) - fncValue);
      if top.gain > best.gain {
        mg' := mg' + [best];
        best' := top;
      } else {
        mg' := mg' + [top];
      }
    }
  }

  /** The statements before the loop of `findMax`: the polled item starts
      the solution and `fncValue`, and its gain is reset to 0. */
  method FirstPoll(queue: seq<ItemGain>) returns (mg: seq<ItemGain>, solution: seq<int>, best: ItemGain, fncValue: int)
    requires queue != []
    ensures var m := Top(queue);
            mg == Remove(queue, m) && solution == [queue[m].item] &&
            best == queue[m].(gain := 0) && fncValue == queue[m].gain
  {
    var m := Top(queue);
    best := queue[m];
    mg := Remove(queue, m);
    solution := [best.item];
    fncValue := best.gain;
    best := best.(gain := 0);
  }

  /** `findMax(k, numItems, f)`, with at most `fuel` turns of the loop. */
  method FindMax(k: int, numItems: int, f: SetFunction, fuel: nat) returns (r: Outcome)
    ensures r == Greedy(k, numItems, f, fuel)
  {
    var queue := FillQueue(numItems, f);
    if queue == [] {
      return NullPoll;
    }
    var mg, solution, best, fncValue := FirstPoll(queue);
    assert Init(numItems, f) == Some(State(mg, solution, best, fncValue));
    var partial := GetPartialSolution(solution);
    assert partial[..|solution|] == (solution + [0])[..|solution|];
    r := RunLoop(State(mg, solution, best, fncValue), partial, f, k, fuel);
  }

  /** One turn of the loop from state s with `steps` turns left: either
      the loop stops here with its outcome, or what is left of the loop
      from the new state with one turn less is what was left from s. */
  method LoopTurn(s: State, partial: array<int>, f: SetFunction, k: int, steps: nat)
    returns (stop: Option<Outcome>, s': State, partial': array<int>, steps': nat)
    requires |s.solution| < k
    requires partial.Length == |s.solution| + 1 && partial[..|s.solution|] == s.solution
    modifies partial
    ensures stop.Some? ==> stop.value == Loop(s, f, k, steps)
    ensures stop.None? ==> steps' == steps - 1 && Step(s, f) == Some(s')
    ensures stop.None? ==> Loop(s', f, k, steps') == Loop(s, f, k, steps)
    ensures partial' == partial || fresh(partial')
    ensures partial'.Length == |s'.solution| + 1 && partial'[..|s'.solution|] == s'.solution
  {
    s', partial', steps' := s, partial, steps;
    if steps == 0 {
      return Some(OutOfFuel), s', partial', steps';
    }
    if s.queue == [] {
      return Some(NullPoll), s', partial', steps';
    }
    var mg, solution, best, fncValue;
    mg, solution, best, fncValue, partial' := Turn(s.queue, s.solution, s.best, s.fncValue, partial, f);
    s' := State(mg, solution, best, fncValue);
    LoopUnfold(s, s', f, k, steps);
    stop, steps' := None, steps - 1;
  }

  /** The loop of `findMax` from a given state, with at most `fuel` turns. */
  method RunLoop(s0: State, partial0: array<int>, f: SetFunction, k: int, fuel: nat) returns (r: Outcome)
    requires partial0.Length == |s0.solution| + 1 && partial0[..|s0.solution|] == s0.solution
    modifies partial0
    ensures r == Loop(s0, f, k, fuel)
  {
    var s, partial := s0, partial0;
    var steps := fuel;
    while |s.solution| < k
      invariant partial == partial0 || fresh(partial)
      invariant partial.Length == |s.solution| + 1 && partial[..|s.solution|] == s.solution
      invariant Loop(s, f, k, steps) == Loop(s0, f, k, fuel)
      decreases steps
    {
      var stop;
      stop, s, partial, steps := LoopTurn(s, partial, f, k, steps);
      if stop.Some? {
        return stop.value;
      }
    }
    var x := Utils.IntListToArray(s.solution);
    assert x == s.solution;
    r := Done(x);
  }

  // ---------------------------------------------------------------------
  // The appended item stays `best`
  // ---------------------------------------------------------------------

  /** The set function that is 1 on every non-empty item array. */
  function One(): SetFunction
  {
    SetFunction(_ => 1, items => if |items| > 0 then 1 else 0)
  }

  /** After item 0 is appended its gain is reset to 0 but it stays `best`;
      the recomputed gain of item 1 is 0, which does not beat it, so item 0
      is appended a second time. */
  lemma GreedyRepeatsItem()
    ensures Greedy(2, 2, One(), 2) == Done([0, 0])
  {
    var f := One();
    var q := InitQueue(2, f);
    assert q == [ItemGain(0, 1), ItemGain(1, 1)];
    assert Top(q) == 0;
    assert Remove(q, 0) == [ItemGain(1, 1)];
    var s0 := State([ItemGain(1, 1)], [0], ItemGain(0, 0), 1);
    assert Init(2, f) == Some(s0);
    assert Top(s0.queue) == 0 && Remove(s0.queue, 0) == [];
    assert Recompute(f, [0], 1, ItemGain(1, 1)) == ItemGain(1, 0) by {
      assert |[0] + [1]| > 0;
    }
    var s1 := State([ItemGain(1, 0)], [0], ItemGain(0, 0), 1);
    assert [] + [ItemGain(1, 0)] == [ItemGain(1, 0)];
    assert Step(s0, f) == Some(s1);
    assert Top(s1.queue) == 0 && Remove(s1.queue, 0) == [];
    var s2 := State([ItemGain(1, 0)], [0, 0], ItemGain(0, 0), 1);
    assert [0] + [0] == [0, 0];
    assert Step(s1, f) == Some(s2);
    assert Loop(s2, f, 2, 0) == Done([0, 0]);
    assert Loop(s1, f, 2, 1) == Done([0, 0]);
  }

  /** The state of the loop with the appended item dropped: `best` is
      `None` until a polled item has been re-evaluated. */
  datatype LazyState = LazyState(queue: seq<ItemGain>, solution: seq<int>, best: Option<ItemGain>, fncValue: int)

  function LazyInit(numItems: int, f: SetFunction): (r: Option<LazyState>)
    ensures r.None? <==> numItems <= 0
  {
    if numItems <= 0 then None
    else
      var q := InitQueue(numItems, f);
      var m := Top(q);
      Some(LazyState(Remove(q, m), [q[m].item], None, q[m].gain))
  }

  /** One turn: with no `best` the polled item is re-evaluated and becomes
      `best`; otherwise as `findMax`, except that the appended item leaves
      the search and an empty queue means nothing beats `best`. */
  function LazyStep(s: LazyState, f: SetFunction): (r: Option<LazyState>)
    ensures r.None? <==> s.queue == [] && s.best.None?
  {
    if s.queue == [] then
      match s.best
      case None => None
      case Some(b) => Some(LazyState(s.queue, s.solution + [b.item], None, s.fncValue + b.gain))
    else
      var m := Top(s.queue);
      var top := s.queue[m];
      var rest := Remove(s.queue, m);
      match s.best
      case None => Some(LazyState(rest, s.solution, Some(Recompute(f, s.solution, s.fncValue, top)), s.fncValue))
      case Some(b) =>
        if top.gain <= b.gain then
          Some(LazyState(rest + [top], s.solution + [b.item], None, s.fncValue + b.gain))
        else
          var top' := Recompute(f, s.solution, s.fncValue, top);
          if top'.gain > b.gain then Some(LazyState(rest + [b], s.solution, Some(top'), s.fncValue))
          else Some(LazyState(rest + [top'], s.solution, s.best, s.fncValue))
  }

  function LazyLoop(s: LazyState, f: SetFunction, k: int, fuel: nat): Outcome
    decreases fuel
  {
    if |s.solution| >= k then Done(s.solution)
    else if fuel == 0 then OutOfFuel
    else match LazyStep(s, f)
      case None => NullPoll
      case Some(s') => LazyLoop(s', f, k, fuel - 1)
  }

  /** The corrected `findMax(k, numItems, f)`. */
  function LazyGreedy(k: int, numItems: int, f: SetFunction, fuel: nat): Outcome
  {
    match LazyInit(numItems, f)
    case None => NullPoll
    case Some(s) => LazyLoop(s, f, k, fuel)
  }

  /** The items of a queue, in queue order. */
  function Items(q: seq<ItemGain>): (r: seq<int>)
    ensures |r| == |q| && forall i :: 0 <= i < |q| ==> r[i] == q[i].item
  {
    seq(|q|, i requires 0 <= i < |q| => q[i].item)
  }

  /** The items of a queue, with their multiplicities. */
  function ItemBag(q: seq<ItemGain>): multiset<int>
  {
    multiset(Items(q))
  }

  lemma ItemBagAppend(a: seq<ItemGain>, e: ItemGain)
    ensures ItemBag(a + [e]) == ItemBag(a) + multiset{e.item}
  {
    assert Items(a + [e]) == Items(a) + [e.item];
  }

  lemma ItemBagRemove(q: seq<ItemGain>, m: int)
    requires 0 <= m < |q|
    ensures ItemBag(q) == ItemBag(Remove(q, m)) + multiset{q[m].item}
  {
    var s := Items(q);
    assert s == s[..m] + [s[m]] + s[m + 1..];
    assert Items(Remove(q, m)) == s[..m] + s[m + 1..];
  }

  /** The queue of `InitQueue` holds the items `0..numItems` once each. */
  lemma InitBag(numItems: nat, f: SetFunction, x: int)
    ensures ItemBag(InitQueue(numItems, f))[x] == (if 0 <= x < numItems then 1 else 0)
  {
    var s := Items(InitQueue(numItems, f));
    if 0 <= x < numItems {
      assert s == s[..x] + [x] + s[x + 1..];
      NotIn(s[..x], x, 0);
      NotIn(s[x + 1..], x, x + 1);
    } else {
      assert x !in s;
    }
  }

  /** A run of consecutive ids from `lo` misses every id outside it. */
  lemma NotIn(s: seq<int>, x: int, lo: int)
    requires forall i :: 0 <= i < |s| ==> s[i] == lo + i
    requires !(lo <= x < lo + |s|)
    ensures multiset(s)[x] == 0
  {
    assert x !in s;
  }

  /** What the appended item leaves: every item once, in the queue, in
      `best` or in the solution. */
  function Pool(s: LazyState): multiset<int>
  {
    ItemBag(s.queue) + BestBag(s.best) + multiset(s.solution)
  }

  ghost predicate LazyInv(s: LazyState, numItems: int, k: int)
  {
    (forall x :: Pool(s)[x] == (if 0 <= x < numItems then 1 else 0)) &&
    (|s.solution| <= k || |s.solution| == 1) && |s.solution| >= 1
  }

  lemma LazyInitInv(numItems: int, f: SetFunction, k: int)
    requires numItems >= 1
    ensures LazyInv(LazyInit(numItems, f).value, numItems, k)
  {
    var q := InitQueue(numItems, f);
    var m := Top(q);
    ItemBagRemove(q, m);
    assert Pool(LazyInit(numItems, f).value) == ItemBag(q);
    forall x ensures ItemBag(q)[x] == (if 0 <= x < numItems then 1 else 0) {
      InitBag(numItems, f, x);
    }
  }

  /** Appending `best` moves its item from `best` to the solution. */
  lemma PoolAppend(s: LazyState, queue: seq<ItemGain>, b: ItemGain, fncValue: int)
    requires s.best == Some(b)
    requires ItemBag(queue) == ItemBag(s.queue)
    ensures Pool(LazyState(queue, s.solution + [b.item], None, fncValue)) == Pool(s)
  {
    assert multiset(s.solution + [b.item]) == multiset(s.solution) + multiset{b.item};
  }

  lemma ItemBagConcat(a: seq<ItemGain>, b: seq<ItemGain>)
    ensures ItemBag(a + b) == ItemBag(a) + ItemBag(b)
  {
    assert Items(a + b) == Items(a) + Items(b);
  }

  /** `best` as a bag of at most one item. */
  function BestBag(best: Option<ItemGain>): multiset<int>
  {
    if best.Some? then multiset{best.value.item} else multiset{}
  }

  /** Polling `m` and putting `back` into the queue and `best'` into `best`. */
  lemma PoolExchange(s: LazyState, m: int, back: seq<ItemGain>, best': Option<ItemGain>)
    requires 0 <= m < |s.queue|
    requires ItemBag(back) + BestBag(best') == multiset{s.queue[m].item} + BestBag(s.best)
    ensures Pool(LazyState(Remove(s.queue, m) + back, s.solution, best', s.fncValue)) == Pool(s)
  {
    var r := Remove(s.queue, m);
    ItemBagRemove(s.queue, m);
    ItemBagConcat(r, back);
    calc {
      Pool(LazyState(r + back, s.solution, best', s.fncValue));
      ItemBag(r) + (ItemBag(back) + BestBag(best')) + multiset(s.solution);
      ItemBag(r) + (multiset{s.queue[m].item} + BestBag(s.best)) + multiset(s.solution);
      Pool(s);
    }
  }

  lemma SingleBag(e: ItemGain)
    ensures ItemBag([e]) == multiset{e.item}
  {
    assert Items([e]) == [e.item];
  }

  lemma LazyStepPool(s: LazyState, f: SetFunction)
    requires LazyStep(s, f).Some?
    ensures Pool(LazyStep(s, f).value) == Pool(s)
  {
    var s' := LazyStep(s, f).value;
    if s.queue == [] {
      PoolAppend(s, s.queue, s.best.value, s'.fncValue);
    } else {
      var m := Top(s.queue);
      var top := s.queue[m];
      var top' := Recompute(f, s.solution, s.fncValue, top);
      SingleBag(top);
      SingleBag(top');
      assert ItemBag([]) == multiset{};
      match s.best
      case None =>
        assert Remove(s.queue, m) + [] == Remove(s.queue, m);
        PoolExchange(s, m, [], Some(top'));
      case Some(b) =>
        SingleBag(b);
        if top.gain <= b.gain {
          var t := LazyState(Remove(s.queue, m) + [top], s.solution, s.best, s.fncValue);
          PoolExchange(s, m, [top], s.best);
          PoolAppend(t, t.queue, b, s'.fncValue);
        } else if top'.gain > b.gain {
          PoolExchange(s, m, [b], Some(top'));
        } else {
          PoolExchange(s, m, [top'], s.best);
        }
    }
  }

  lemma LazyStepInv(s: LazyState, f: SetFunction, numItems: int, k: int)
    requires LazyInv(s, numItems, k) && |s.solution| < k && LazyStep(s, f).Some?
    ensures LazyInv(LazyStep(s, f).value, numItems, k)
  {
    LazyStepPool(s, f);
  }

  /** From a state of the corrected loop the queue is never polled empty
      while items are still missing. */
  lemma {:induction false} LazyLoopDone(s: LazyState, f: SetFunction, k: int, fuel: nat, numItems: int)
    returns (t: LazyState)
    requires LazyInv(s, numItems, k) && k <= numItems
    ensures LazyLoop(s, f, k, fuel) != NullPoll
    ensures LazyLoop(s, f, k, fuel).Done? ==>
              LazyInv(t, numItems, k) && t.solution == LazyLoop(s, f, k, fuel).solution && |t.solution| >= k
    decreases fuel
  {
    t := s;
    if |s.solution| < k && fuel >= 1 {
      LazyStepSome(s, f, numItems, k);
      LazyStepInv(s, f, numItems, k);
      t := LazyLoopDone(LazyStep(s, f).value, f, k, fuel - 1, numItems);
    }
  }

  /** The pool holds `numItems` items. */
  lemma PoolSize(s: LazyState, numItems: int)
    requires forall x :: Pool(s)[x] == (if 0 <= x < numItems then 1 else 0)
    ensures |Pool(s)| == (if numItems > 0 then numItems else 0)
  {
    var n := if numItems > 0 then numItems else 0;
    var q := InitQueue(n, One());
    forall x ensures ItemBag(q)[x] == Pool(s)[x] {
      InitBag(n, One(), x);
    }
    assert ItemBag(q) == Pool(s);
  }

  /** While items are missing, something is left to poll or to append. */
  lemma LazyStepSome(s: LazyState, f: SetFunction, numItems: int, k: int)
    requires LazyInv(s, numItems, k) && |s.solution| < numItems
    ensures LazyStep(s, f).Some?
  {
    PoolSize(s, numItems);
    assert |Pool(s)| == |s.queue| + (if s.best.Some? then 1 else 0) + |s.solution|;
  }

  /** An item at two positions is counted twice. */
  lemma CountTwice(sol: seq<int>, i: int, j: int)
    requires 0 <= i < j < |sol| && sol[i] == sol[j]
    ensures multiset(sol)[sol[i]] >= 2
  {
    var a, b := sol[..j], sol[j..];
    assert sol == a + b;
    assert a[i] == sol[i] && b[0] == sol[j];
    assert sol[i] in a && sol[j] in b;
  }

  /** Items counted at most once never repeat. */
  lemma Distinct(sol: seq<int>)
    requires forall x :: multiset(sol)[x] <= 1
    ensures forall i, j :: 0 <= i < j < |sol| ==> sol[i] != sol[j]
  {
    forall i, j | 0 <= i < j < |sol| ensures sol[i] != sol[j] {
      if sol[i] == sol[j] {
        CountTwice(sol, i, j);
      }
    }
  }

  /** The corrected loop returns `k` distinct item ids, and with at least
      `k` items it never polls an empty queue. */
  lemma LazyGreedySolution(k: int, numItems: int, f: SetFunction, fuel: nat)
    requires 1 <= k <= numItems
    ensures LazyGreedy(k, numItems, f, fuel) != NullPoll
    ensures LazyGreedy(k, numItems, f, fuel).Done? ==>
              var sol := LazyGreedy(k, numItems, f, fuel).solution;
              |sol| == k &&
              (forall i :: 0 <= i < |sol| ==> 0 <= sol[i] < numItems) &&
              (forall i, j :: 0 <= i < j < |sol| ==> sol[i] != sol[j])
  {
    LazyInitInv(numItems, f, k);
    var t := LazyLoopDone(LazyInit(numItems, f).value, f, k, fuel, numItems);
    if LazyGreedy(k, numItems, f, fuel).Done? {
      var sol := t.solution;
      assert multiset(sol) <= Pool(t);
      forall x ensures multiset(sol)[x] <= 1 {
        assert multiset(sol)[x] <= Pool(t)[x];
      }
      Distinct(sol);
      forall i | 0 <= i < |sol| ensures 0 <= sol[i] < numItems {
        assert multiset(sol)[sol[i]] <= Pool(t)[sol[i]];
      }
    }
  }

  /** On the input that repeats item 0, the corrected loop picks both items. */
  lemma LazyGreedyDistinctItems()
    ensures LazyGreedy(2, 2, One(), 2) == Done([0, 1])
  {
    var f := One();
    var q := InitQueue(2, f);
    assert q == [ItemGain(0, 1), ItemGain(1, 1)];
    assert Top(q) == 0;
    assert Remove(q, 0) == [ItemGain(1, 1)];
    var s0 := LazyState([ItemGain(1, 1)], [0], None, 1);
    assert LazyInit(2, f) == Some(s0);
    assert Top(s0.queue) == 0 && Remove(s0.queue, 0) == [];
    assert Recompute(f, [0], 1, ItemGain(1, 1)) == ItemGain(1, 0) by {
      assert |[0] + [1]| > 0;
    }
    var s1 := LazyState([], [0], Some(ItemGain(1, 0)), 1);
    assert LazyStep(s0, f) == Some(s1);
    var s2 := LazyState([], [0, 1], None, 1);
    assert [0] + [1] == [0, 1];
    assert LazyStep(s1, f) == Some(s2);
    assert LazyLoop(s2, f, 2, 0) == Done([0, 1]);
    assert LazyLoop(s1, f, 2, 1) == Done([0, 1]);
  }
}
