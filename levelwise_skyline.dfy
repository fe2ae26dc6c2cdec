/** LevelwiseSkyline: the approximate skyline built level by level.  Level 1
    evaluates every singleton; each further level extends every point of
    the previous skyline by one absent item, and keeps, in sum order, the
    candidates whose value is strictly above every value kept before. */
module LevelwiseSkyline {
  import opened ExtInt
  import Utils
  import E = Evaluator
  import SP = SkylinePoint
  import PU = PointUtils

  /** An item set of the search: ascending without repeats, each item below
      numItems. */
  predicate IsItemSet(s: seq<int>, numItems: int)
  {
    (forall i, j :: 0 <= i < j < |s| ==> s[i] < s[j]) &&
    (forall i :: 0 <= i < |s| ==> 0 <= s[i] < numItems)
  }

  /** `new SkylinePoint(c.set, eval.sumFnc(c.set), eval.submodularFnc(c.set))`. */
  function Evaluate(o: E.Oracle, c: seq<int>): SP.Point
  {
    SP.Point(c, o.sumSet(c), o.submSet(c))
  }

  function EvaluateAll(o: E.Oracle, cs: seq<seq<int>>): (ps: seq<SP.Point>)
    ensures |ps| == |cs| && forall i :: 0 <= i < |cs| ==> ps[i] == Evaluate(o, cs[i])
  {
    seq(|cs|, i requires 0 <= i < |cs| => Evaluate(o, cs[i]))
  }

  /** A point of level `size`: an item set of that size with its two values. */
  predicate Evaluated(o: E.Oracle, p: SP.Point, size: int)
  {
    |p.items| == size && IsItemSet(p.items, o.numItems) && p == Evaluate(o, p.items)
  }

  /** `getSetComparator(eval)`: ascending sum for min-sum, descending for
      max-sum (the sign of the sum difference), as a sort key. */
  function SetKey(o: E.Oracle): seq<int> -> int
  {
    c => if o.maxSum then -o.sumSet(c) else o.sumSet(c)
  }

  /** The first loop of `computeSkyline`: one candidate {i} per item. */
  method InitialCandidates(numItems: int) returns (candidates: set<seq<int>>)
    ensures candidates == set i | 0 <= i < numItems :: [i]
  {
    candidates := {};
    var i := 0;
    while i < numItems
      invariant 0 <= i && (i <= numItems || i == 0)
      invariant candidates == set t | 0 <= t < i :: [t]
    {
      candidates := candidates + {[i]};
      i := i + 1;
    }
  }

  /** `candidates.toArray(...)`: the set's elements once each, in an order
      the hash set chooses and the model leaves open. */
  method ToArray(candidates: set<seq<int>>) returns (arr: seq<seq<int>>)
    ensures |arr| == |candidates|
    ensures forall c :: c in arr <==> c in candidates
    ensures forall i, j :: 0 <= i < j < |arr| ==> arr[i] != arr[j]
  {
    arr := [];
    var rest := candidates;
    while rest != {}
      invariant rest <= candidates && |arr| + |rest| == |candidates|
      invariant forall c :: c in arr <==> c in candidates && c !in rest
      invariant forall i, j :: 0 <= i < j < |arr| ==> arr[i] != arr[j]
      decreases |rest|
    {
      var c :| c in rest;
      arr := arr + [c];
      rest := rest - {c};
    }
  }

  /** `updateSkyline(candidates, eval)`: the candidates in sum order (arr
      is the hash set's order, which the stable sort keeps among equal
      sums), and among them each one whose value is strictly above every
      value kept before it. */
  method UpdateSkyline(candidates: set<seq<int>>, o: E.Oracle)
    returns (skyline: seq<SP.Point>, ghost arr: seq<seq<int>>)
    ensures |arr| == |candidates| && (forall c :: c in arr <==> c in candidates)
    ensures skyline == PU.Records(EvaluateAll(o, Utils.SortBy(arr, SetKey(o))), true)
  {
    var candidateOrder := ToArray(candidates);
    arr := candidateOrder;
    var candArray := Utils.SortBy(candidateOrder, SetKey(o));
    ghost var sorted := EvaluateAll(o, candArray);
    skyline := [];
    var submBest := NegInf;
    var m := 0;
    while m < |candArray|
      invariant 0 <= m <= |candArray|
      invariant m == 0 ==> skyline == [] && submBest == NegInf
      invariant m > 0 ==>
                  submBest.Fin? && skyline + PU.KeepFrom(sorted[m..], submBest.v, true) == PU.Records(sorted, true)
    {
      var c := candArray[m];
      var psubv := o.submSet(c);
      RecordsStep(sorted, m, skyline, submBest);
      if Lt(submBest, Fin(psubv)) {
        skyline := skyline + [SP.Point(c, o.sumSet(c), psubv)];
        submBest := Fin(psubv);
      }
      m := m + 1;
    }
    if m > 0 {
      assert sorted[m..] == [];
    }
  }

  /** One step of the scan of updateSkyline: the point at m is kept when
      its value is above the best value so far, which it then becomes. */
  lemma RecordsStep(sorted: seq<SP.Point>, m: int, skyline: seq<SP.Point>, best: XInt)
    requires 0 <= m < |sorted|
    requires m == 0 ==> skyline == [] && best == NegInf
    requires m > 0 ==> best.Fin? && skyline + PU.KeepFrom(sorted[m..], best.v, true) == PU.Records(sorted, true)
    ensures Lt(best, Fin(sorted[m].submValue)) ==>
              (skyline + [sorted[m]]) + PU.KeepFrom(sorted[m + 1..], sorted[m].submValue, true) == PU.Records(sorted, true)
    ensures !Lt(best, Fin(sorted[m].submValue)) ==>
              m > 0 && skyline + PU.KeepFrom(sorted[m + 1..], best.v, true) == PU.Records(sorted, true)
  {
    if m > 0 {
      KeepFromAt(sorted, m, best.v);
      AppendAssoc(skyline, [sorted[m]], PU.KeepFrom(sorted[m + 1..], sorted[m].submValue, true));
    }
  }

  /** The scan from position m looks at the point at m, then goes on from
      m + 1. */
  lemma KeepFromAt(s: seq<SP.Point>, m: int, best: int)
    requires 0 <= m < |s|
    ensures PU.KeepFrom(s[m..], best, true) ==
            if s[m].submValue > best then [s[m]] + PU.KeepFrom(s[m + 1..], s[m].submValue, true)
            else PU.KeepFrom(s[m + 1..], best, true)
  {
    assert s[m..][1..] == s[m + 1..];
  }

  lemma AppendAssoc(a: seq<SP.Point>, b: seq<SP.Point>, c: seq<SP.Point>)
    ensures (a + b) + c == a + (b + c)
  {
  }

  /** The kept points are candidates with their values, in sum order, with
      strictly rising values, and exactly those whose value is above every
      value before them in sum order. */
  lemma UpdateSkylineProperties(o: E.Oracle, arr: seq<seq<int>>)
    ensures var s := EvaluateAll(o, Utils.SortBy(arr, SetKey(o)));
            var r := PU.Records(s, true);
            r == PU.RecordFilter(s, true) &&
            (forall p :: p in r ==> p.items in arr && p == Evaluate(o, p.items)) &&
            Utils.SortedBy(r, PU.SumKey(o.maxSum)) &&
            (forall i :: 0 < i < |r| ==> r[i - 1].submValue < r[i].submValue)
  {
    var sortedArr := Utils.SortBy(arr, SetKey(o));
    var s := EvaluateAll(o, sortedArr);
    PU.RecordsIsFilter(s, true);
    PU.RecordFilterMembers(s, true);
    forall i, j | 0 <= i < j < |s| ensures PU.SumKey(o.maxSum)(s[i]) <= PU.SumKey(o.maxSum)(s[j]) {
      assert SetKey(o)(sortedArr[i]) <= SetKey(o)(sortedArr[j]);
    }
    PU.RecordFilterSorted(s, true, PU.SumKey(o.maxSum));
    PU.RecordsRise(s, true);
    forall p | p in PU.Records(s, true) ensures p.items in arr && p == Evaluate(o, p.items) {
      var i :| 0 <= i < |s| && s[i] == p;
      assert sortedArr[i] in multiset(arr);
    }
  }

  /** The extensions of one point: it plus one absent item below numItems. */
  ghost function Extensions(p: SP.Point, numItems: int): set<seq<int>>
  {
    set x | 0 <= x < numItems && x !in p.items :: SP.Extend(p, x)
  }

  /** The extensions of all the points. */
  ghost function AllExtensions(skyline: seq<SP.Point>, numItems: int): set<seq<int>>
  {
    if skyline == [] then {}
    else AllExtensions(skyline[..|skyline| - 1], numItems) + Extensions(skyline[|skyline| - 1], numItems)
  }

  /** c extends some point of the skyline by an absent item below numItems. */
  ghost predicate IsExtension(skyline: seq<SP.Point>, numItems: int, c: seq<int>)
  {
    exists p, x :: p in skyline && 0 <= x < numItems && x !in p.items && c == SP.Extend(p, x)
  }

  lemma AllExtensionsMembers(skyline: seq<SP.Point>, numItems: int, c: seq<int>)
    ensures c in AllExtensions(skyline, numItems) <==> IsExtension(skyline, numItems, c)
  {
    if c in AllExtensions(skyline, numItems) {
      var i := AllExtensionsOwner(skyline, numItems, c);
      var x := ExtensionsWitness(skyline[i], numItems, c);
    }
    if IsExtension(skyline, numItems, c) {
      var p, x :| p in skyline && 0 <= x < numItems && x !in p.items && c == SP.Extend(p, x);
      AllExtensionsHas(skyline, numItems, p, x);
    }
  }

  /** Each member of the union is an extension of a point of the skyline. */
  lemma {:induction false} AllExtensionsOwner(skyline: seq<SP.Point>, numItems: int, c: seq<int>)
    returns (i: nat)
    requires c in AllExtensions(skyline, numItems)
    ensures i < |skyline| && c in Extensions(skyline[i], numItems)
  {
    var init, last := AllExtensionsSplit(skyline, numItems, c);
    if c in AllExtensions(init, numItems) {
      i := AllExtensionsOwner(init, numItems, c);
      assert init[i] == skyline[i];
    } else {
      i := |skyline| - 1;
    }
  }

  /** A member of the union belongs to the union over all points but the
      last, or to the last point's extensions. */
  lemma AllExtensionsSplit(skyline: seq<SP.Point>, numItems: int, c: seq<int>)
    returns (init: seq<SP.Point>, last: SP.Point)
    requires c in AllExtensions(skyline, numItems)
    ensures skyline != [] && init == skyline[..|skyline| - 1] && last == skyline[|skyline| - 1]
    ensures c in AllExtensions(init, numItems) || c in Extensions(last, numItems)
  {
    init, last := skyline[..|skyline| - 1], skyline[|skyline| - 1];
  }

  /** Each extension of one point comes from an absent item. */
  lemma ExtensionsWitness(p: SP.Point, numItems: int, c: seq<int>) returns (x: int)
    requires c in Extensions(p, numItems)
    ensures 0 <= x < numItems && x !in p.items && c == SP.Extend(p, x)
  {
    x :| 0 <= x < numItems && x !in p.items && c == SP.Extend(p, x);
  }

  /** Each extension of a point of the skyline is in the union. */
  lemma {:induction false} AllExtensionsHas(skyline: seq<SP.Point>, numItems: int, p: SP.Point, x: int)
    requires p in skyline && 0 <= x < numItems && x !in p.items
    ensures SP.Extend(p, x) in AllExtensions(skyline, numItems)
  {
    var init := skyline[..|skyline| - 1];
    var last := skyline[|skyline| - 1];
    if p == last {
      assert SP.Extend(p, x) in Extensions(last, numItems);
    } else {
      var i :| 0 <= i < |skyline| && skyline[i] == p;
      assert init[i] == p;
      AllExtensionsHas(init, numItems, p, x);
    }
  }

  /** `updateCandidates(skyline, eval)`: every extension set of every point,
      each once (the hash set compares item arrays). */
  method UpdateCandidates(skyline: seq<SP.Point>, numItems: int) returns (candidates: set<seq<int>>)
    ensures candidates == AllExtensions(skyline, numItems)
    ensures forall c :: c in candidates <==> IsExtension(skyline, numItems, c)
  {
    candidates := {};
    var t := 0;
    while t < |skyline|
      invariant 0 <= t <= |skyline|
      invariant candidates == AllExtensions(skyline[..t], numItems)
    {
      candidates := AddExtensions(candidates, skyline[t], numItems);
      AllExtensionsStep(skyline, numItems, t);
      t := t + 1;
    }
    assert skyline[..t] == skyline;
    AllExtensionsIff(skyline, numItems);
  }

  lemma AllExtensionsStep(skyline: seq<SP.Point>, numItems: int, t: int)
    requires 0 <= t < |skyline|
    ensures AllExtensions(skyline[..t + 1], numItems) ==
            AllExtensions(skyline[..t], numItems) + Extensions(skyline[t], numItems)
  {
    assert skyline[..t + 1][..t] == skyline[..t];
  }

  lemma AllExtensionsIff(skyline: seq<SP.Point>, numItems: int)
    ensures forall c :: c in AllExtensions(skyline, numItems) <==> IsExtension(skyline, numItems, c)
  {
    forall c ensures c in AllExtensions(skyline, numItems) <==> IsExtension(skyline, numItems, c) {
      AllExtensionsMembers(skyline, numItems, c);
    }
  }

  /** The inner loop of updateCandidates: adds the extension sets of p. */
  method AddExtensions(candidates: set<seq<int>>, p: SP.Point, numItems: int) returns (r: set<seq<int>>)
    ensures r == candidates + Extensions(p, numItems)
  {
    var ext := SP.ExtensionSets(p, numItems);
    r := AddAll(candidates, ext);
    ExtensionSetsSet(p, numItems, ext);
  }

  /** Adds each set of the list to the hash set. */
  method AddAll(candidates: set<seq<int>>, ext: seq<seq<int>>) returns (r: set<seq<int>>)
    ensures r == candidates + set c | c in ext
  {
    r := candidates;
    var j := 0;
    while j < |ext|
      invariant 0 <= j <= |ext|
      invariant r == candidates + set c | c in ext[..j]
    {
      assert ext[..j + 1] == ext[..j] + [ext[j]];
      r := r + {ext[j]};
      j := j + 1;
    }
    assert ext[..j] == ext;
  }

  /** The sets `extensionSets` lists are exactly the extensions. */
  lemma ExtensionSetsSet(p: SP.Point, numItems: int, ext: seq<seq<int>>)
    requires |ext| == |SP.Missing(p.items, 0, numItems)|
    requires forall t :: 0 <= t < |ext| ==> ext[t] == SP.Extend(p, SP.Missing(p.items, 0, numItems)[t])
    ensures (set c | c in ext) == Extensions(p, numItems)
  {
    forall c ensures c in ext <==> c in Extensions(p, numItems) {
      SP.ExtensionSetsMembers(p, numItems, c);
    }
  }

  /** `filterSkyline(skyline, maxSum)`: unchanged when it has at most
      skylineSize points, otherwise the hypervolume filter's choice. */
  function FilterSkyline(skyline: seq<SP.Point>, skylineSize: int, maxSum: bool,
                         hvFilter: (seq<SP.Point>, int, bool) -> seq<SP.Point>): (r: seq<SP.Point>)
    ensures |skyline| <= skylineSize ==> r == skyline
    ensures |skyline| > skylineSize ==> r == hvFilter(skyline, skylineSize, maxSum)
  {
    if |skyline| <= skylineSize then skyline else hvFilter(skyline, skylineSize, maxSum)
  }

  /** The hypervolume filter returns some of the points it is given. */
  ghost predicate Selects(hvFilter: (seq<SP.Point>, int, bool) -> seq<SP.Point>)
  {
    forall s, n, b, x :: x in hvFilter(s, n, b) ==> x in s
  }

  /** Inserting an absent item below numItems into an item set keeps it
      strictly ascending and in range. */
  lemma {:induction false} InsertItem(x: int, s: seq<int>, numItems: int)
    requires IsItemSet(s, numItems) && 0 <= x < numItems && x !in s
    requires Utils.SortedBy(s, SP.IntKey)
    ensures IsItemSet(Utils.InsertBy(x, s, SP.IntKey), numItems)
    decreases |s|
  {
    if s == [] || x < s[0] {
      ConsItem(x, s, numItems);
    } else {
      var tail := s[1..];
      assert Utils.SortedBy(tail, SP.IntKey);
      InsertItem(x, tail, numItems);
      var rest := Utils.InsertBy(x, tail, SP.IntKey);
      BelowAll(s[0], tail, x, rest);
      ConsItem(s[0], rest, numItems);
    }
  }

  /** An item below x and below every element of tail is below every
      element of a sequence holding tail and x. */
  lemma BelowAll(h: int, tail: seq<int>, x: int, rest: seq<int>)
    requires h < x && forall t :: 0 <= t < |tail| ==> h < tail[t]
    requires multiset(rest) == multiset(tail) + multiset{x}
    ensures forall t :: 0 <= t < |rest| ==> h < rest[t]
  {
    forall t | 0 <= t < |rest| ensures h < rest[t] {
      assert rest[t] in multiset(tail) + multiset{x};
    }
  }

  /** An item below every item of an item set heads a larger one. */
  lemma ConsItem(h: int, s: seq<int>, numItems: int)
    requires IsItemSet(s, numItems) && 0 <= h < numItems
    requires forall t :: 0 <= t < |s| ==> h < s[t]
    ensures IsItemSet([h] + s, numItems)
  {
  }

  /** Extending an item set by an absent item below numItems gives an item
      set one larger. */
  lemma ExtendItemSet(p: SP.Point, x: int, numItems: int)
    requires IsItemSet(p.items, numItems) && 0 <= x < numItems && x !in p.items
    ensures IsItemSet(SP.Extend(p, x), numItems) && |SP.Extend(p, x)| == |p.items| + 1
  {
    var s := p.items;
    assert Utils.SortedBy(s, SP.IntKey);
    assert SP.SortInts(s) == s by {
      SP.SortedUnique(SP.SortInts(s), s);
    }
    assert (s + [x])[..|s|] == s;
    assert SP.Extend(p, x) == Utils.InsertBy(x, Utils.SortBy(s, SP.IntKey), SP.IntKey);
    InsertItem(x, s, numItems);
  }

  /** The candidates of the next level are item sets one larger. */
  lemma NextLevel(o: E.Oracle, skyline: seq<SP.Point>, level: int, c: seq<int>)
    requires forall p :: p in skyline ==> Evaluated(o, p, level)
    requires c in AllExtensions(skyline, o.numItems)
    ensures IsItemSet(c, o.numItems) && |c| == level + 1
  {
    AllExtensionsMembers(skyline, o.numItems, c);
    var p, x :| p in skyline && 0 <= x < o.numItems && x !in p.items && c == SP.Extend(p, x);
    ExtendItemSet(p, x, o.numItems);
  }

  /** When every candidate is an item set of one size, every point
      updateSkyline keeps is an evaluated point of that size. */
  lemma KeptEvaluated(o: E.Oracle, arr: seq<seq<int>>, size: int)
    requires forall c :: c in arr ==> IsItemSet(c, o.numItems) && |c| == size
    ensures forall p :: p in PU.Records(EvaluateAll(o, Utils.SortBy(arr, SetKey(o))), true) ==>
              Evaluated(o, p, size)
  {
    UpdateSkylineProperties(o, arr);
  }

  /** `computeSkyline(k, eval, returnActual)`: k - 1 expansion levels after
      the singletons; `internal` is the skyline before the items are mapped
      back to the caller's ids. */
  method ComputeSkyline(k: int, o: E.Oracle, skylineSize: int,
                        hvFilter: (seq<SP.Point>, int, bool) -> seq<SP.Point>, returnActual: bool)
    returns (skyline: seq<SP.Point>, ghost internal: seq<SP.Point>)
    requires Selects(hvFilter)
    requires returnActual ==> |o.origItem| >= o.numItems
    ensures forall p :: p in internal ==> Evaluated(o, p, if k > 1 then k else 1)
    ensures !returnActual ==> skyline == internal
    ensures returnActual ==>
              |skyline| == |internal| &&
              forall t :: 0 <= t < |skyline| ==>
                |skyline[t].items| == |internal[t].items| &&
                skyline[t].sumValue == internal[t].sumValue && skyline[t].submValue == internal[t].submValue &&
                forall i :: 0 <= i < |skyline[t].items| ==>
                  0 <= internal[t].items[i] < |o.origItem| && skyline[t].items[i] == o.origItem[internal[t].items[i]]
  {
    skyline := FirstLevel(o);
    var level := 1;
    while level < k
      invariant 1 <= level && (level <= k || level == 1)
      invariant forall p :: p in skyline ==> Evaluated(o, p, level)
    {
      skyline := ExpandLevel(o, skyline, level, skylineSize, hvFilter);
      level := level + 1;
    }
    internal := skyline;
    if returnActual {
      skyline := PU.ToActualItemsAll(skyline, o.origItem);
    }
  }

  /** The first level of computeSkyline: the skyline of the singletons. */
  method FirstLevel(o: E.Oracle) returns (skyline: seq<SP.Point>)
    ensures forall p :: p in skyline ==> Evaluated(o, p, 1)
  {
    var candidates := InitialCandidates(o.numItems);
    ghost var arr;
    skyline, arr := UpdateSkyline(candidates, o);
    forall c | c in arr ensures IsItemSet(c, o.numItems) && |c| == 1 {
      assert c in candidates;
    }
    KeptEvaluated(o, arr, 1);
  }

  /** One pass of the level loop of computeSkyline: the skyline of the
      extensions of the current skyline, passed through the filter. */
  method ExpandLevel(o: E.Oracle, skyline: seq<SP.Point>, level: int, skylineSize: int,
                     hvFilter: (seq<SP.Point>, int, bool) -> seq<SP.Point>)
    returns (next: seq<SP.Point>)
    requires Selects(hvFilter)
    requires forall p :: p in skyline ==> Evaluated(o, p, level)
    ensures forall p :: p in next ==> Evaluated(o, p, level + 1)
  {
    var candidates := UpdateCandidates(skyline, o.numItems);
    ghost var arr;
    next, arr := UpdateSkyline(candidates, o);
    forall c | c in arr ensures IsItemSet(c, o.numItems) && |c| == level + 1 {
      NextLevel(o, skyline, level, c);
    }
    KeptEvaluated(o, arr, level + 1);
    next := FilterSkyline(next, skylineSize, o.maxSum, hvFilter);
  }
}
