/** FastSkyline: the approximate skyline grown one level at a time from the
    level-1 skyline.  Each level merges, in sum order, one lazy stream of
    extensions per point of the previous skyline; an extension is evaluated
    only if an upper bound on its marginal gain can still beat the running
    maximum, and kept only if its value strictly beats it. */
module FastSkyline {
  import opened ExtInt
  import opened Wrappers
  import E = Evaluator
  import SP = SkylinePoint
  import PU = PointUtils
  import L = LevelwiseSkyline
  import ES = ExactSkyline
  import Utils

  // ---------------------------------------------------------------------
  // MarginalGainUB

  /** A recorded gain of `item` on top of `point`. */
  datatype SetGainPair = SetGainPair(point: SP.Point, gain: int)

  /** point is a strictly smaller subset of base. */
  predicate SmallerSubset(point: SP.Point, base: SP.Point)
  {
    |point.items| < |base.items| && forall x :: x in point.items ==> x in base.items
  }

  /** The value of `mingain` after the scan of `boundExceedsMax` has seen
      all of gains: a recorded gain replaces it when it is smaller and was
      recorded on a smaller subset of base. */
  function MinGain(base: SP.Point, gains: seq<SetGainPair>, mingain: int): (r: int)
    ensures r <= mingain
  {
    if gains == [] then mingain
    else
      var g := gains[0];
      MinGain(base, gains[1..], if g.gain < mingain && SmallerSubset(g.point, base) then g.gain else mingain)
  }

  /** By submodularity a gain on a subset bounds the gain on base, so the
      bound is the least of the singleton value and the gains recorded on
      smaller subsets, and it is one of them. */
  lemma {:induction false} MinGainIsMin(base: SP.Point, gains: seq<SetGainPair>, mingain: int)
    ensures forall t :: 0 <= t < |gains| && SmallerSubset(gains[t].point, base) ==>
              MinGain(base, gains, mingain) <= gains[t].gain
    ensures MinGain(base, gains, mingain) == mingain ||
            exists t :: 0 <= t < |gains| && SmallerSubset(gains[t].point, base) &&
              MinGain(base, gains, mingain) == gains[t].gain
  {
    if gains != [] {
      var g := gains[0];
      var m := if g.gain < mingain && SmallerSubset(g.point, base) then g.gain else mingain;
      MinGainIsMin(base, gains[1..], m);
      var r := MinGain(base, gains, mingain);
      assert r == MinGain(base, gains[1..], m);
      forall t | 0 <= t < |gains| && SmallerSubset(gains[t].point, base) ensures r <= gains[t].gain {
        if t > 0 {
          assert gains[1..][t - 1] == gains[t];
        }
      }
      if r != mingain && r != m {
        var u :| 0 <= u < |gains[1..]| && SmallerSubset(gains[1..][u].point, base) && r == gains[1..][u].gain;
        assert gains[u + 1] == gains[1..][u];
      }
    }
  }

  /** The largest singleton value among the items i..n-1. */
  function MaxFrom(f: int -> int, i: int, n: int): (r: int)
    requires i < n
    ensures forall j :: i <= j < n ==> f(j) <= r
    ensures exists j :: i <= j < n && f(j) == r
    decreases n - i
  {
    if i == n - 1 then f(i)
    else
      var rest := MaxFrom(f, i + 1, n);
      if f(i) >= rest then f(i) else rest
  }

  /** `initUnitBound(eval)`: entry i is the largest singleton value among the
      items from i on.  An empty item set makes Java write index -1. */
  method InitUnitBound(o: E.Oracle) returns (ub: seq<int>)
    requires o.numItems >= 1
    ensures |ub| == o.numItems
    ensures forall i :: 0 <= i < o.numItems ==> ub[i] == MaxFrom(o.submItem, i, o.numItems)
  {
    var n: int := o.numItems;
    var a := new int[n];
    a[n - 1] := o.submItem(n - 1);
    var i: int := n - 2;
    while i >= 0
      invariant -1 <= i <= n - 2
      invariant forall t :: i < t < n ==> a[t] == MaxFrom(o.submItem, t, n)
    {
      var s := o.submItem(i);
      a[i] := if s >= a[i + 1] then s else a[i + 1];
      i := i - 1;
    }
    ub := a[..];
  }

  /** The unit bounds do not increase along the items. */
  lemma UnitBoundNonIncreasing(f: int -> int, i: int, j: int, n: int)
    requires 0 <= i <= j < n
    ensures MaxFrom(f, j, n) <= MaxFrom(f, i, n)
  {
    var w :| j <= w < n && f(w) == MaxFrom(f, j, n);
  }

  class MarginalGainUB {
    const unitBound: seq<int>
    const singleItemSubmValue: seq<int>
    var subsetGain: seq<seq<SetGainPair>>

    /** One bound, one singleton value and one gain list per item. */
    ghost predicate Valid()
      reads this
    {
      |singleItemSubmValue| == |unitBound| && |subsetGain| == |unitBound|
    }

    constructor (o: E.Oracle)
      requires o.numItems >= 1
      ensures Valid() && |unitBound| == o.numItems
      ensures forall i :: 0 <= i < o.numItems ==> unitBound[i] == MaxFrom(o.submItem, i, o.numItems)
      ensures forall i :: 0 <= i < o.numItems ==> singleItemSubmValue[i] == o.submItem(i)
      ensures forall i :: 0 <= i < o.numItems ==> subsetGain[i] == []
    {
      var ub := InitUnitBound(o);
      var gains: seq<seq<SetGainPair>> := [];
      var i := 0;
      while i < o.numItems
        invariant 0 <= i <= o.numItems
        invariant |gains| == i && forall t :: 0 <= t < i ==> gains[t] == []
      {
        gains := gains + [[]];
        i := i + 1;
      }
      var single := new int[o.numItems];
      i := 0;
      while i < single.Length
        invariant 0 <= i <= single.Length
        invariant forall t :: 0 <= t < i ==> single[t] == o.submItem(t)
      {
        single[i] := o.submItem(i);
        i := i + 1;
      }
      unitBound := ub;
      singleItemSubmValue := single[..];
      subsetGain := gains;
    }

    /** `addGain(point, item, gain)`: one more pair on that item's list. */
    method AddGain(point: SP.Point, item: int, gain: int)
      requires Valid() && 0 <= item < |subsetGain|
      modifies this
      ensures Valid()
      ensures subsetGain == old(subsetGain)[item := old(subsetGain)[item] + [SetGainPair(point, gain)]]
    {
      subsetGain := subsetGain[item := subsetGain[item] + [SetGainPair(point, gain)]];
    }

    /** The bound the scan of `boundExceedsMax` decides. */
    ghost predicate BoundHolds(base: SP.Point, item: int, max: XInt)
      reads this
      requires Valid() && 0 <= item < |subsetGain|
    {
      Le(max, Fin(base.submValue + MinGain(base, subsetGain[item], singleItemSubmValue[item])))
    }

    /** `boundExceedsMax(basePoint, item, maxSubmValue)`: the early returns
        agree with the bound after the whole scan, because mingain only
        falls. */
    method BoundExceedsMax(base: SP.Point, item: int, max: XInt) returns (b: bool)
      requires Valid() && 0 <= item < |subsetGain|
      ensures b == BoundHolds(base, item, max)
    {
      var gains := subsetGain[item];
      var mingain := singleItemSubmValue[item];
      if Lt(Fin(base.submValue + mingain), max) {
        return false;
      }
      var t := 0;
      while t < |gains|
        invariant 0 <= t <= |gains|
        invariant MinGain(base, gains[t..], mingain) == MinGain(base, gains, singleItemSubmValue[item])
        invariant Le(max, Fin(base.submValue + mingain))
      {
        var sgp := gains[t];
        assert gains[t..][1..] == gains[t + 1..];
        if sgp.gain < mingain && |sgp.point.items| < |base.items| {
          var sub := SP.HasSubsetPoint(base, sgp.point);
          if sub {
            mingain := sgp.gain;
            if Lt(Fin(base.submValue + mingain), max) {
              assert MinGain(base, gains[t + 1..], mingain) <= mingain;
              return false;
            }
          }
        }
        t := t + 1;
      }
      return Le(max, Fin(base.submValue + mingain));
    }
  }

  // ---------------------------------------------------------------------
  // CandidatePoint and the candidate comparator

  /** `CandidatePoint`: a base point of the previous skyline, its position
      there and the added item v. */
  datatype Candidate = Candidate(basePoint: SP.Point, basePointPos: int, v: int)

  /** The `newitems` array the constructor stores: the base items extended
      by v. */
  function NewItems(c: Candidate): seq<int>
  {
    SP.Extend(c.basePoint, c.v)
  }

  /** `CandidatePoint.sumFnc(eval)`: base sum plus the item's sum. */
  function CandidateSum(o: E.Oracle, c: Candidate): int
  {
    c.basePoint.sumValue + o.sumItem(c.v)
  }

  /** Ascending sum for min-sum, descending for max-sum. */
  function CandidateKey(o: E.Oracle, c: Candidate): int
  {
    if o.maxSum then -CandidateSum(o, c) else CandidateSum(o, c)
  }

  /** a is before b at their first difference. */
  predicate LexBefore(a: seq<int>, b: seq<int>)
  {
    exists i :: 0 <= i < |a| && i < |b| && a[..i] == b[..i] && a[i] < b[i]
  }

  /** The strict order of the candidate comparator: by sum key, ties by the
      item arrays. */
  predicate Precedes(o: E.Oracle, a: Candidate, b: Candidate)
  {
    CandidateKey(o, a) < CandidateKey(o, b) ||
    (CandidateKey(o, a) == CandidateKey(o, b) && LexBefore(NewItems(a), NewItems(b)))
  }

  lemma LexBeforeIrreflexive(a: seq<int>)
    ensures !LexBefore(a, a)
  {
  }

  lemma LexBeforeTrans(a: seq<int>, b: seq<int>, c: seq<int>)
    requires LexBefore(a, b) && LexBefore(b, c)
    ensures LexBefore(a, c)
  {
    var i :| 0 <= i < |a| && i < |b| && a[..i] == b[..i] && a[i] < b[i];
    var j :| 0 <= j < |b| && j < |c| && b[..j] == c[..j] && b[j] < c[j];
    var m := if i < j then i else j;
    assert a[..m] == a[..i][..m] && c[..m] == c[..j][..m] && b[..m] == b[..i][..m] == b[..j][..m];
    if i < j {
      assert b[..j][i] == c[..j][i];
    } else if j < i {
      assert a[..i][j] == b[..i][j];
    }
    assert a[m] < c[m];
  }

  /** The comparator is a strict order, so a scan keeps a least candidate. */
  lemma PrecedesTrans(o: E.Oracle, a: Candidate, b: Candidate, c: Candidate)
    requires Precedes(o, a, b) && Precedes(o, b, c)
    ensures Precedes(o, a, c)
  {
    if CandidateKey(o, a) == CandidateKey(o, b) == CandidateKey(o, c) {
      LexBeforeTrans(NewItems(a), NewItems(b), NewItems(c));
    }
  }

  /** The result of `lexicographicArrayComparison` is negative exactly when
      a is before b. */
  lemma LexResult(a: seq<int>, b: seq<int>, r: int)
    requires |b| >= |a|
    requires r == -1 || r == 0 || r == 1
    requires r == 0 <==> a == b[..|a|]
    requires r != 0 ==> exists i :: 0 <= i < |a| && a[..i] == b[..i] && a[i] != b[i] && (r == -1 <==> a[i] < b[i])
    ensures r < 0 <==> LexBefore(a, b)
  {
    if LexBefore(a, b) {
      var j :| 0 <= j < |a| && j < |b| && a[..j] == b[..j] && a[j] < b[j];
      assert b[..|a|][j] == b[j];
      var i :| 0 <= i < |a| && a[..i] == b[..i] && a[i] != b[i] && (r == -1 <==> a[i] < b[i]);
      FirstDifference(a, b, i, j);
    }
  }

  /** Two sequences have at most one first difference. */
  lemma FirstDifference(a: seq<int>, b: seq<int>, i: int, j: int)
    requires 0 <= i < |a| && i < |b| && a[..i] == b[..i] && a[i] != b[i]
    requires 0 <= j < |a| && j < |b| && a[..j] == b[..j] && a[j] != b[j]
    ensures i == j
  {
    forall t | 0 <= t < i ensures a[t] == b[t] {
      assert a[..i][t] == b[..i][t];
    }
    forall t | 0 <= t < j ensures a[t] == b[t] {
      assert a[..j][t] == b[..j][t];
    }
  }

  /** `getCandidateComparator(eval).compare(a, b)`: the sign of the sum
      difference (reversed for max-sum), ties broken by the item arrays. */
  method CompareCandidates(o: E.Oracle, a: Candidate, b: Candidate) returns (rv: int)
    requires |a.basePoint.items| <= |b.basePoint.items|
    ensures rv < 0 <==> Precedes(o, a, b)
    ensures rv == 0 <==> CandidateKey(o, a) == CandidateKey(o, b) && NewItems(a) == NewItems(b)[..|NewItems(a)|]
  {
    rv := if o.maxSum then PU.Signum(CandidateSum(o, b) - CandidateSum(o, a))
          else PU.Signum(CandidateSum(o, a) - CandidateSum(o, b));
    if rv == 0 {
      var an, bn := NewItems(a), NewItems(b);
      rv := Utils.LexicographicArrayComparison(an, bn);
      LexResult(an, bn, rv);
    }
  }

  /** No candidate among the first j of q precedes q[m]. */
  predicate NoneBefore(o: E.Oracle, q: seq<Candidate>, j: int, m: int)
    requires 0 <= j <= |q| && 0 <= m < |q|
  {
    forall t :: 0 <= t < j ==> !Precedes(o, q[t], q[m])
  }

  /** A candidate that precedes the least one so far is least among the
      first j + 1. */
  lemma MinStep(o: E.Oracle, q: seq<Candidate>, j: int, m: int)
    requires 0 <= m < j < |q| && NoneBefore(o, q, j, m) && Precedes(o, q[j], q[m])
    ensures NoneBefore(o, q, j + 1, j)
  {
    forall t | 0 <= t < j + 1 ensures !Precedes(o, q[t], q[j]) {
      if t == j {
        LexBeforeIrreflexive(NewItems(q[j]));
      } else if Precedes(o, q[t], q[j]) {
        PrecedesTrans(o, q[t], q[j], q[m]);
      }
    }
  }

  lemma MinKeep(o: E.Oracle, q: seq<Candidate>, j: int, m: int)
    requires 0 <= m < j < |q| && NoneBefore(o, q, j, m) && !Precedes(o, q[j], q[m])
    ensures NoneBefore(o, q, j + 1, m)
  {
  }

  lemma MinStart(o: E.Oracle, q: seq<Candidate>)
    requires q != []
    ensures NoneBefore(o, q, 1, 0)
  {
    LexBeforeIrreflexive(NewItems(q[0]));
  }

  /** `PriorityQueue.poll`'s choice: a candidate no other queued one
      precedes (here the first such in insertion order). */
  method MinIndex(o: E.Oracle, q: seq<Candidate>, ghost len: int) returns (m: int)
    requires q != [] && forall t :: 0 <= t < |q| ==> |q[t].basePoint.items| == len
    ensures 0 <= m < |q| && NoneBefore(o, q, |q|, m)
  {
    m := 0;
    var j := 1;
    MinStart(o, q);
    while j < |q|
      invariant 1 <= j <= |q| && 0 <= m < j
      invariant NoneBefore(o, q, j, m)
    {
      var rv := CompareCandidates(o, q[j], q[m]);
      if rv < 0 {
        MinStep(o, q, j, m);
        m := j;
      } else {
        MinKeep(o, q, j, m);
      }
      j := j + 1;
    }
  }

  // ---------------------------------------------------------------------
  // ExpansionIterator

  class ExpansionIterator {
    const basePoint: SP.Point
    const basePointPos: int
    const mgub: MarginalGainUB
    const numItems: int
    var currentItem: int

    /** The cursor is before the first item, at an item, or at the end. */
    ghost predicate Valid()
      reads this
    {
      -1 <= currentItem <= numItems
    }

    /** The bound table covers exactly the iterator's items. */
    ghost predicate Fits()
    reads mgub
    {
      mgub.Valid() && |mgub.unitBound| == numItems
    }

    constructor (p: SP.Point, basePointPos: int, mgub: MarginalGainUB, numItems: int)
      requires numItems >= 0
      ensures Valid() && currentItem == -1
      ensures basePoint == p && this.basePointPos == basePointPos && this.mgub == mgub && this.numItems == numItems
    {
      basePoint := p;
      this.basePointPos := basePointPos;
      this.mgub := mgub;
      this.numItems := numItems;
      currentItem := -1;
    }

    /** `exhausted(maxSubmValue)` with the cursor at i: past the end, or no
        item from i on can lift the base value to the maximum. */
    predicate ExhaustedAt(i: int, max: XInt)
      reads mgub
      requires Fits() && 0 <= i
    {
      i >= numItems || Lt(Fin(mgub.unitBound[i] + basePoint.submValue), max)
    }

    /** Where `next` stops when it starts looking at item i: the first item
        that is absent from the base point and passes the bound, unless an
        exhausted position comes first. */
    ghost function ScanFrom(i: int, max: XInt): Option<int>
      reads mgub
      requires Fits() && 0 <= i
      decreases numItems - i
    {
      if ExhaustedAt(i, max) then None
      else if i in basePoint.items || !mgub.BoundHolds(basePoint, i, max) then ScanFrom(i + 1, max)
      else Some(i)
    }

    /** The item found is a new, in range, unexhausted item that passes the
        bound, and no earlier one from i on was. */
    lemma {:induction false} ScanFromFinds(i: int, max: XInt)
      requires Fits() && 0 <= i
      ensures var r := ScanFrom(i, max);
              r.Some? ==> i <= r.value < numItems && r.value !in basePoint.items &&
                          !ExhaustedAt(r.value, max) && mgub.BoundHolds(basePoint, r.value, max)
      decreases numItems - i
    {
      if !ExhaustedAt(i, max) && (i in basePoint.items || !mgub.BoundHolds(basePoint, i, max)) {
        ScanFromFinds(i + 1, max);
      }
    }

    /** The loop condition of `next`. */
    method Skips(max: XInt) returns (b: bool)
      requires Fits() && 0 <= currentItem < numItems
      ensures b <==> currentItem in basePoint.items || !mgub.BoundHolds(basePoint, currentItem, max)
    {
      b := SP.Contains(basePoint, currentItem);
      if !b {
        var ok := mgub.BoundExceedsMax(basePoint, currentItem, max);
        b := !ok;
      }
    }

    /** `next(maxSubmValue)`: the candidate for the next item ScanFrom finds
        after the cursor; at the end, or once exhausted, none and the cursor
        stays at the end, so every later call gives none too. */
    method Next(max: XInt) returns (c: Option<Candidate>)
      requires Valid() && Fits()
      modifies this
      ensures Valid()
      ensures old(currentItem) == numItems ==> c.None? && currentItem == numItems
      ensures old(currentItem) < numItems ==>
                var r := ScanFrom(old(currentItem) + 1, max);
                (r.None? ==> c.None? && currentItem == numItems) &&
                (r.Some? ==> c == Some(Candidate(basePoint, basePointPos, r.value)) && currentItem == r.value)
    {
      if currentItem == numItems {
        return None;
      }
      currentItem := currentItem + 1;
      ghost var start := currentItem;
      if ExhaustedAt(currentItem, max) {
        currentItem := numItems;
        return None;
      }
      var skip := Skips(max);
      while skip
        invariant start <= currentItem < numItems && !ExhaustedAt(currentItem, max)
        invariant ScanFrom(start, max) == ScanFrom(currentItem, max)
        invariant skip <==> currentItem in basePoint.items || !mgub.BoundHolds(basePoint, currentItem, max)
        decreases numItems - currentItem
      {
        currentItem := currentItem + 1;
        if ExhaustedAt(currentItem, max) {
          currentItem := numItems;
          return None;
        }
        skip := Skips(max);
      }
      return Some(Candidate(basePoint, basePointPos, currentItem));
    }
  }

  // ---------------------------------------------------------------------
  // SkylineExpander

  /** The iterator of base point `base` at position pos, sharing the bound
      table, with its cursor at `cursor`. */
  ghost predicate IterAt(it: ExpansionIterator, base: SP.Point, pos: int, cursor: int, o: E.Oracle, mgub: MarginalGainUB)
    reads it
  {
    it.mgub == mgub && it.basePointPos == pos && it.numItems == o.numItems &&
    it.basePoint == base && it.currentItem == cursor && it.Valid()
  }

  /** What `next` promises of a candidate: a new item in range on a base
      point of the level's size. */
  predicate WellFormed(c: Candidate, numItems: int, size: int)
  {
    0 <= c.v < numItems && c.v !in c.basePoint.items && |c.basePoint.items| == size
  }

  /** A queued candidate is the one its iterator last returned. */
  predicate Queued(bases: seq<SP.Point>, cur: seq<int>, o: E.Oracle, size: int, c: Candidate)
    requires |bases| == |cur|
  {
    0 <= c.basePointPos < |bases| && c.basePoint == bases[c.basePointPos] && c.v == cur[c.basePointPos] &&
    WellFormed(c, o.numItems, size)
  }

  /** No two queued candidates share a base point. */
  predicate OnePerBase(queue: seq<Candidate>)
  {
    forall t, u :: 0 <= t < u < |queue| ==> queue[t].basePointPos != queue[u].basePointPos
  }

  /** The state a `SkylineExpander` keeps: distinct iterators, one per base
      point of the given size, and at most one queued candidate per base
      point. */
  ghost predicate Consistent(its: seq<ExpansionIterator>, queue: seq<Candidate>, bases: seq<SP.Point>,
                             cur: seq<int>, o: E.Oracle, mgub: MarginalGainUB, size: int)
    reads its
  {
    |its| == |bases| == |cur| &&
    (forall i :: 0 <= i < |bases| ==> |bases[i].items| == size) &&
    (forall i :: 0 <= i < |its| ==> IterAt(its[i], bases[i], i, cur[i], o, mgub)) &&
    (forall i, j :: 0 <= i < j < |its| ==> its[i] != its[j]) &&
    (forall t :: 0 <= t < |queue| ==> Queued(bases, cur, o, size, queue[t])) &&
    OnePerBase(queue)
  }

  /** Taking one candidate out keeps the others queued and alone on their
      base points, and none of them shares the removed one's base point. */
  lemma RemoveQueued(q: seq<Candidate>, m: int, bases: seq<SP.Point>, cur: seq<int>, o: E.Oracle, size: int)
    requires 0 <= m < |q| && |bases| == |cur|
    requires forall t :: 0 <= t < |q| ==> Queued(bases, cur, o, size, q[t])
    requires OnePerBase(q)
    ensures var r := q[..m] + q[m + 1..];
            |r| == |q| - 1 &&
            (forall t :: 0 <= t < |r| ==> Queued(bases, cur, o, size, r[t]) && r[t].basePointPos != q[m].basePointPos) &&
            OnePerBase(r) && (forall c :: c in r ==> c in q)
  {
    var r := q[..m] + q[m + 1..];
    forall t | 0 <= t < |r| ensures r[t] == q[Skip(t, m)] {
    }
    forall t | 0 <= t < |r| ensures Queued(bases, cur, o, size, r[t]) && r[t].basePointPos != q[m].basePointPos {
      assert r[t] == q[Skip(t, m)];
    }
    forall t, u | 0 <= t < u < |r| ensures r[t].basePointPos != r[u].basePointPos {
      assert r[t] == q[Skip(t, m)] && r[u] == q[Skip(u, m)];
    }
    forall c | c in r ensures c in q {
      var t :| 0 <= t < |r| && r[t] == c;
      assert r[t] == q[Skip(t, m)];
    }
  }

  /** The index in the full queue of entry t once entry m is gone. */
  function Skip(t: int, m: int): int
  {
    if t < m then t else t + 1
  }

  /** The items the iterators have yet to pass. */
  function Remaining(cur: seq<int>, n: int): int
  {
    if cur == [] then 0 else (n - cur[0]) + Remaining(cur[1..], n)
  }

  lemma {:induction false} RemainingUpdate(cur: seq<int>, k: int, x: int, n: int)
    requires 0 <= k < |cur|
    ensures Remaining(cur[k := x], n) == Remaining(cur, n) - (x - cur[k])
  {
    if k > 0 {
      assert cur[k := x][1..] == cur[1..][k - 1 := x];
      RemainingUpdate(cur[1..], k - 1, x, n);
    } else {
      assert cur[k := x][1..] == cur[1..];
    }
  }

  lemma {:induction false} RemainingNonNegative(cur: seq<int>, n: int)
    requires forall i :: 0 <= i < |cur| ==> cur[i] <= n
    ensures Remaining(cur, n) >= 0
  {
    if cur != [] {
      RemainingNonNegative(cur[1..], n);
    }
  }

  /** The constructor's loop: one iterator per point, each asked once for
      its first candidate with no maximum yet. */
  method OpenIterators(skyline: seq<SP.Point>, o: E.Oracle, mgub: MarginalGainUB, ghost size: int)
    returns (its: seq<ExpansionIterator>, q: seq<Candidate>, ghost cur: seq<int>)
    requires mgub.Valid() && |mgub.unitBound| == o.numItems
    requires forall p :: p in skyline ==> |p.items| == size
    ensures Consistent(its, q, skyline, cur, o, mgub, size) && fresh(its)
  {
    its, q, cur := [], [], [];
    var i := 0;
    while i < |skyline|
      invariant 0 <= i <= |skyline|
      invariant Consistent(its, q, skyline[..i], cur, o, mgub, size) && fresh(its)
    {
      var it;
      it, its, q, cur := OpenOne(its, q, skyline, i, cur, o, mgub, size);
      i := i + 1;
    }
    assert skyline[..i] == skyline;
  }

  /** One turn of the constructor's loop: the iterator of skyline[i], asked
      once for its first candidate. */
  method OpenOne(its: seq<ExpansionIterator>, q: seq<Candidate>, skyline: seq<SP.Point>, i: int, ghost cur: seq<int>,
                 o: E.Oracle, mgub: MarginalGainUB, ghost size: int)
    returns (it: ExpansionIterator, its': seq<ExpansionIterator>, q': seq<Candidate>, ghost cur': seq<int>)
    requires mgub.Valid() && |mgub.unitBound| == o.numItems
    requires 0 <= i < |skyline| && |skyline[i].items| == size
    requires Consistent(its, q, skyline[..i], cur, o, mgub, size)
    ensures fresh(it) && its' == its + [it]
    ensures Consistent(its', q', skyline[..i + 1], cur', o, mgub, size)
  {
    it := new ExpansionIterator(skyline[i], |its|, mgub, o.numItems);
    var c := it.Next(NegInf);
    it.ScanFromFinds(0, NegInf);
    assert c.Some? ==> WellFormed(c.value, o.numItems, size);
    Grow(its, q, skyline[..i], cur, o, mgub, size, it, skyline[i], c);
    assert skyline[..i + 1] == skyline[..i] + [skyline[i]];
    its', cur' := its + [it], cur + [it.currentItem];
    q' := if c.Some? then q + [c.value] else q;
  }

  /** Appending a fresh iterator, its cursor and its first candidate keeps
      the expander state consistent. */
  lemma Grow(its: seq<ExpansionIterator>, q: seq<Candidate>, bases: seq<SP.Point>, cur: seq<int>,
             o: E.Oracle, mgub: MarginalGainUB, size: int, it: ExpansionIterator, p: SP.Point, c: Option<Candidate>)
    requires Consistent(its, q, bases, cur, o, mgub, size) && it !in its
    requires IterAt(it, p, |its|, it.currentItem, o, mgub) && |p.items| == size
    requires c.Some? ==> c.value.basePointPos == |its| && c.value.basePoint == p && c.value.v == it.currentItem &&
                         WellFormed(c.value, o.numItems, size)
    ensures var q' := if c.Some? then q + [c.value] else q;
            Consistent(its + [it], q', bases + [p], cur + [it.currentItem], o, mgub, size)
  {
    var its', bases', cur' := its + [it], bases + [p], cur + [it.currentItem];
    var q' := if c.Some? then q + [c.value] else q;
    forall i | 0 <= i < |its'| ensures IterAt(its'[i], bases'[i], i, cur'[i], o, mgub) {
      if i < |its| {
        assert its'[i] == its[i] && bases'[i] == bases[i] && cur'[i] == cur[i];
      }
    }
    forall t | 0 <= t < |q'| ensures Queued(bases', cur', o, size, q'[t]) {
      if t < |q| {
        assert Queued(bases, cur, o, size, q[t]);
        assert q'[t] == q[t];
      }
    }
    forall t, u | 0 <= t < u < |q'| ensures q'[t].basePointPos != q'[u].basePointPos {
      if u < |q| {
        assert q'[t] == q[t] && q'[u] == q[u];
      } else {
        assert Queued(bases, cur, o, size, q[t]);
      }
    }
  }

  class SkylineExpander {
    var queue: seq<Candidate>
    const pointIterator: seq<ExpansionIterator>
    const o: E.Oracle
    const mgub: MarginalGainUB
    ghost const bases: seq<SP.Point>
    ghost const size: int
    ghost var cur: seq<int>

    ghost predicate Valid()
      reads this, pointIterator, mgub
    {
      Consistent(pointIterator, queue, bases, cur, o, mgub, size) && mgub.Valid() && |mgub.unitBound| == o.numItems
    }

    /** What is left to do: the queued candidates and the items ahead of
        every cursor. */
    ghost function Measure(): int
      reads this
    {
      |queue| + Remaining(cur, o.numItems)
    }

    lemma MeasureNonNegative()
      requires Valid()
      ensures Measure() >= 0
    {
      forall i | 0 <= i < |cur| ensures cur[i] <= o.numItems {
        assert IterAt(pointIterator[i], bases[i], i, cur[i], o, mgub);
      }
      RemainingNonNegative(cur, o.numItems);
    }

    /** `new SkylineExpander(skyline, eval, mgub)`.  The queue is created
        with the skyline's size as its initial capacity, which must be
        positive, so an empty skyline cannot be expanded. */
    constructor (skyline: seq<SP.Point>, o: E.Oracle, mgub: MarginalGainUB, ghost size: int)
      requires |skyline| >= 1
      requires mgub.Valid() && |mgub.unitBound| == o.numItems
      requires forall p :: p in skyline ==> |p.items| == size
      ensures Valid() && fresh(pointIterator)
      ensures bases == skyline && this.o == o && this.mgub == mgub && this.size == size
    {
      var its, q, c := OpenIterators(skyline, o, mgub, size);
      pointIterator := its;
      this.o := o;
      this.mgub := mgub;
      bases := skyline;
      this.size := size;
      queue := q;
      cur := c;
    }

    /** `next(maxSubmValue)`: polls a least candidate and refills the queue
        only from that candidate's own iterator. */
    method Next(max: XInt) returns (p: Candidate)
      requires Valid() && queue != []
      modifies this, pointIterator
      ensures Valid()
      ensures p in old(queue) && forall t :: 0 <= t < |old(queue)| ==> !Precedes(o, old(queue)[t], p)
      ensures p.basePoint == bases[p.basePointPos]
      ensures 0 <= p.v < o.numItems && p.v !in p.basePoint.items
      ensures forall i :: 0 <= i < |cur| && i != p.basePointPos ==> cur[i] == old(cur)[i]
      ensures forall c :: c in queue && c.basePointPos != p.basePointPos ==> c in old(queue)
      ensures Measure() < old(Measure())
    {
      var m := MinIndex(o, queue, size);
      p := queue[m];
      RemoveQueued(queue, m, bases, cur, o, size);
      queue := queue[..m] + queue[m + 1..];
      Refill(p, max);
    }

    /** The second half of `next`: the polled candidate's iterator is asked
        for its next candidate, which is queued if there is one. */
    method Refill(p: Candidate, max: XInt)
      requires Valid() && Queued(bases, cur, o, size, p)
      requires forall t :: 0 <= t < |queue| ==> queue[t].basePointPos != p.basePointPos
      modifies this, pointIterator
      ensures Valid()
      ensures forall i :: 0 <= i < |cur| && i != p.basePointPos ==> cur[i] == old(cur)[i]
      ensures forall c :: c in queue && c.basePointPos != p.basePointPos ==> c in old(queue)
      ensures Measure() <= old(Measure())
    {
      var k := p.basePointPos;
      var it := pointIterator[k];
      ghost var q0, cur0 := queue, cur;
      assert IterAt(it, bases[k], k, cur[k], o, mgub);
      var c := it.Next(max);
      it.ScanFromFinds(p.v + 1, max);
      cur := cur[k := it.currentItem];
      RemainingUpdate(cur0, k, it.currentItem, o.numItems);
      if c.Some? {
        assert WellFormed(c.value, o.numItems, size);
        queue := queue + [c.value];
      }
      forall i | 0 <= i < |pointIterator| ensures IterAt(pointIterator[i], bases[i], i, cur[i], o, mgub) {
        if i != k {
          assert old(IterAt(pointIterator[i], bases[i], i, cur[i], o, mgub));
        }
      }
      forall t | 0 <= t < |queue| ensures Queued(bases, cur, o, size, queue[t]) {
        if t < |q0| {
          assert Queued(bases, cur0, o, size, q0[t]);
          assert queue[t] == q0[t];
        }
      }
    }
  }

  // ---------------------------------------------------------------------
  // FastSkyline

  /** `processCandidate(cand, nextSkyline, eval, mgub, maxSubmValue)`: if the
      bound passes, the extended set is evaluated and its gain recorded, and
      it is appended when its value strictly beats the maximum, which it
      then becomes. */
  method ProcessCandidate(cand: Candidate, nextSkyline: seq<SP.Point>, o: E.Oracle, mgub: MarginalGainUB, max: XInt)
    returns (next: seq<SP.Point>, max': XInt)
    requires mgub.Valid() && 0 <= cand.v < |mgub.subsetGain|
    modifies mgub
    ensures mgub.Valid()
    ensures var s := o.submSet(NewItems(cand));
            var passes := old(mgub.BoundHolds(cand.basePoint, cand.v, max));
            (passes ==> mgub.subsetGain == old(mgub.subsetGain)[cand.v := old(mgub.subsetGain)[cand.v] +
                                             [SetGainPair(cand.basePoint, s - cand.basePoint.submValue)]]) &&
            (!passes ==> mgub.subsetGain == old(mgub.subsetGain)) &&
            (if passes && Lt(max, Fin(s))
             then next == nextSkyline + [L.Evaluate(o, NewItems(cand))] && max' == Fin(s)
             else next == nextSkyline && max' == max)
  {
    next, max' := nextSkyline, max;
    var passes := mgub.BoundExceedsMax(cand.basePoint, cand.v, max);
    if passes {
      var newitems := NewItems(cand);
      var submValue := o.submSet(newitems);
      mgub.AddGain(cand.basePoint, cand.v, submValue - cand.basePoint.submValue);
      if Lt(max, Fin(submValue)) {
        next := next + [SP.Point(newitems, o.sumSet(newitems), submValue)];
        max' := Fin(submValue);
      }
    }
  }

  /** The output of `expandSkyline` so far: points of the next level with
      strictly rising values, the last of which is the running maximum. */
  predicate Expanded(o: E.Oracle, next: seq<SP.Point>, max: XInt, level: int)
  {
    (forall p :: p in next ==> L.Evaluated(o, p, level + 1)) &&
    ES.StrictlyIncreasing(next) &&
    (if next == [] then max == NegInf else max == Fin(next[|next| - 1].submValue))
  }

  /** Appending a point above the running maximum keeps the values
      rising. */
  lemma AppendRises(next: seq<SP.Point>, max: XInt, p: SP.Point)
    requires ES.StrictlyIncreasing(next)
    requires next == [] || max == Fin(next[|next| - 1].submValue)
    requires Lt(max, Fin(p.submValue))
    ensures ES.StrictlyIncreasing(next + [p])
  {
    var r := next + [p];
    forall a, b | 0 <= a < b < |r| ensures r[a].submValue < r[b].submValue {
      if b == |next| && a < |next| - 1 {
        assert next[a].submValue < next[|next| - 1].submValue;
      }
    }
  }

  /** One turn of the loop of `expandSkyline`: the polled candidate is
      processed unless its item array equals the previous candidate's. */
  method ExpandStep(sle: SkylineExpander, o: E.Oracle, mgub: MarginalGainUB, ghost level: int,
                    ghost skyline: seq<SP.Point>, next: seq<SP.Point>, max: XInt, previous: Candidate)
    returns (p: Candidate, next': seq<SP.Point>, max': XInt, previous': Candidate)
    requires sle.Valid() && sle.queue != []
    requires sle.bases == skyline && sle.o == o && sle.mgub == mgub && sle.size == level
    requires forall q :: q in skyline ==> L.Evaluated(o, q, level)
    requires Expanded(o, next, max, level)
    modifies sle, sle.pointIterator, mgub
    ensures sle.Valid() && Expanded(o, next', max', level)
    ensures 0 <= sle.Measure() < old(sle.Measure())
    ensures NewItems(p) == NewItems(previous) ==>
              next' == next && max' == max && previous' == previous && mgub.subsetGain == old(mgub.subsetGain)
    ensures NewItems(p) != NewItems(previous) ==> previous' == p
  {
    p := sle.Next(max);
    assert p.basePoint in skyline;
    next', max', previous' := Consider(p, o, mgub, level, next, max, previous);
    sle.MeasureNonNegative();
  }

  /** The body of that turn once the candidate is polled. */
  method Consider(p: Candidate, o: E.Oracle, mgub: MarginalGainUB, ghost level: int,
                  next: seq<SP.Point>, max: XInt, previous: Candidate)
    returns (next': seq<SP.Point>, max': XInt, previous': Candidate)
    requires mgub.Valid() && |mgub.unitBound| == o.numItems
    requires 0 <= p.v < o.numItems && p.v !in p.basePoint.items
    requires L.Evaluated(o, p.basePoint, level)
    requires Expanded(o, next, max, level)
    modifies mgub
    ensures mgub.Valid() && Expanded(o, next', max', level)
    ensures NewItems(p) == NewItems(previous) ==>
              next' == next && max' == max && previous' == previous && mgub.subsetGain == old(mgub.subsetGain)
    ensures NewItems(p) != NewItems(previous) ==> previous' == p
  {
    next', max', previous' := next, max, previous;
    if NewItems(p) != NewItems(previous) {
      next', max' := ProcessCandidate(p, next, o, mgub, max);
      ExpandedKeeps(o, next, max, level, p, next', max');
      previous' := p;
    }
  }

  /** Whatever `processCandidate` does to the output keeps it `Expanded`. */
  lemma ExpandedKeeps(o: E.Oracle, next: seq<SP.Point>, max: XInt, level: int, p: Candidate,
                      next': seq<SP.Point>, max': XInt)
    requires L.Evaluated(o, p.basePoint, level) && 0 <= p.v < o.numItems && p.v !in p.basePoint.items
    requires Expanded(o, next, max, level)
    requires (next' == next && max' == max) ||
             (next' == next + [L.Evaluate(o, NewItems(p))] && max' == Fin(o.submSet(NewItems(p))) && Lt(max, max'))
    ensures Expanded(o, next', max', level)
  {
    if next' != next {
      L.ExtendItemSet(p.basePoint, p.v, o.numItems);
      AppendRises(next, max, L.Evaluate(o, NewItems(p)));
    }
  }

  /** `expandSkyline(skyline, eval, mgub)`: the candidates in comparator
      order, each item set once in a run of equal ones, kept when their
      value strictly beats every value kept before. */
  method ExpandSkyline(skyline: seq<SP.Point>, o: E.Oracle, mgub: MarginalGainUB, ghost level: int)
    returns (nextSkyline: seq<SP.Point>)
    requires |skyline| >= 1
    requires mgub.Valid() && |mgub.unitBound| == o.numItems
    requires forall p :: p in skyline ==> L.Evaluated(o, p, level)
    modifies mgub
    ensures mgub.Valid()
    ensures forall p :: p in nextSkyline ==> L.Evaluated(o, p, level + 1)
    ensures ES.StrictlyIncreasing(nextSkyline)
  {
    nextSkyline := [];
    var sle := new SkylineExpander(skyline, o, mgub, level);
    var max := NegInf;
    var previous := Candidate(SP.EmptyPoint(), -1, -1);
    sle.MeasureNonNegative();
    while sle.queue != []
      invariant sle.Valid() && fresh(sle) && fresh(sle.pointIterator)
      invariant sle.bases == skyline && sle.o == o && sle.mgub == mgub && sle.size == level
      invariant Expanded(o, nextSkyline, max, level)
      invariant sle.Measure() >= 0
      decreases sle.Measure()
    {
      var p;
      p, nextSkyline, max, previous := ExpandStep(sle, o, mgub, level, skyline, nextSkyline, max, previous);
    }
  }

  /** `computeSkyline(k, eval)`: the level-1 skyline, then k - 1 expansion
      levels, each filtered; the items are always mapped back to the
      caller's ids.  `internal` is the skyline before that mapping.  The
      bound table cannot be built for an empty item set, and a level that
      came out empty cannot be expanded: both end the run with `None`. */
  method ComputeSkyline(k: int, o: E.Oracle, skylineSize: int,
                        hvFilter: (seq<SP.Point>, int, bool) -> seq<SP.Point>)
    returns (skyline: Option<seq<SP.Point>>, ghost internal: seq<SP.Point>)
    requires L.Selects(hvFilter)
    requires |o.origItem| >= o.numItems
    ensures o.numItems == 0 ==> skyline.None?
    ensures skyline.None? ==> internal == [] && (o.numItems == 0 || k > 1)
    ensures skyline.Some? ==> forall p :: p in internal ==> L.Evaluated(o, p, if k > 1 then k else 1)
    ensures skyline.Some? ==> |skyline.value| == |internal|
    ensures skyline.Some? ==> forall t :: 0 <= t < |skyline.value| ==>
              |skyline.value[t].items| == |internal[t].items| &&
              skyline.value[t].sumValue == internal[t].sumValue && skyline.value[t].submValue == internal[t].submValue &&
              forall i :: 0 <= i < |skyline.value[t].items| ==>
                0 <= internal[t].items[i] < |o.origItem| && skyline.value[t].items[i] == o.origItem[internal[t].items[i]]
  {
    if o.numItems == 0 {
      return None, [];
    }
    var mgub := new MarginalGainUB(o);
    var current;
    ghost var levelOne;
    current, levelOne := L.ComputeSkyline(1, o, skylineSize, hvFilter, false);
    var level := 1;
    while level < k
      invariant 1 <= level && (level <= k || level == 1)
      invariant mgub.Valid() && |mgub.unitBound| == o.numItems
      invariant forall p :: p in current ==> L.Evaluated(o, p, level)
    {
      if current == [] {
        return None, [];
      }
      current := ExpandSkyline(current, o, mgub, level);
      current := L.FilterSkyline(current, skylineSize, o.maxSum, hvFilter);
      level := level + 1;
    }
    internal := current;
    var actual := PU.ToActualItemsAll(current, o.origItem);
    skyline := Some(actual);
  }
}
