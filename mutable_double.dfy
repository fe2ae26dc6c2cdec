/** MutableDouble: the store of the best submodular value found so far.
    The plain object of the sequential search keeps one number and ignores
    the sum argument.  The synchronized object of the parallel search keeps
    a sorted map from sums to values (a staircase): `value(s)` is the value
    of the floor entry of s, and a new point lifts the staircase from its
    sum on.

    The Java map starts with a sentinel entry, key -infinity (min-sum) or
    +infinity (max-sum) with value -infinity, which is first in map order.
    It is kept implicit here: `skyline` holds the finite entries, and a sum
    with no finite floor entry has the sentinel's value -infinity.  No
    update removes the sentinel, because the removal starts at a finite sum
    and the sentinel lies before every finite sum. */
module MutableDouble {
  import opened ExtInt

  /** One finite map entry: a sum and the best value for sums at or beyond
      it. */
  datatype Entry = Entry(key: int, val: int)

  /** The map order on sums: ascending for min-sum, descending for max-sum. */
  function Ok(maxSum: bool, x: int): int
  {
    if maxSum then -x else x
  }

  /** Entry key at or below sum s in map order. */
  predicate KeyLe(maxSum: bool, e: Entry, s: int)
  {
    Ok(maxSum, e.key) <= Ok(maxSum, s)
  }

  /** The map is a staircase: keys strictly ascending in map order, values
      non-decreasing along the keys. */
  predicate ValidEntries(es: seq<Entry>, maxSum: bool)
  {
    (forall a, b :: 0 <= a < b < |es| ==> Ok(maxSum, es[a].key) < Ok(maxSum, es[b].key)) &&
    (forall a, b :: 0 <= a < b < |es| ==> es[a].val <= es[b].val)
  }

  /** The index of the floor entry of s among the first n entries: the last
      one whose key is at or below s in map order, or -1 when that is the
      sentinel. */
  function LastLeBelow(es: seq<Entry>, maxSum: bool, s: int, n: int): (r: int)
    requires 0 <= n <= |es|
    ensures -1 <= r < n
    ensures r >= 0 ==> KeyLe(maxSum, es[r], s)
    ensures forall q :: r < q < n ==> !KeyLe(maxSum, es[q], s)
  {
    if n == 0 then -1
    else if KeyLe(maxSum, es[n - 1], s) then n - 1
    else LastLeBelow(es, maxSum, s, n - 1)
  }

  /** The index of the floor entry of s, or -1 for the sentinel. */
  function LastLe(es: seq<Entry>, maxSum: bool, s: int): (r: int)
    ensures -1 <= r < |es|
    ensures r >= 0 ==> KeyLe(maxSum, es[r], s)
    ensures forall q :: r < q < |es| ==> !KeyLe(maxSum, es[q], s)
  {
    LastLeBelow(es, maxSum, s, |es|)
  }

  /** `floorEntry(s).getValue()`: defined for every sum thanks to the
      sentinel. */
  function Floor(es: seq<Entry>, maxSum: bool, s: int): XInt
  {
    var p := LastLe(es, maxSum, s);
    if p < 0 then NegInf else Fin(es[p].val)
  }

  /** The floor value rises with the sum (in map order). */
  lemma FloorMonotone(es: seq<Entry>, maxSum: bool, s: int, s2: int)
    requires ValidEntries(es, maxSum)
    requires Ok(maxSum, s) <= Ok(maxSum, s2)
    ensures Le(Floor(es, maxSum, s), Floor(es, maxSum, s2))
  {
    var p := LastLe(es, maxSum, s);
    if p >= 0 {
      assert KeyLe(maxSum, es[p], s2);
    }
  }

  /** The first index from i whose key is at or beyond sum in map order: the
      start of `tailMap(sum, true)`. */
  function FirstGe(es: seq<Entry>, maxSum: bool, sum: int, i: int): (r: int)
    requires 0 <= i <= |es|
    ensures i <= r <= |es|
    ensures forall q :: i <= q < r ==> Ok(maxSum, es[q].key) < Ok(maxSum, sum)
    ensures r < |es| ==> Ok(maxSum, sum) <= Ok(maxSum, es[r].key)
    decreases |es| - i
  {
    if i == |es| || Ok(maxSum, sum) <= Ok(maxSum, es[i].key) then i
    else FirstGe(es, maxSum, sum, i + 1)
  }

  /** The end of the run of entries from i whose value is at most subm: the
      entries the removal loop deletes. */
  function RunEnd(es: seq<Entry>, subm: int, i: int): (r: int)
    requires 0 <= i <= |es|
    ensures i <= r <= |es|
    ensures forall q :: i <= q < r ==> es[q].val <= subm
    ensures r < |es| ==> subm < es[r].val
    decreases |es| - i
  {
    if i == |es| || es[i].val > subm then i
    else RunEnd(es, subm, i + 1)
  }

  lemma {:induction false} FirstGeIs(es: seq<Entry>, maxSum: bool, sum: int, r: int)
    requires 0 <= r <= |es|
    requires forall q :: 0 <= q < r ==> Ok(maxSum, es[q].key) < Ok(maxSum, sum)
    requires r < |es| ==> Ok(maxSum, sum) <= Ok(maxSum, es[r].key)
    ensures FirstGe(es, maxSum, sum, 0) == r
  {
    var f := FirstGe(es, maxSum, sum, 0);
    assert !(f < r) && !(r < f);
  }

  lemma {:induction false} RunEndIs(es: seq<Entry>, subm: int, i: int, r: int)
    requires 0 <= i <= r <= |es|
    requires forall q :: i <= q < r ==> es[q].val <= subm
    requires r < |es| ==> subm < es[r].val
    ensures RunEnd(es, subm, i) == r
  {
    var f := RunEnd(es, subm, i);
    assert !(f < r) && !(r < f);
  }

  /** The map after `setValue(sum, subm)`: unchanged when the floor of sum is
      already above subm; otherwise the entries from sum on with value at
      most subm are replaced by the single entry (sum, subm). */
  function SetEntries(es: seq<Entry>, maxSum: bool, sum: int, subm: int): seq<Entry>
  {
    if Lt(Fin(subm), Floor(es, maxSum, sum)) then es
    else Splice(es, FirstGe(es, maxSum, sum, 0), RunEnd(es, subm, FirstGe(es, maxSum, sum, 0)), Entry(sum, subm))
  }

  /** The entries before i, then e, then the entries from t on. */
  function Splice(es: seq<Entry>, i: int, t: int, e: Entry): seq<Entry>
    requires 0 <= i <= t <= |es|
  {
    es[..i] + [e] + es[t..]
  }

  /** The three parts of the updated map. */
  lemma SpliceIndex(es: seq<Entry>, i: int, e: Entry, t: int)
    requires 0 <= i <= t <= |es|
    ensures |es[..i] + [e] + es[t..]| == i + 1 + |es| - t
    ensures forall q :: 0 <= q < i ==> (es[..i] + [e] + es[t..])[q] == es[q]
    ensures (es[..i] + [e] + es[t..])[i] == e
    ensures forall q :: i < q < i + 1 + |es| - t ==> (es[..i] + [e] + es[t..])[q] == es[t + q - i - 1]
  {
  }

  /** When the update is not skipped, every entry before the new one lies
      before sum and holds at most subm, and every entry kept after it lies
      strictly beyond sum and holds more than subm. */
  lemma Surroundings(es: seq<Entry>, maxSum: bool, sum: int, subm: int, i: int, t: int)
    requires ValidEntries(es, maxSum)
    requires !Lt(Fin(subm), Floor(es, maxSum, sum))
    requires i == FirstGe(es, maxSum, sum, 0) && t == RunEnd(es, subm, i)
    ensures forall q :: 0 <= q < i ==> es[q].val <= subm
    ensures forall q :: t <= q < |es| ==> Ok(maxSum, sum) < Ok(maxSum, es[q].key) && subm < es[q].val
  {
    var p := LastLe(es, maxSum, sum);
    if i > 0 {
      assert KeyLe(maxSum, es[i - 1], sum);
    }
    if t < |es| && t == i {
      assert !KeyLe(maxSum, es[i], sum);
    }
  }

  lemma SliceValid(es: seq<Entry>, maxSum: bool, lo: int, hi: int)
    requires ValidEntries(es, maxSum) && 0 <= lo <= hi <= |es|
    ensures ValidEntries(es[lo..hi], maxSum)
  {
    assert forall q :: 0 <= q < hi - lo ==> es[lo..hi][q] == es[lo + q];
  }

  /** Gluing two staircases around one entry that fits between them. */
  lemma ConcatValid(a: seq<Entry>, e: Entry, b: seq<Entry>, maxSum: bool)
    requires ValidEntries(a, maxSum) && ValidEntries(b, maxSum)
    requires forall q :: 0 <= q < |a| ==> Ok(maxSum, a[q].key) < Ok(maxSum, e.key) && a[q].val <= e.val
    requires forall q :: 0 <= q < |b| ==> Ok(maxSum, e.key) < Ok(maxSum, b[q].key) && e.val <= b[q].val
    ensures ValidEntries(a + [e] + b, maxSum)
  {
    var r := a + [e] + b;
    assert forall q :: 0 <= q < |a| ==> r[q] == a[q];
    assert forall q :: |a| < q < |r| ==> r[q] == b[q - |a| - 1];
  }

  /** Replacing es[i..t) by one entry that fits between es[..i] and es[t..]
      keeps a staircase. */
  lemma SpliceValid(es: seq<Entry>, maxSum: bool, i: int, t: int, e: Entry)
    requires ValidEntries(es, maxSum) && 0 <= i <= t <= |es|
    requires forall q :: 0 <= q < i ==> Ok(maxSum, es[q].key) < Ok(maxSum, e.key) && es[q].val <= e.val
    requires forall q :: t <= q < |es| ==> Ok(maxSum, e.key) < Ok(maxSum, es[q].key) && e.val <= es[q].val
    ensures ValidEntries(es[..i] + [e] + es[t..], maxSum)
  {
    SliceValid(es, maxSum, 0, i);
    SliceValid(es, maxSum, t, |es|);
    var a := es[..i];
    var b := es[t..];
    assert a == es[0..i] && b == es[t..|es|];
    assert forall q :: 0 <= q < |a| ==> a[q] == es[q];
    assert forall q :: 0 <= q < |b| ==> b[q] == es[t + q];
    ConcatValid(a, e, b, maxSum);
  }

  /** setValue keeps the map a staircase. */
  lemma SetEntriesValid(es: seq<Entry>, maxSum: bool, sum: int, subm: int)
    requires ValidEntries(es, maxSum)
    ensures ValidEntries(SetEntries(es, maxSum, sum, subm), maxSum)
  {
    if !Lt(Fin(subm), Floor(es, maxSum, sum)) {
      var i := FirstGe(es, maxSum, sum, 0);
      var t := RunEnd(es, subm, i);
      Surroundings(es, maxSum, sum, subm, i, t);
      SpliceValid(es, maxSum, i, t, Entry(sum, subm));
    }
  }

  /** The floor index of s after splicing e in place of es[i..t), when the
      old floor entry survives beyond the new entry. */
  lemma LastLeSpliceKept(es: seq<Entry>, maxSum: bool, i: int, t: int, e: Entry, s: int)
    requires 0 <= i <= t <= |es| && LastLe(es, maxSum, s) >= t
    ensures LastLe(es[..i] + [e] + es[t..], maxSum, s) == i + 1 + LastLe(es, maxSum, s) - t
  {
    var r := es[..i] + [e] + es[t..];
    SpliceIndex(es, i, e, t);
    var p := LastLe(es, maxSum, s);
    assert r[i + 1 + p - t] == es[p];
    assert forall q :: i + 1 + p - t < q < |r| ==> r[q] == es[t + q - i - 1];
  }

  /** ... when the new entry is at or below s and the old floor entry does
      not survive beyond it. */
  lemma LastLeSpliceNew(es: seq<Entry>, maxSum: bool, i: int, t: int, e: Entry, s: int)
    requires 0 <= i <= t <= |es| && LastLe(es, maxSum, s) < t && KeyLe(maxSum, e, s)
    ensures LastLe(es[..i] + [e] + es[t..], maxSum, s) == i
  {
    var r := es[..i] + [e] + es[t..];
    SpliceIndex(es, i, e, t);
    assert forall q :: i < q < |r| ==> r[q] == es[t + q - i - 1];
  }

  /** ... when the old floor entry lies before the new entry, which is
      beyond s. */
  lemma LastLeSpliceBefore(es: seq<Entry>, maxSum: bool, i: int, t: int, e: Entry, s: int)
    requires 0 <= i <= t <= |es| && LastLe(es, maxSum, s) < i && !KeyLe(maxSum, e, s)
    ensures LastLe(es[..i] + [e] + es[t..], maxSum, s) == LastLe(es, maxSum, s)
    ensures Floor(es[..i] + [e] + es[t..], maxSum, s) == Floor(es, maxSum, s)
  {
    var r := es[..i] + [e] + es[t..];
    SpliceIndex(es, i, e, t);
    var p := LastLe(es, maxSum, s);
    assert forall q :: i < q < |r| ==> r[q] == es[t + q - i - 1];
    if p >= 0 {
      assert r[p] == es[p];
    }
  }

  /** A skipped update: every sum at or beyond sum already has a floor
      above subm. */
  lemma FloorSkipped(es: seq<Entry>, maxSum: bool, sum: int, subm: int, s: int)
    requires ValidEntries(es, maxSum) && Lt(Fin(subm), Floor(es, maxSum, sum))
    ensures Floor(es, maxSum, s) ==
            Max(Floor(es, maxSum, s), if Ok(maxSum, sum) <= Ok(maxSum, s) then Fin(subm) else NegInf)
  {
    if Ok(maxSum, sum) <= Ok(maxSum, s) {
      FloorMonotone(es, maxSum, sum, s);
    }
  }

  /** An applied update, for a sum before sum. */
  lemma FloorAppliedBefore(es: seq<Entry>, maxSum: bool, sum: int, subm: int, s: int, i: int, t: int)
    requires ValidEntries(es, maxSum) && !Lt(Fin(subm), Floor(es, maxSum, sum))
    requires i == FirstGe(es, maxSum, sum, 0) && t == RunEnd(es, subm, i)
    requires Ok(maxSum, s) < Ok(maxSum, sum)
    ensures Floor(es[..i] + [Entry(sum, subm)] + es[t..], maxSum, s) == Floor(es, maxSum, s)
  {
    LastLeBeforeTail(es, maxSum, sum, s);
    LastLeSpliceBefore(es, maxSum, i, t, Entry(sum, subm), s);
  }

  /** The floor entry of a sum below sum lies before the tail map of sum. */
  lemma LastLeBeforeTail(es: seq<Entry>, maxSum: bool, sum: int, s: int)
    requires ValidEntries(es, maxSum) && Ok(maxSum, s) < Ok(maxSum, sum)
    ensures LastLe(es, maxSum, s) < FirstGe(es, maxSum, sum, 0)
  {
    var p, i := LastLe(es, maxSum, s), FirstGe(es, maxSum, sum, 0);
    if i < |es| {
      assert forall q :: i <= q < |es| ==> Ok(maxSum, sum) <= Ok(maxSum, es[q].key);
    }
  }

  /** An applied update, for a sum at or beyond sum whose floor entry
      survives: the entries kept from t on all hold more than subm. */
  lemma FloorAppliedKept(es: seq<Entry>, maxSum: bool, e: Entry, s: int, i: int, t: int)
    requires ValidEntries(es, maxSum) && 0 <= i <= t <= |es|
    requires t < |es| ==> e.val < es[t].val
    requires LastLe(es, maxSum, s) >= t
    ensures Floor(es[..i] + [e] + es[t..], maxSum, s) == Floor(es, maxSum, s)
    ensures Lt(Fin(e.val), Floor(es, maxSum, s))
  {
    var p := LastLe(es, maxSum, s);
    assert e.val < es[p].val by {
      assert es[t].val <= es[p].val;
    }
    SpliceIndex(es, i, e, t);
    LastLeSpliceKept(es, maxSum, i, t, e, s);
  }

  /** An applied update, for a sum at or beyond sum whose floor entry is
      removed or precedes sum. */
  lemma FloorAppliedNew(es: seq<Entry>, maxSum: bool, sum: int, subm: int, s: int, i: int, t: int)
    requires ValidEntries(es, maxSum) && !Lt(Fin(subm), Floor(es, maxSum, sum))
    requires i == FirstGe(es, maxSum, sum, 0) && t == RunEnd(es, subm, i)
    requires Ok(maxSum, sum) <= Ok(maxSum, s) && LastLe(es, maxSum, s) < t
    ensures Floor(es[..i] + [Entry(sum, subm)] + es[t..], maxSum, s) == Fin(subm)
    ensures Le(Floor(es, maxSum, s), Fin(subm))
  {
    Surroundings(es, maxSum, sum, subm, i, t);
    LastLeSpliceNew(es, maxSum, i, t, Entry(sum, subm), s);
    SpliceIndex(es, i, Entry(sum, subm), t);
  }

  /** The floor values after setValue(sum, subm): every sum at or beyond sum
      (in map order) is lifted to at least subm and nothing else changes.  In
      particular no floor value ever drops. */
  lemma SetEntriesFloor(es: seq<Entry>, maxSum: bool, sum: int, subm: int, s: int)
    requires ValidEntries(es, maxSum)
    ensures Floor(SetEntries(es, maxSum, sum, subm), maxSum, s) ==
            Max(Floor(es, maxSum, s), if Ok(maxSum, sum) <= Ok(maxSum, s) then Fin(subm) else NegInf)
  {
    if Lt(Fin(subm), Floor(es, maxSum, sum)) {
      FloorSkipped(es, maxSum, sum, subm, s);
    } else {
      var i := FirstGe(es, maxSum, sum, 0);
      var t := RunEnd(es, subm, i);
      assert SetEntries(es, maxSum, sum, subm) == es[..i] + [Entry(sum, subm)] + es[t..];
      if Ok(maxSum, s) < Ok(maxSum, sum) {
        FloorAppliedBefore(es, maxSum, sum, subm, s, i, t);
      } else if LastLe(es, maxSum, s) >= t {
        FloorAppliedKept(es, maxSum, Entry(sum, subm), s, i, t);
      } else {
        FloorAppliedNew(es, maxSum, sum, subm, s, i, t);
      }
    }
  }

  lemma SetEntriesFloorAll(es: seq<Entry>, maxSum: bool, sum: int, subm: int)
    requires ValidEntries(es, maxSum)
    ensures forall s :: Floor(SetEntries(es, maxSum, sum, subm), maxSum, s) ==
              Max(Floor(es, maxSum, s), if Ok(maxSum, sum) <= Ok(maxSum, s) then Fin(subm) else NegInf)
  {
    forall s ensures Floor(SetEntries(es, maxSum, sum, subm), maxSum, s) ==
        Max(Floor(es, maxSum, s), if Ok(maxSum, sum) <= Ok(maxSum, s) then Fin(subm) else NegInf)
    {
      SetEntriesFloor(es, maxSum, sum, subm, s);
    }
  }

  /** The walk to the first entry of `tailMap(sum, true)`. */
  method TailStart(es: seq<Entry>, maxSum: bool, sum: int) returns (i: int)
    ensures i == FirstGe(es, maxSum, sum, 0)
  {
    i := 0;
    while i < |es| && Ok(maxSum, es[i].key) < Ok(maxSum, sum)
      invariant 0 <= i <= |es|
      invariant forall q :: 0 <= q < i ==> Ok(maxSum, es[q].key) < Ok(maxSum, sum)
    {
      i := i + 1;
    }
    FirstGeIs(es, maxSum, sum, i);
  }

  /** The iterator loop of setValue: it removes entries from i on while
      their value is at most subm, and stops at the first larger one. */
  method RemovalEnd(es: seq<Entry>, subm: int, i: int) returns (t: int)
    requires 0 <= i <= |es|
    ensures t == RunEnd(es, subm, i)
  {
    t := i;
    while t < |es| && es[t].val <= subm
      invariant i <= t <= |es|
      invariant forall q :: i <= q < t ==> es[q].val <= subm
    {
      t := t + 1;
    }
    RunEndIs(es, subm, i, t);
  }

  /** The two kinds of store.  The plain one (synchronized false) keeps the
      single field `value`; the synchronized one keeps the staircase
      `skyline`, ordered by maxSum. */
  /** What setValue establishes about the staircase it builds. */
  lemma SetValueFacts(es: seq<Entry>, es': seq<Entry>, maxSum: bool, sum: int, subm: int)
    requires ValidEntries(es, maxSum) && es' == SetEntries(es, maxSum, sum, subm)
    ensures ValidEntries(es', maxSum)
    ensures forall s :: Floor(es', maxSum, s) ==
              Max(Floor(es, maxSum, s), if Ok(maxSum, sum) <= Ok(maxSum, s) then Fin(subm) else NegInf)
  {
    SetEntriesValid(es, maxSum, sum, subm);
    SetEntriesFloorAll(es, maxSum, sum, subm);
  }

  class MutableDouble {
    const synchronized: bool
    const maxSum: bool
    var value: XInt
    var skyline: seq<Entry>

    ghost predicate Valid()
      reads this
    {
      synchronized ==> ValidEntries(skyline, maxSum)
    }

    /** `new MutableDouble()` / `new SynchronizedMutableDouble(maxSum)`:
        every sum starts with value -infinity. */
    constructor (synchronized: bool, maxSum: bool)
      ensures this.synchronized == synchronized && this.maxSum == maxSum
      ensures Valid()
      ensures value == NegInf && skyline == []
      ensures forall s :: Value(s) == NegInf
    {
      this.synchronized := synchronized;
      this.maxSum := maxSum;
      value := NegInf;
      skyline := [];
    }

    /** `value(sum)`: the single number, or the floor entry's value. */
    function Value(sum: int): XInt
      reads this
    {
      if synchronized then Floor(skyline, maxSum, sum) else value
    }

    /** `setValue(sum, subm)`.  The plain store is overwritten; the
        synchronized one is updated as SetEntries says, which lifts exactly
        the sums at or beyond sum to at least subm. */
    method SetValue(sum: int, subm: int)
      requires Valid()
      modifies this
      ensures Valid()
      ensures !synchronized ==> value == Fin(subm) && skyline == old(skyline)
      ensures synchronized ==> value == old(value) && skyline == SetEntries(old(skyline), maxSum, sum, subm)
      ensures synchronized ==>
                forall s :: Value(s) == Max(old(Value(s)), if Ok(maxSum, sum) <= Ok(maxSum, s) then Fin(subm) else NegInf)
    {
      if !synchronized {
        value := Fin(subm);
        return;
      }
      var es := skyline;
      if !Lt(Fin(subm), Floor(es, maxSum, sum)) {
        var i := TailStart(es, maxSum, sum);
        var t := RemovalEnd(es, subm, i);
        skyline := Splice(es, i, t, Entry(sum, subm));
      }
      SetValueFacts(es, skyline, maxSum, sum, subm);
    }
  }
}
