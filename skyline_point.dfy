/** SkylinePoint: a k-subset of items together with its two objective values.
    Only `toActualItems` ever changes a point, by replacing its item array;
    here it returns the replaced point, so points are values. */
module SkylinePoint {
  import Utils
  import Evaluator

  datatype Point = Point(items: seq<int>, sumValue: int, submValue: int)

  /** `getEmptyPoint()`: the point of the empty set. */
  function EmptyPoint(): (r: Point)
    ensures |r.items| == 0 && r.sumValue == 0 && r.submValue == 0
  {
    Point([], 0, 0)
  }

  /** `suffixItems(beginPos)`: the items from beginPos on. */
  method SuffixItems(p: Point, beginPos: int) returns (s: seq<int>)
    requires 0 <= beginPos <= |p.items|
    ensures s == p.items[beginPos..]
  {
    s := Utils.ArraySuffix(p.items, beginPos);
  }

  /** `toActualItems(eval)`: items mapped through origItem; sum and value
      are kept. */
  method ToActualItems(p: Point, origItem: seq<int>) returns (r: Point)
    requires forall i :: 0 <= i < |p.items| ==> 0 <= p.items[i] < |origItem|
    ensures |r.items| == |p.items|
    ensures forall i :: 0 <= i < |p.items| ==> r.items[i] == origItem[p.items[i]]
    ensures r.sumValue == p.sumValue && r.submValue == p.submValue
  {
    var a := Evaluator.ActualItems(origItem, p.items);
    r := p.(items := a);
  }

  /** `contains(item)`. */
  method Contains(p: Point, item: int) returns (b: bool)
    ensures b <==> item in p.items
  {
    var i := Utils.ArrayIndexOf(item, p.items);
    b := i >= 0;
  }

  /** `hasSubset(set)`: every element of set is one of the point's items. */
  method HasSubset(p: Point, s: seq<int>) returns (b: bool)
    ensures b <==> forall x :: x in s ==> x in p.items
  {
    b := Utils.IsSubset(s, p.items);
  }

  /** `hasSubset(other)`. */
  method HasSubsetPoint(p: Point, other: Point) returns (b: bool)
    ensures b <==> forall x :: x in other.items ==> x in p.items
  {
    b := Utils.IsSubset(other.items, p.items);
  }

  predicate Sorted(s: seq<int>)
  {
    forall i, j :: 0 <= i < j < |s| ==> s[i] <= s[j]
  }

  /** An int sorts by its own value. */
  function IntKey(x: int): int { x }

  /** `Arrays.sort(int[])`: the ascending arrangement of the same elements. */
  function SortInts(s: seq<int>): (r: seq<int>)
    ensures Sorted(r) && multiset(r) == multiset(s) && |r| == |s|
  {
    var r := Utils.SortBy(s, IntKey);
    assert forall i, j :: 0 <= i < j < |r| ==> IntKey(r[i]) <= IntKey(r[j]);
    r
  }

  /** Two ascending sequences with the same elements are equal, so the
      sorted item array names the set regardless of insertion order. */
  lemma {:induction false} SortedUnique(a: seq<int>, b: seq<int>)
    requires Sorted(a) && Sorted(b) && multiset(a) == multiset(b)
    ensures a == b
    decreases |a|
  {
    assert |a| == |multiset(a)| && |b| == |multiset(b)|;
    if a != [] {
      SortedHeadMin(b, a[0]);
      SortedHeadMin(a, b[0]);
      assert a[0] == b[0];
      assert a == [a[0]] + a[1..];
      assert b == [b[0]] + b[1..];
      assert multiset(a) == multiset{a[0]} + multiset(a[1..]);
      assert multiset(b) == multiset{b[0]} + multiset(b[1..]);
      assert multiset(a[1..]) == multiset(a) - multiset{a[0]};
      assert multiset(b[1..]) == multiset(b) - multiset{b[0]};
      SortedUnique(a[1..], b[1..]);
    }
  }

  lemma SortedHeadMin(s: seq<int>, v: int)
    requires Sorted(s) && v in multiset(s)
    ensures s != [] && s[0] <= v
  {
    assert v in s;
  }

  /** `extend(item)`: the sorted items with item added; the point is
      untouched. */
  function Extend(p: Point, item: int): (r: seq<int>)
    ensures |r| == |p.items| + 1
    ensures Sorted(r)
    ensures multiset(r) == multiset(p.items) + multiset{item}
  {
    SortInts(p.items + [item])
  }

  /** The items in [lo, hi) the point lacks, ascending. */
  function Missing(items: seq<int>, lo: int, hi: int): (r: seq<int>)
    decreases hi - lo
  {
    if hi <= lo then []
    else if hi - 1 in items then Missing(items, lo, hi - 1)
    else Missing(items, lo, hi - 1) + [hi - 1]
  }

  lemma {:induction false} MissingMembers(items: seq<int>, lo: int, hi: int)
    ensures forall x :: x in Missing(items, lo, hi) <==> lo <= x < hi && x !in items
    ensures forall a, b :: 0 <= a < b < |Missing(items, lo, hi)| ==>
              Missing(items, lo, hi)[a] < Missing(items, lo, hi)[b]
    decreases hi - lo
  {
    if hi > lo {
      MissingMembers(items, lo, hi - 1);
      var prev := Missing(items, lo, hi - 1);
      assert forall a :: 0 <= a < |prev| ==> prev[a] in prev;
    }
  }

  /** `extensionSets(numItems)`: one extension per item of [0, numItems)
      that the point lacks, in increasing item order. */
  method ExtensionSets(p: Point, numItems: int) returns (ext: seq<seq<int>>)
    ensures |ext| == |Missing(p.items, 0, numItems)|
    ensures forall t :: 0 <= t < |ext| ==> ext[t] == Extend(p, Missing(p.items, 0, numItems)[t])
  {
    ext := [];
    var item := 0;
    while item < numItems
      invariant 0 <= item && (item <= numItems || item == 0)
      invariant |ext| == |Missing(p.items, 0, item)|
      invariant forall t :: 0 <= t < |ext| ==> ext[t] == Extend(p, Missing(p.items, 0, item)[t])
    {
      var idx := Utils.ArrayIndexOf(item, p.items);
      if idx == -1 {
        var newItems := SortInts(p.items + [item]);
        ext := ext + [newItems];
      }
      item := item + 1;
    }
  }

  /** The extensions are exactly the sorted (|items|+1)-sets adding one
      absent item below numItems. */
  lemma ExtensionSetsMembers(p: Point, numItems: int, e: seq<int>)
    ensures (exists t :: 0 <= t < |Missing(p.items, 0, numItems)| && e == Extend(p, Missing(p.items, 0, numItems)[t]))
            <==> (exists x :: 0 <= x < numItems && x !in p.items && e == Extend(p, x))
  {
    var m := Missing(p.items, 0, numItems);
    if exists x :: 0 <= x < numItems && x !in p.items && e == Extend(p, x) {
      var x :| 0 <= x < numItems && x !in p.items && e == Extend(p, x);
      ExtensionOfAbsent(p, numItems, e, x);
    }
    if exists t :: 0 <= t < |m| && e == Extend(p, m[t]) {
      var t :| 0 <= t < |m| && e == Extend(p, m[t]);
      AbsentOfExtension(p, numItems, e, t);
    }
  }

  lemma ExtensionOfAbsent(p: Point, numItems: int, e: seq<int>, x: int)
    requires 0 <= x < numItems && x !in p.items && e == Extend(p, x)
    ensures exists t :: 0 <= t < |Missing(p.items, 0, numItems)| && e == Extend(p, Missing(p.items, 0, numItems)[t])
  {
    var t := MissingIndex(p.items, 0, numItems, x);
    assert e == Extend(p, Missing(p.items, 0, numItems)[t]);
  }

  lemma AbsentOfExtension(p: Point, numItems: int, e: seq<int>, t: int)
    requires 0 <= t < |Missing(p.items, 0, numItems)| && e == Extend(p, Missing(p.items, 0, numItems)[t])
    ensures exists x :: 0 <= x < numItems && x !in p.items && e == Extend(p, x)
  {
    MissingAt(p.items, 0, numItems, t);
  }

  /** Every entry of the list of absent items is absent and in range. */
  lemma MissingAt(items: seq<int>, lo: int, hi: int, t: int)
    requires 0 <= t < |Missing(items, lo, hi)|
    ensures lo <= Missing(items, lo, hi)[t] < hi && Missing(items, lo, hi)[t] !in items
  {
    MissingMembers(items, lo, hi);
    assert Missing(items, lo, hi)[t] in Missing(items, lo, hi);
  }

  /** Where an absent item sits in the list of absent items. */
  lemma {:induction false} MissingIndex(items: seq<int>, lo: int, hi: int, x: int) returns (t: nat)
    requires lo <= x < hi && x !in items
    ensures t < |Missing(items, lo, hi)| && Missing(items, lo, hi)[t] == x
    decreases hi - lo
  {
    var prev := Missing(items, lo, hi - 1);
    if x == hi - 1 {
      t := |prev|;
    } else {
      t := MissingIndex(items, lo, hi - 1, x);
    }
  }

  /** `equals(other)`: compares only the first |items| items, ignoring sum
      and value; a shorter other point without an earlier mismatch makes
      the Java loop index out of range. */
  method Equals(p: Point, other: Point) returns (b: bool)
    requires |p.items| <= |other.items| ||
             exists i :: 0 <= i < |other.items| && p.items[i] != other.items[i]
    ensures b <==> |p.items| <= |other.items| && p.items == other.items[..|p.items|]
  {
    var i := 0;
    while i < |p.items|
      invariant 0 <= i <= |p.items|
      invariant i <= |other.items|
      invariant p.items[..i] == other.items[..i]
    {
      if p.items[i] != other.items[i] {
        return false;
      }
      i := i + 1;
      if i > |other.items| {
        assert false;
      }
    }
    b := true;
  }
}

/** Skyline helpers of Utils that work on points. */
module PointUtils {
  import Utils
  import CM = ColumnMajor
  import opened SkylinePoint
  import Evaluator

  /** The sort key of the point comparator: ascending sum for min-sum,
      descending sum for max-sum. */
  function Key(maxSum: bool, p: Point): int
  {
    if maxSum then -p.sumValue else p.sumValue
  }

  /** The comparator's order as a key function, for sorting. */
  function SumKey(maxSum: bool): Point -> int
  {
    p => Key(maxSum, p)
  }

  function Signum(x: int): int
  {
    if x < 0 then -1 else if x > 0 then 1 else 0
  }

  /** `getSkylinePointComparator(maxSum)`: the sign of the sum difference,
      reversed for max-sum; it orders points by Key. */
  function ComparePoints(maxSum: bool, a: Point, b: Point): (r: int)
    ensures r == -1 || r == 0 || r == 1
    ensures r < 0 <==> Key(maxSum, a) < Key(maxSum, b)
    ensures r == 0 <==> Key(maxSum, a) == Key(maxSum, b)
  {
    if maxSum then Signum(b.sumValue - a.sumValue) else Signum(a.sumValue - b.sumValue)
  }

  /** The cell value skylineAsArray puts in column c for a point. */
  function CellValue(p: Point, c: int): int
  {
    if c == 0 then p.sumValue
    else if c == 1 then p.submValue
    else if 2 <= c < |p.items| + 2 then p.items[c - 2]
    else 0
  }

  /** Cell (i, c) of an n-by-m column-major table. */
  ghost function Cell(arr: array<int>, n: nat, m: nat, i: int, c: int): int
    reads arr
    requires arr.Length == n * m && 0 <= i < n && 0 <= c < m
  {
    CM.IndexInRange(n, m, i, c);
    arr[CM.Index(n, i, c)]
  }

  /** `skylineAsArray(skyline)`: an n-by-(k+2) column-major table with the
      sums, the values and then the items of each point; k is the size of
      the first point, cells of shorter points stay 0.  An empty skyline or a
      point longer than the first makes the Java code fail. */
  method SkylineAsArray(skyline: seq<Point>) returns (s: seq<int>)
    requires |skyline| > 0
    requires forall i :: 0 <= i < |skyline| ==> |skyline[i].items| <= |skyline[0].items|
    ensures |s| == |skyline| * (|skyline[0].items| + 2)
    ensures forall i, c :: 0 <= i < |skyline| && 0 <= c < |skyline[0].items| + 2 ==>
              0 <= CM.Index(|skyline|, i, c) < |s| && s[CM.Index(|skyline|, i, c)] == CellValue(skyline[i], c)
  {
    var n := |skyline|;
    var m := |skyline[0].items| + 2;
    var arr := new int[n * m](_ => 0);
    CellsOfTable(arr, n, m);
    var i := 0;
    while i < n
      invariant 0 <= i <= n
      invariant forall i2, c :: 0 <= i2 < n && 0 <= c < m ==>
                  Cell(arr, n, m, i2, c) == if i2 < i then CellValue(skyline[i2], c) else 0
    {
      WriteRow(arr, n, m, i, skyline[i]);
      i := i + 1;
    }
    s := arr[..];
    CellsOfTable(arr, n, m);
  }

  lemma CellsOfTable(arr: array<int>, n: nat, m: nat)
    requires arr.Length == n * m
    ensures forall i, c :: 0 <= i < n && 0 <= c < m ==>
              0 <= CM.Index(n, i, c) < arr.Length && arr[..][CM.Index(n, i, c)] == Cell(arr, n, m, i, c)
  {
    forall i, c | 0 <= i < n && 0 <= c < m
      ensures 0 <= CM.Index(n, i, c) < arr.Length && arr[..][CM.Index(n, i, c)] == Cell(arr, n, m, i, c)
    {
      CM.IndexInRange(n, m, i, c);
    }
  }

  /** Fills row i, which is still all zero, with the point's cells; the
      other rows are unchanged. */
  method WriteRow(arr: array<int>, n: nat, m: nat, i: int, p: Point)
    requires arr.Length == n * m && 0 <= i < n && 2 <= m && |p.items| + 2 <= m
    requires forall c :: 0 <= c < m ==> Cell(arr, n, m, i, c) == 0
    modifies arr
    ensures forall c :: 0 <= c < m ==> Cell(arr, n, m, i, c) == CellValue(p, c)
    ensures forall i2, c :: 0 <= i2 < n && i2 != i && 0 <= c < m ==>
              Cell(arr, n, m, i2, c) == old(Cell(arr, n, m, i2, c))
  {
    WriteCell(arr, n, m, i, 0, p.sumValue);
    WriteCell(arr, n, m, i, 1, p.submValue);
    var j := 0;
    while j < |p.items|
      invariant 0 <= j <= |p.items|
      invariant forall c :: 0 <= c < m ==> Cell(arr, n, m, i, c) == if c < j + 2 then CellValue(p, c) else 0
      invariant forall i2, c :: 0 <= i2 < n && i2 != i && 0 <= c < m ==>
                  Cell(arr, n, m, i2, c) == old(Cell(arr, n, m, i2, c))
    {
      WriteCell(arr, n, m, i, j + 2, p.items[j]);
      j := j + 1;
    }
  }

  /** Writes cell (i, c) of the table; every other cell is unchanged. */
  method WriteCell(arr: array<int>, n: nat, m: nat, i: int, c: int, v: int)
    requires arr.Length == n * m && 0 <= i < n && 0 <= c < m
    modifies arr
    ensures Cell(arr, n, m, i, c) == v
    ensures forall i2, c2 :: 0 <= i2 < n && 0 <= c2 < m && (i2 != i || c2 != c) ==>
              Cell(arr, n, m, i2, c2) == old(Cell(arr, n, m, i2, c2))
  {
    CM.IndexInRange(n, m, i, c);
    arr[CM.Index(n, i, c)] := v;
    forall i2, c2 | 0 <= i2 < n && 0 <= c2 < m && (i2 != i || c2 != c)
      ensures Cell(arr, n, m, i2, c2) == old(Cell(arr, n, m, i2, c2))
    {
      CM.IndexInjective(n, i, c, i2, c2);
    }
  }

  /** `toActualItems(skyline, eval)`: every point mapped back to the
      caller's item ids. */
  method ToActualItemsAll(skyline: seq<Point>, origItem: seq<int>) returns (r: seq<Point>)
    requires forall p :: p in skyline ==> forall i :: 0 <= i < |p.items| ==> 0 <= p.items[i] < |origItem|
    ensures |r| == |skyline|
    ensures forall t :: 0 <= t < |r| ==>
              |r[t].items| == |skyline[t].items| &&
              r[t].sumValue == skyline[t].sumValue && r[t].submValue == skyline[t].submValue &&
              forall i :: 0 <= i < |r[t].items| ==> r[t].items[i] == origItem[skyline[t].items[i]]
  {
    r := [];
    var t := 0;
    while t < |skyline|
      invariant 0 <= t <= |skyline| && |r| == t
      invariant forall u :: 0 <= u < t ==>
                  |r[u].items| == |skyline[u].items| &&
                  r[u].sumValue == skyline[u].sumValue && r[u].submValue == skyline[u].submValue &&
                  forall i :: 0 <= i < |r[u].items| ==> r[u].items[i] == origItem[skyline[u].items[i]]
    {
      var q := ToActualItems(skyline[t], origItem);
      r := r + [q];
      t := t + 1;
    }
  }

  // ---------------------------------------------------------------------
  // Running-maximum scans (the merge of joinSkylines, and updateSkyline of the
  // level-wise search).

  /** A value beats the best one so far: strictly (`>`), or with ties (`>=`). */
  predicate Beats(v: int, best: int, strict: bool)
  {
    if strict then v > best else v >= best
  }

  /** The scan loop: keeps each point whose value beats the best value kept
      so far, which it then becomes. */
  function KeepFrom(s: seq<Point>, best: int, strict: bool): seq<Point>
  {
    if s == [] then []
    else if Beats(s[0].submValue, best, strict) then [s[0]] + KeepFrom(s[1..], s[0].submValue, strict)
    else KeepFrom(s[1..], best, strict)
  }

  /** The scan that keeps the first point unconditionally. */
  function Records(s: seq<Point>, strict: bool): seq<Point>
  {
    if s == [] then [] else [s[0]] + KeepFrom(s[1..], s[0].submValue, strict)
  }

  /** Point i beats every point before it. */
  predicate IsRecord(s: seq<Point>, i: int, strict: bool)
    requires 0 <= i < |s|
  {
    forall m :: 0 <= m < i ==> Beats(s[i].submValue, s[m].submValue, strict)
  }

  /** The reference definition: the points that beat every earlier point,
      in their original order. */
  function RecordFilter(s: seq<Point>, strict: bool): seq<Point>
  {
    if s == [] then []
    else RecordFilter(s[..|s| - 1], strict) + (if IsRecord(s, |s| - 1, strict) then [s[|s| - 1]] else [])
  }

  /** The largest value of a nonempty sequence. */
  function MaxSubm(s: seq<Point>): int
    requires s != []
  {
    if |s| == 1 then s[0].submValue
    else
      var m := MaxSubm(s[..|s| - 1]);
      if s[|s| - 1].submValue > m then s[|s| - 1].submValue else m
  }

  lemma {:induction false} MaxSubmIsMax(s: seq<Point>)
    requires s != []
    ensures forall m :: 0 <= m < |s| ==> s[m].submValue <= MaxSubm(s)
    ensures exists m :: 0 <= m < |s| && s[m].submValue == MaxSubm(s)
  {
    if |s| > 1 {
      var init := s[..|s| - 1];
      MaxSubmIsMax(init);
      var w :| 0 <= w < |init| && init[w].submValue == MaxSubm(init);
      assert s[w] == init[w];
      forall m | 0 <= m < |s| - 1 ensures s[m].submValue <= MaxSubm(s) {
        assert s[m] == init[m];
      }
      if s[|s| - 1].submValue <= MaxSubm(init) {
        assert s[w].submValue == MaxSubm(s);
      }
    } else {
      assert s[0].submValue == MaxSubm(s);
    }
  }

  /** Beating the maximum is beating every point. */
  lemma BeatsMax(s: seq<Point>, v: int, strict: bool)
    requires s != []
    ensures Beats(v, MaxSubm(s), strict) <==> forall m :: 0 <= m < |s| ==> Beats(v, s[m].submValue, strict)
  {
    MaxSubmIsMax(s);
  }

  /** After a nonempty prefix, the scan continues with the prefix maximum
      as its best value. */
  lemma {:induction false} KeepFromIsFilter(pr: seq<Point>, t: seq<Point>, strict: bool)
    requires pr != []
    ensures RecordFilter(pr + t, strict) == RecordFilter(pr, strict) + KeepFrom(t, MaxSubm(pr), strict)
    decreases |t|
  {
    if t == [] {
      assert pr + t == pr;
    } else {
      var x := t[0];
      var pr' := pr + [x];
      assert pr + t == pr' + t[1..];
      assert pr'[..|pr'| - 1] == pr && pr'[|pr'| - 1] == x;
      var b := Beats(x.submValue, MaxSubm(pr), strict);
      BeatsMax(pr, x.submValue, strict);
      assert IsRecord(pr', |pr|, strict) <==> b by {
        forall m | 0 <= m < |pr| ensures pr'[m] == pr[m] { }
      }
      assert RecordFilter(pr', strict) == RecordFilter(pr, strict) + (if b then [x] else []);
      assert MaxSubm(pr') == if b then x.submValue else MaxSubm(pr);
      KeepFromIsFilter(pr', t[1..], strict);
      var A, B, C := RecordFilter(pr, strict), (if b then [x] else []), KeepFrom(t[1..], MaxSubm(pr'), strict);
      assert KeepFrom(t, MaxSubm(pr), strict) == B + C;
      assert RecordFilter(pr + t, strict) == (A + B) + C;
      ConcatAssoc(A, B, C);
    }
  }

  lemma ConcatAssoc(a: seq<Point>, b: seq<Point>, c: seq<Point>)
    ensures (a + b) + c == a + (b + c)
  {
  }

  /** The scan keeps exactly the points that beat every earlier point. */
  lemma RecordsIsFilter(s: seq<Point>, strict: bool)
    ensures Records(s, strict) == RecordFilter(s, strict)
  {
    if s != [] {
      var pr := [s[0]];
      assert RecordFilter(pr, strict) == [s[0]] by {
        assert pr[..0] == [];
      }
      KeepFromIsFilter(pr, s[1..], strict);
      assert pr + s[1..] == s;
    }
  }

  /** Every kept value beats the starting best value and the value kept
      before it. */
  lemma {:induction false} KeepFromRises(s: seq<Point>, best: int, strict: bool)
    ensures forall i :: 0 <= i < |KeepFrom(s, best, strict)| ==>
              Beats(KeepFrom(s, best, strict)[i].submValue, best, strict)
    ensures forall i :: 0 < i < |KeepFrom(s, best, strict)| ==>
              Beats(KeepFrom(s, best, strict)[i].submValue, KeepFrom(s, best, strict)[i - 1].submValue, strict)
    decreases |s|
  {
    if s != [] {
      if Beats(s[0].submValue, best, strict) {
        KeepFromRises(s[1..], s[0].submValue, strict);
      } else {
        KeepFromRises(s[1..], best, strict);
      }
    }
  }

  /** The kept values rise: weakly with ties kept, strictly otherwise; the
      first point is always kept. */
  lemma RecordsRise(s: seq<Point>, strict: bool)
    ensures s != [] ==> |Records(s, strict)| >= 1 && Records(s, strict)[0] == s[0]
    ensures forall i :: 0 < i < |Records(s, strict)| ==>
              Beats(Records(s, strict)[i].submValue, Records(s, strict)[i - 1].submValue, strict)
  {
    if s != [] {
      KeepFromRises(s[1..], s[0].submValue, strict);
    }
  }

  /** The scan only drops points: every kept point is one of the input. */
  lemma {:induction false} RecordFilterMembers(s: seq<Point>, strict: bool)
    ensures forall x :: x in RecordFilter(s, strict) ==> x in s
    decreases |s|
  {
    if s != [] {
      var init := s[..|s| - 1];
      RecordFilterMembers(init, strict);
      assert forall x :: x in init ==> x in s;
    }
  }

  /** The scan keeps the order of its input, so a sorted input gives a
      sorted output. */
  lemma {:induction false} RecordFilterSorted(s: seq<Point>, strict: bool, key: Point -> int)
    requires Utils.SortedBy(s, key)
    ensures Utils.SortedBy(RecordFilter(s, strict), key)
    decreases |s|
  {
    if s != [] {
      var init := s[..|s| - 1];
      assert Utils.SortedBy(init, key);
      RecordFilterSorted(init, strict, key);
      RecordFilterMembers(init, strict);
      var f := RecordFilter(init, strict);
      forall a | 0 <= a < |f| ensures key(f[a]) <= key(s[|s| - 1]) {
        assert f[a] in init;
        var m :| 0 <= m < |init| && init[m] == f[a];
        assert s[m] == init[m];
      }
    }
  }
}
