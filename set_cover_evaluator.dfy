/** SetCoverEvaluator: the oracle of a weighted set-cover instance.  The
    items are the sets (the columns of a 0/1 matrix whose rows are the
    universe), the additive objective is their total value and the
    submodular one the number of universe elements they cover. */
module SetCoverEvaluator {
  import IM = IntMatrix
  import CM = ColumnMajor
  import Utils

  /** The total value of `items`, summed left to right. */
  function SumOf(values: seq<int>, items: seq<int>): int
    requires forall i :: 0 <= i < |items| ==> 0 <= items[i] < |values|
  {
    if items == [] then 0
    else SumOf(values, items[..|items| - 1]) + values[items[|items| - 1]]
  }

  /** The sum is additive over concatenation. */
  lemma {:induction false} SumOfConcat(values: seq<int>, a: seq<int>, b: seq<int>)
    requires forall i :: 0 <= i < |a| ==> 0 <= a[i] < |values|
    requires forall i :: 0 <= i < |b| ==> 0 <= b[i] < |values|
    ensures SumOf(values, a + b) == SumOf(values, a) + SumOf(values, b)
    decreases |b|
  {
    if b != [] {
      var b' := b[..|b| - 1];
      assert (a + b)[..|a + b| - 1] == a + b';
      assert (a + b)[|a + b| - 1] == b[|b| - 1];
      SumOfConcat(values, a, b');
      calc {
        SumOf(values, a + b);
        SumOf(values, a + b') + values[b[|b| - 1]];
        SumOf(values, a) + SumOf(values, b') + values[b[|b| - 1]];
        SumOf(values, a) + SumOf(values, b);
      }
    } else {
      assert a + b == a;
    }
  }

  /** The sum of one item is its value, so the two `sumFnc` overloads agree. */
  lemma SumOfSingle(values: seq<int>, item: int)
    requires 0 <= item < |values|
    ensures SumOf(values, [item]) == values[item]
  {
    assert [item][..0] == [];
  }

  /** The rows `0..n`. */
  function RowsBelow(n: int): (r: set<int>)
    ensures forall x :: x in r <==> 0 <= x < n
  {
    if n <= 0 then {} else RowsBelow(n - 1) + {n - 1}
  }

  lemma {:induction false} RowsBelowSize(n: nat)
    ensures |RowsBelow(n)| == n
  {
    if n > 0 {
      RowsBelowSize(n - 1);
      assert n - 1 !in RowsBelow(n - 1);
    }
  }

  lemma SubsetSize<T>(a: set<T>, b: set<T>)
    requires a <= b
    ensures |a| <= |b|
  {
    assert b == a + (b - a);
  }

  class SetCoverEvaluator {
    var maxSum: bool
    var origItem: seq<int>
    var sumCalls: int
    var submCalls: int
    var values: seq<int>
    var sets: IM.IntMatrix?

    /** The state after `init`: one column per item. */
    ghost predicate Valid()
      reads this, sets
    {
      sets != null && sets.Valid() && sets.ncol == |values|
    }

    constructor ()
      ensures !maxSum && origItem == [] && sumCalls == 0 && submCalls == 0
      ensures values == [] && sets == null
    {
      maxSum := false;
      origItem := [];
      sumCalls := 0;
      submCalls := 0;
      values := [];
      sets := null;
    }

    /** `init(values, scdata, univSize, numSets)`: items renumbered in the
        order of `sortedIdx(values, maxSum)`, each item's value and column
        moved along with it.  `ok` is false when the `IntMatrix`
        constructor throws because the data size does not match. */
    method InitArrays(values: seq<int>, scdata: array<int>, univSize: nat, numSets: nat) returns (ok: bool)
      requires numSets == |values|
      modifies this
      ensures maxSum == old(maxSum) && sumCalls == old(sumCalls) && submCalls == old(submCalls)
      ensures origItem == Utils.SortedIdx(values, maxSum)
      ensures |this.values| == |values| && forall i :: 0 <= i < |values| ==> this.values[i] == values[origItem[i]]
      ensures ok <==> scdata.Length == univSize * numSets
      ensures !ok ==> sets == old(sets)
      ensures ok ==> Valid() && fresh(sets) && sets.nrow == univSize &&
                     forall r: nat, c: nat :: r < univSize && c < numSets ==>
                       0 <= CM.Index(univSize, r, origItem[c]) < scdata.Length &&
                       sets.At(r, c) == scdata[CM.Index(univSize, r, origItem[c])]
    {
      origItem := Utils.SortedIdx(values, maxSum);
      this.values := Utils.Permute(values, origItem);
      var m := IM.IntMatrix.FromData(scdata, univSize, numSets);
      if m == null {
        return false;
      }
      sets := Utils.RearrangeColumns(m, origItem);
      ok := true;
      forall r: nat, c: nat | r < univSize && c < numSets
        ensures 0 <= CM.Index(univSize, r, origItem[c]) < scdata.Length
      {
        CM.IndexInRange(univSize, numSets, r, origItem[c]);
      }
    }

    /** `numItems()`. */
    function NumItems(): (n: int)
      reads this
      ensures n == |values|
    {
      |values|
    }

    /** `sumFnc(item)`: the item's value; one call to the sum counter. */
    method SumItem(item: int) returns (s: int)
      requires 0 <= item < |values|
      modifies this
      ensures values == old(values) && sets == old(sets) && origItem == old(origItem) && maxSum == old(maxSum)
      ensures sumCalls == old(sumCalls) + 1 && submCalls == old(submCalls)
      ensures s == values[item] && s == SumOf(values, [item])
    {
      sumCalls := sumCalls + 1;
      s := values[item];
      SumOfSingle(values, item);
    }

    /** `sumFnc(items)`: the total value of the items. */
    method SumSet(items: seq<int>) returns (s: int)
      requires forall i :: 0 <= i < |items| ==> 0 <= items[i] < |values|
      modifies this
      ensures values == old(values) && sets == old(sets) && origItem == old(origItem) && maxSum == old(maxSum)
      ensures sumCalls == old(sumCalls) + 1 && submCalls == old(submCalls)
      ensures s == SumOf(values, items)
    {
      sumCalls := sumCalls + 1;
      s := SumValues(items);
    }

    /** The loop of `sumFnc(items)`. */
    method SumValues(items: seq<int>) returns (s: int)
      requires forall i :: 0 <= i < |items| ==> 0 <= items[i] < |values|
      ensures s == SumOf(values, items)
    {
      s := 0;
      var i := 0;
      while i < |items|
        invariant 0 <= i <= |items|
        invariant s == SumOf(values, items[..i])
      {
        assert items[..i + 1][..i] == items[..i];
        s := s + values[items[i]];
        i := i + 1;
      }
      assert items[..i] == items;
    }

    /** The sum of the first `n` rows of column `item`. */
    ghost function ColumnSum(item: int, n: int): int
      reads this, sets, sets.data
      requires Valid() && 0 <= item < sets.ncol && 0 <= n <= sets.nrow
    {
      if n == 0 then 0 else ColumnSum(item, n - 1) + sets.At(n - 1, item)
    }

    /** Row `r` has a 1 in the column of some item. */
    ghost predicate RowCovered(items: seq<int>, r: int)
      reads this, sets, sets.data
      requires Valid() && 0 <= r < sets.nrow && forall i :: 0 <= i < |items| ==> 0 <= items[i] < sets.ncol
    {
      exists i :: 0 <= i < |items| && sets.At(r, items[i]) == 1
    }

    /** The covered rows below `n`. */
    ghost function CoveredBelow(items: seq<int>, n: int): (c: set<int>)
      reads this, sets, sets.data
      requires Valid() && n <= sets.nrow && forall i :: 0 <= i < |items| ==> 0 <= items[i] < sets.ncol
      ensures forall r :: r in c <==> 0 <= r < n && RowCovered(items, r)
    {
      if n <= 0 then {} else CoveredBelow(items, n - 1) + (if RowCovered(items, n - 1) then {n - 1} else {})
    }

    /** The universe elements covered by the chosen sets. */
    ghost function Covered(items: seq<int>): set<int>
      reads this, sets, sets.data
      requires Valid() && forall i :: 0 <= i < |items| ==> 0 <= items[i] < sets.ncol
    {
      CoveredBelow(items, sets.nrow)
    }

    /** `submodularFnc(item)`: the column sum of the item; one call to the
        submodular counter. */
    method SubmItem(item: int) returns (s: int)
      requires Valid() && 0 <= item < |values|
      modifies this
      ensures values == old(values) && sets == old(sets) && origItem == old(origItem) && maxSum == old(maxSum)
      ensures submCalls == old(submCalls) + 1 && sumCalls == old(sumCalls)
      ensures Valid() && s == ColumnSum(item, sets.nrow)
    {
      submCalls := submCalls + 1;
      s := ColumnTotal(item);
    }

    /** The loop of `submodularFnc(item)`. */
    method ColumnTotal(item: int) returns (s: int)
      requires Valid() && 0 <= item < sets.ncol
      ensures s == ColumnSum(item, sets.nrow)
    {
      s := 0;
      var i := 0;
      while i < sets.nrow
        invariant 0 <= i <= sets.nrow
        invariant s == ColumnSum(item, i)
      {
        CM.IndexInRange(sets.nrow, sets.ncol, i, item);
        s := s + sets.Get(i, item);
        i := i + 1;
      }
    }

    /** `submodularFnc(items)`: the number of universe elements covered; the
        `BitSet` is a set of row numbers.  One call to the submodular
        counter. */
    method SubmSet(items: seq<int>) returns (s: int)
      requires Valid() && forall i :: 0 <= i < |items| ==> 0 <= items[i] < |values|
      modifies this
      ensures values == old(values) && sets == old(sets) && origItem == old(origItem) && maxSum == old(maxSum)
      ensures submCalls == old(submCalls) + 1 && sumCalls == old(sumCalls)
      ensures Valid() && s == |Covered(items)|
    {
      submCalls := submCalls + 1;
      var bs := CoverAll(items);
      s := |bs|;
    }

    /** The loops of `submodularFnc(items)`: the rows set in the `BitSet`. */
    method CoverAll(items: seq<int>) returns (bs: set<int>)
      requires Valid() && forall i :: 0 <= i < |items| ==> 0 <= items[i] < sets.ncol
      ensures bs == Covered(items)
    {
      bs := {};
      var j := 0;
      CoveredNone(sets.nrow);
      while j < |items|
        invariant 0 <= j <= |items|
        invariant bs == Covered(items[..j])
      {
        bs := CoverColumn(bs, items[..j], items[j]);
        assert items[..j + 1] == items[..j] + [items[j]];
        j := j + 1;
      }
      assert items[..j] == items;
    }

    /** The inner loop of `submodularFnc(items)`: the rows of one more item. */
    method CoverColumn(bs: set<int>, done: seq<int>, item: int) returns (bs': set<int>)
      requires Valid() && 0 <= item < sets.ncol
      requires forall i :: 0 <= i < |done| ==> 0 <= done[i] < sets.ncol
      requires bs == Covered(done)
      ensures bs' == Covered(done + [item])
    {
      bs' := bs;
      var row := 0;
      while row < sets.nrow
        invariant 0 <= row <= sets.nrow
        invariant bs' == Covered(done) + CoveredBelow([item], row)
      {
        CM.IndexInRange(sets.nrow, sets.ncol, row, item);
        if sets.Get(row, item) == 1 {
          bs' := bs' + {row};
        }
        assert RowCovered([item], row) <==> sets.At(row, item) == 1 by {
          assert [item][0] == item;
        }
        row := row + 1;
      }
      CoveredAppend(done, item);
    }

    lemma CoveredAppend(done: seq<int>, item: int)
      requires Valid() && 0 <= item < sets.ncol
      requires forall i :: 0 <= i < |done| ==> 0 <= done[i] < sets.ncol
      ensures Covered(done + [item]) == Covered(done) + Covered([item])
    {
      CoveredUnion(done, [item]);
    }

    /** No set covers nothing. */
    lemma {:induction false} CoveredNone(n: int)
      requires Valid() && n <= sets.nrow
      ensures CoveredBelow([], n) == {}
    {
      if n > 0 {
        CoveredNone(n - 1);
        assert !RowCovered([], n - 1);
      }
    }

    /** The cover of a concatenation is the union of the covers. */
    lemma CoveredUnion(a: seq<int>, b: seq<int>)
      requires Valid()
      requires forall i :: 0 <= i < |a| ==> 0 <= a[i] < sets.ncol
      requires forall i :: 0 <= i < |b| ==> 0 <= b[i] < sets.ncol
      ensures Covered(a + b) == Covered(a) + Covered(b)
    {
      var d := a + b;
      forall r | r in Covered(d) ensures r in Covered(a) || r in Covered(b) {
        var i :| 0 <= i < |d| && sets.At(r, d[i]) == 1;
        if i < |a| {
          assert d[i] == a[i];
        } else {
          assert d[i] == b[i - |a|];
        }
      }
      forall r | r in Covered(a) ensures r in Covered(d) {
        var i :| 0 <= i < |a| && sets.At(r, a[i]) == 1;
        assert d[i] == a[i];
      }
      forall r | r in Covered(b) ensures r in Covered(d) {
        var i :| 0 <= i < |b| && sets.At(r, b[i]) == 1;
        assert d[|a| + i] == b[i];
      }
    }

    /** The cover counts at most the whole universe. */
    lemma CoveredBound(items: seq<int>)
      requires Valid() && forall i :: 0 <= i < |items| ==> 0 <= items[i] < sets.ncol
      ensures |Covered(items)| <= sets.nrow
    {
      SubsetSize(Covered(items), RowsBelow(sets.nrow));
      RowsBelowSize(sets.nrow);
    }

    /** Adding sets never lowers the cover. */
    lemma CoveredMonotone(a: seq<int>, b: seq<int>)
      requires Valid()
      requires forall i :: 0 <= i < |a| ==> 0 <= a[i] < sets.ncol
      requires forall i :: 0 <= i < |b| ==> 0 <= b[i] < sets.ncol
      ensures |Covered(a)| <= |Covered(a + b)|
    {
      CoveredUnion(a, b);
      SubsetSize(Covered(a), Covered(a + b));
    }

    /** Diminishing returns: one more set gains no more after `a + b` than
        after `a`. */
    lemma CoveredSubmodular(a: seq<int>, b: seq<int>, x: int)
      requires Valid() && 0 <= x < sets.ncol
      requires forall i :: 0 <= i < |a| ==> 0 <= a[i] < sets.ncol
      requires forall i :: 0 <= i < |b| ==> 0 <= b[i] < sets.ncol
      ensures |Covered(a + b + [x])| - |Covered(a + b)| <= |Covered(a + [x])| - |Covered(a)|
    {
      var ab := a + b;
      CoveredUnion(a, b);
      CoveredUnion(ab, [x]);
      CoveredUnion(a, [x]);
      var A, B, X := Covered(a), Covered(ab), Covered([x]);
      assert A <= B;
      assert Covered(ab + [x]) == B + (X - B);
      assert Covered(a + [x]) == A + (X - A);
      assert |B + (X - B)| == |B| + |X - B| by {
        assert B * (X - B) == {};
      }
      assert |A + (X - A)| == |A| + |X - A| by {
        assert A * (X - A) == {};
      }
      SubsetSize(X - B, X - A);
    }

    /** On a 0/1 column, the column sum counts the rows the item covers, so
        the two `submodularFnc` overloads agree. */
    lemma {:induction false} ColumnSumCovers(item: int, n: int)
      requires Valid() && 0 <= item < sets.ncol && 0 <= n <= sets.nrow
      requires forall r: nat :: r < sets.nrow ==> sets.At(r, item) == 0 || sets.At(r, item) == 1
      ensures ColumnSum(item, n) == |CoveredBelow([item], n)|
    {
      if n > 0 {
        ColumnSumCovers(item, n - 1);
        assert RowCovered([item], n - 1) <==> sets.At(n - 1, item) == 1 by {
          assert [item][0] == item;
        }
        assert n - 1 !in CoveredBelow([item], n - 1);
      }
    }
  }
}
