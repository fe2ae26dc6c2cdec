/** ExactSkyline: the exact branch-and-bound search over the combination
    tree.  A priority queue of unexpanded nodes (the border), ordered by the
    additive objective, is drained one node at a time; a node whose submodular
    value beats the best value recorded for its sum is emitted, and each child
    is queued unless a prefix-plus-suffix upper bound shows it cannot beat that
    best value. */
module ExactSkyline {
  import opened ExtInt
  import opened SearchTreeNode
  import E = Evaluator
  import MD = MutableDouble
  import DM = DoubleMatrix
  import CM = ColumnMajor
  import SP = SkylinePoint
  import Utils

  // ---------------------------------------------------------------------
  // The prefix-bound table.  Row x, column i holds the sum of the i+1
  // largest singleton values among items 0..x.

  predicate Descending(s: seq<int>)
  {
    forall a, b :: 0 <= a < b < |s| ==> s[a] >= s[b]
  }

  /** One insertion step: v goes after every element that is at least v. */
  function InsertDesc(v: int, s: seq<int>): (r: seq<int>)
    ensures |r| == |s| + 1
    ensures r[0] == if s == [] || s[0] < v then v else s[0]
  {
    if s == [] || s[0] < v then [v] + s else [s[0]] + InsertDesc(v, s[1..])
  }

  lemma {:induction false} InsertDescMultiset(v: int, s: seq<int>)
    ensures multiset(InsertDesc(v, s)) == multiset(s) + multiset{v}
  {
    if s != [] && s[0] >= v {
      var tail := s[1..];
      InsertDescMultiset(v, tail);
      assert s == [s[0]] + tail;
      assert InsertDesc(v, s) == [s[0]] + InsertDesc(v, tail);
      ConsMultiset(s[0], tail, InsertDesc(v, tail), v);
    } else {
      assert InsertDesc(v, s) == [v] + s;
      assert multiset([v] + s) == multiset{v} + multiset(s);
    }
  }

  /** Putting one value in front keeps a multiset relation. */
  lemma ConsMultiset(a: int, t: seq<int>, r: seq<int>, v: int)
    requires multiset(r) == multiset(t) + multiset{v}
    ensures multiset([a] + r) == multiset([a] + t) + multiset{v}
  {
    assert multiset([a] + r) == multiset{a} + multiset(r);
    assert multiset([a] + t) == multiset{a} + multiset(t);
  }

  lemma {:induction false} InsertDescSorted(v: int, s: seq<int>)
    requires Descending(s)
    ensures Descending(InsertDesc(v, s))
  {
    if s != [] && s[0] >= v {
      var tail := InsertDesc(v, s[1..]);
      InsertDescSorted(v, s[1..]);
      var r := InsertDesc(v, s);
      assert r == [s[0]] + tail;
      assert s[0] >= tail[0] by {
        if |s| > 1 {
          assert s[0] >= s[1];
        }
      }
      forall a, b | 0 <= a < b < |r| ensures r[a] >= r[b] {
        if a == 0 {
          assert tail[0] >= tail[b - 1] || b == 1;
        }
      }
    }
  }

  /** The order getPrefixBound leaves the singleton values in: each new
      value inserted into the sorted prefix before it. */
  function SortDesc(s: seq<int>): (r: seq<int>)
    ensures |r| == |s|
  {
    if s == [] then [] else InsertDesc(s[|s| - 1], SortDesc(s[..|s| - 1]))
  }

  /** The sorted prefix is descending and holds exactly the values sorted. */
  lemma {:induction false} SortDescSorted(s: seq<int>)
    ensures Descending(SortDesc(s))
    ensures multiset(SortDesc(s)) == multiset(s)
  {
    if s != [] {
      SortDescSorted(s[..|s| - 1]);
      InsertDescSorted(s[|s| - 1], SortDesc(s[..|s| - 1]));
      InsertDescMultiset(s[|s| - 1], SortDesc(s[..|s| - 1]));
      assert s == s[..|s| - 1] + [s[|s| - 1]];
    }
  }

  /** The sum of the first m elements. */
  function SumFirst(s: seq<int>, m: nat): int
    requires m <= |s|
  {
    if m == 0 then 0 else SumFirst(s, m - 1) + s[m - 1]
  }

  /** The singleton values, item by item. */
  function Singles(o: E.Oracle): (s: seq<int>)
    ensures |s| == o.numItems
  {
    seq(o.numItems, i requires 0 <= i < o.numItems => o.submItem(i))
  }

  /** The value the table holds at row x, column i. */
  function PrefixCell(singles: seq<int>, x: nat, i: nat): int
    requires i <= x < |singles|
  {
    SumFirst(SortDesc(singles[..x + 1]), i + 1)
  }

  /** The cells getPrefixBound writes, as the code is written: column 0 of
      every row from 1 on, then columns 1 .. min(x, k-1)-1 of row x. */
  predicate Written(n: int, k: int, x: int, i: int)
  {
    1 <= x < n && (i == 0 || 1 <= i < if x < k - 1 then x else k - 1)
  }

  /** With k >= 2 the written cells are exactly the in-table cells (x, i)
      with 1 <= x and i < x. */
  lemma WrittenIff(n: int, k: int, x: int, i: int)
    requires k >= 2 && 0 <= i
    ensures Written(n, k, x, i) <==> 1 <= x < n && i < x && i < k - 1
  {
  }

  /** With k = 1 the table has no column at all, yet row 1, column 0 is
      written: its flat index 1 is outside the n * 0 cells. */
  lemma PrefixBoundWritesOutsideForK1(n: int)
    requires n >= 2
    ensures Written(n, 1, 1, 0)
    ensures !(0 <= CM.Index(n, 1, 0) < n * (1 - 1))
  {
  }

  lemma {:induction false} InsertDescAt(v: int, s: seq<int>, j: nat)
    requires Descending(s) && j <= |s|
    requires j == 0 || s[j - 1] >= v
    requires forall t :: j <= t < |s| ==> s[t] < v
    ensures InsertDesc(v, s) == s[..j] + [v] + s[j..]
  {
    if j > 0 {
      assert s[0] >= v by {
        assert j == 1 || s[0] >= s[j - 1];
      }
      var tail := s[1..];
      assert Descending(tail) by {
        forall a, b | 0 <= a < b < |tail| ensures tail[a] >= tail[b] {
          assert s[a + 1] >= s[b + 1];
        }
      }
      assert j - 1 == 0 || tail[j - 2] >= v;
      assert forall t :: j - 1 <= t < |tail| ==> tail[t] < v by {
        forall t | j - 1 <= t < |tail| ensures tail[t] < v {
          assert tail[t] == s[t + 1];
        }
      }
      InsertDescAt(v, tail, j - 1);
      calc {
        InsertDesc(v, s);
        [s[0]] + InsertDesc(v, tail);
        [s[0]] + (tail[..j - 1] + [v] + tail[j - 1..]);
        { assert [s[0]] + tail[..j - 1] == s[..j]; assert tail[j - 1..] == s[j..]; }
        s[..j] + [v] + s[j..];
      }
    }
  }

  /** Inserting a value into a descending sequence never lowers any of the
      first |s| places. */
  lemma {:induction false} InsertDominates(v: int, s: seq<int>)
    requires Descending(s)
    ensures forall t :: 0 <= t < |s| ==> InsertDesc(v, s)[t] >= s[t]
  {
    if s != [] && s[0] >= v {
      InsertDominates(v, s[1..]);
      var r := InsertDesc(v, s);
      forall t | 1 <= t < |s| ensures r[t] >= s[t] {
        assert r[t] == InsertDesc(v, s[1..])[t - 1];
      }
    }
  }

  lemma {:induction false} SumFirstDominates(a: seq<int>, b: seq<int>, m: nat)
    requires m <= |a| && m <= |b|
    requires forall t :: 0 <= t < m ==> a[t] >= b[t]
    ensures SumFirst(a, m) >= SumFirst(b, m)
  {
    if m > 0 {
      SumFirstDominates(a, b, m - 1);
    }
  }

  /** Column 0 of row x is the largest singleton value among items 0..x. */
  lemma PrefixCellFirstIsMax(singles: seq<int>, x: nat)
    requires x < |singles|
    ensures PrefixCell(singles, x, 0) in singles[..x + 1]
    ensures forall t :: 0 <= t <= x ==> singles[t] <= PrefixCell(singles, x, 0)
  {
    var d := SortDesc(singles[..x + 1]);
    SortDescSorted(singles[..x + 1]);
    assert SumFirst(d, 1) == d[0];
    assert d[0] in multiset(d);
    assert d[0] in multiset(singles[..x + 1]);
    forall t | 0 <= t <= x ensures singles[t] <= d[0] {
      assert singles[..x + 1][t] in multiset(d);
      var u :| 0 <= u < |d| && d[u] == singles[t];
      assert u == 0 || d[0] >= d[u];
    }
  }

  /** Letting one more item into the pool never lowers a table entry:
      row x+1 dominates row x column by column. */
  lemma PrefixBoundGrowsWithRow(singles: seq<int>, x: nat, i: nat)
    requires i <= x && x + 1 < |singles|
    ensures PrefixCell(singles, x + 1, i) >= PrefixCell(singles, x, i)
  {
    var s := singles[..x + 2];
    assert s[..|s| - 1] == singles[..x + 1];
    var d := SortDesc(singles[..x + 1]);
    SortDescSorted(singles[..x + 1]);
    InsertDominates(singles[x + 1], d);
    SumFirstDominates(SortDesc(s), d, i + 1);
  }

  /** `getSingletonValues(eval)`: submItem of every item. */
  method GetSingletonValues(o: E.Oracle) returns (x: array<int>)
    ensures fresh(x) && x[..] == Singles(o)
  {
    x := new int[o.numItems];
    var i := 0;
    while i < x.Length
      invariant 0 <= i <= x.Length
      invariant forall t :: 0 <= t < i ==> x[t] == o.submItem(t)
    {
      x[i] := o.submItem(i);
      i := i + 1;
    }
  }

  /** The inner while loop of getPrefixBound: tmp[x] moves left past every
      strictly smaller neighbour, so the first x+1 places become the
      insertion of tmp[x] into the sorted prefix. */
  method InsertStep(tmp: array<int>, x: int)
    requires 0 < x < tmp.Length && Descending(tmp[..x])
    modifies tmp
    ensures tmp[..x + 1] == InsertDesc(old(tmp[x]), old(tmp[..x]))
    ensures tmp[x + 1..] == old(tmp[x + 1..])
  {
    ghost var s := tmp[..x];
    ghost var v := tmp[x];
    var j := x;
    while j > 0 && tmp[j] > tmp[j - 1]
      invariant 0 <= j <= x
      invariant forall t :: 0 <= t < j ==> tmp[t] == s[t]
      invariant tmp[j] == v
      invariant forall t :: j < t <= x ==> tmp[t] == s[t - 1]
      invariant forall t :: j <= t < x ==> s[t] < v
      invariant tmp[x + 1..] == old(tmp[x + 1..])
    {
      tmp[j], tmp[j - 1] := tmp[j - 1], tmp[j];
      j := j - 1;
    }
    InsertDescAt(v, s, j);
    assert tmp[..x + 1] == s[..j] + [v] + s[j..];
  }

  /** One pass of the outer loop of getPrefixBound on tmp: the sorted
      prefix grows by the next singleton value, the rest is untouched. */
  method SortPrefixStep(tmp: array<int>, x: int, ghost singles: seq<int>)
    requires 0 < x < tmp.Length && |singles| == tmp.Length
    requires tmp[..x] == SortDesc(singles[..x]) && tmp[x..] == singles[x..]
    modifies tmp
    ensures tmp[..x + 1] == SortDesc(singles[..x + 1]) && tmp[x + 1..] == singles[x + 1..]
  {
    assert singles[..x + 1][..x] == singles[..x];
    assert tmp[x] == singles[x];
    SortDescSorted(singles[..x]);
    InsertStep(tmp, x);
  }

  /** The first `rows` rows of the table hold what getPrefixBound promises
      and every other cell is still zero. */
  ghost predicate TableHolds(B: DM.DoubleMatrix, k: int, singles: seq<int>, rows: int)
    reads B, B.data
  {
    B.Valid() && |singles| == B.nrow &&
    forall x: nat, i: nat :: x < B.nrow && i < B.ncol ==>
      B.At(x, i) == if Written(B.nrow, k, x, i) && x < rows then PrefixCell(singles, x, i) else 0
  }

  /** The row loop of getPrefixBound for k >= 2: columns 0 .. max(1,
      min(x, k-1))-1 of row x get the running sums of the sorted prefix. */
  method WritePrefixRow(B: DM.DoubleMatrix, tmp: array<int>, x: int, k: int, ghost singles: seq<int>)
    requires B.ncol == k - 1 && k >= 2 && 0 < x < B.nrow && x < tmp.Length
    requires B.data != tmp
    requires TableHolds(B, k, singles, x)
    requires tmp[..x + 1] == SortDesc(singles[..x + 1])
    modifies B.data
    ensures TableHolds(B, k, singles, x + 1)
  {
    CM.IndexInRange(B.nrow, B.ncol, x, 0);
    B.Set(x, 0, tmp[0]);
    assert SumFirst(tmp[..x + 1], 1) == tmp[0];
    var bound := if x < k - 1 then x else k - 1;
    var i := 1;
    while i < bound
      invariant 1 <= i <= bound
      invariant forall x2: nat, i2: nat :: x2 < B.nrow && i2 < B.ncol ==>
                  B.At(x2, i2) == if x2 == x && i2 < i then SumFirst(tmp[..x + 1], i2 + 1) else old(B.At(x2, i2))
    {
      CM.IndexInRange(B.nrow, B.ncol, x, i - 1);
      CM.IndexInRange(B.nrow, B.ncol, x, i);
      assert B.Get(x, i - 1) == B.At(x, i - 1);
      B.Set(x, i, B.Get(x, i - 1) + tmp[i]);
      i := i + 1;
    }
    forall x2: nat, i2: nat | x2 < B.nrow && i2 < B.ncol
      ensures B.At(x2, i2) == if Written(B.nrow, k, x2, i2) && x2 < x + 1 then PrefixCell(singles, x2, i2) else 0
    {
      WrittenIff(B.nrow, k, x2, i2);
    }
  }

  /** `getPrefixBound(eval, k)`, with the writes into the table skipped when
      it has no column (k = 1); such a table is never read. */
  method GetPrefixBound(o: E.Oracle, k: int) returns (B: DM.DoubleMatrix)
    requires k >= 1
    ensures fresh(B) && fresh(B.data)
    ensures B.Valid() && B.nrow == o.numItems && B.ncol == k - 1
    ensures forall x: nat, i: nat :: x < B.nrow && i < B.ncol ==>
              B.At(x, i) == if Written(B.nrow, k, x, i) then PrefixCell(Singles(o), x, i) else 0
  {
    var tmp := GetSingletonValues(o);
    ghost var singles := tmp[..];
    B := new DM.DoubleMatrix(tmp.Length, k - 1);
    forall x: nat, i: nat | x < B.nrow && i < B.ncol ensures B.At(x, i) == 0 {
      CM.IndexInRange(B.nrow, B.ncol, x, i);
    }
    var x := 1;
    while x < tmp.Length
      invariant 1 <= x && (x <= tmp.Length || tmp.Length == 0)
      invariant x <= tmp.Length ==> tmp[..x] == SortDesc(singles[..x]) && tmp[x..] == singles[x..]
      invariant TableHolds(B, k, singles, x)
    {
      SortPrefixStep(tmp, x, singles);
      if k - 1 > 0 {
        WritePrefixRow(B, tmp, x, k, singles);
      }
      x := x + 1;
    }
  }

  // ---------------------------------------------------------------------
  // Search nodes, the border and the termination measure.

  /** The shape of every node the search handles: k positions inside the
      item range, the slots below the cursor at their starting values and
      the cursor slot at least its own index.  A cursor of -1 marks a node
      that is never expanded. */
  predicate SearchNode(node: Node, n: int, k: int)
  {
    |node.pos| == k && -1 <= node.j < k &&
    (forall i :: 0 <= i < k ==> 0 <= node.pos[i] < n) &&
    (forall i :: 0 <= i < node.j ==> node.pos[i] == i) &&
    (node.j >= 0 ==> node.pos[node.j] >= node.j)
  }

  /** The root of computeSkyline, positions 0..k-1 with the cursor at k-1,
      has that shape when 1 <= k <= n. */
  lemma RootIsSearchNode(pos: seq<int>, n: int, k: int)
    requires 1 <= k <= n && |pos| == k && forall i :: 0 <= i < k ==> pos[i] == i
    ensures SearchNode(Node(pos, k - 1), n, k)
  {
  }

  /** Both children keep the shape, and each has one unit of potential less. */
  lemma ChildrenAreSearchNodes(node: Node, n: int, k: int)
    requires SearchNode(node, n, k) && node.j >= 0
    ensures forall c :: c in Children(node, n) ==>
              SearchNode(c, n, k) && Potential(c.pos, n) == Potential(node.pos, n) - 1
  {
    var j := node.j;
    if j > 0 {
      var c := Child(node, j - 1);
      assert c.pos[j - 1] == j && j <= node.pos[j];
      PotentialOfChild(node, j - 1, n);
    }
    if HasRight(node, n) {
      PotentialOfChild(node, j, n);
    }
  }

  lemma ChildAtIsSearchNode(node: Node, n: int, k: int, i: int)
    requires SearchNode(node, n, k) && node.j >= 0 && 0 <= i < |Children(node, n)|
    ensures SearchNode(Children(node, n)[i], n, k)
  {
    ChildrenAreSearchNodes(node, n, k);
    assert Children(node, n)[i] in Children(node, n);
  }

  /** The order of the border: the sum, negated when larger sums come first. */
  function Key(o: E.Oracle, node: Node): int
  {
    if o.maxSum then -o.sumSet(node.pos) else o.sumSet(node.pos)
  }

  function Pow2(e: nat): (r: nat)
    ensures r >= 1
  {
    if e == 0 then 1 else 2 * Pow2(e - 1)
  }

  /** A node of potential p stands for at most 2^(p+1) - 1 further polls. */
  function NodeWeight(node: Node, n: int): nat
  {
    var p := Potential(node.pos, n);
    if p < 0 then 0 else 2 * Pow2(p) - 1
  }

  function Weight(s: seq<Node>, n: int): nat
  {
    if s == [] then 0 else NodeWeight(s[0], n) + Weight(s[1..], n)
  }

  lemma {:induction false} WeightConcat(a: seq<Node>, b: seq<Node>, n: int)
    ensures Weight(a + b, n) == Weight(a, n) + Weight(b, n)
  {
    if a != [] {
      assert (a + b)[1..] == a[1..] + b;
      WeightConcat(a[1..], b, n);
    } else {
      assert a + b == b;
    }
  }

  /** A child of a node of potential p weighs 2^p - 1. */
  lemma ChildWeight(node: Node, c: Node, n: int, k: int)
    requires SearchNode(node, n, k) && node.j >= 0 && c in Children(node, n)
    ensures Potential(node.pos, n) >= 1
    ensures NodeWeight(c, n) == Pow2(Potential(node.pos, n)) - 1
  {
    ChildrenAreSearchNodes(node, n, k);
    PotentialNonNegative(c.pos, n);
  }

  /** Replacing a node by its children lowers the weight: two children of
      potential p-1 weigh 2^(p+1) - 2 together, one less than their parent. */
  lemma ChildrenWeighLess(node: Node, n: int, k: int, queued: seq<Node>)
    requires SearchNode(node, n, k) && node.j >= 0
    requires forall c :: c in queued ==> c in Children(node, n)
    requires |queued| <= 2
    ensures Weight(queued, n) < NodeWeight(node, n)
  {
    PotentialNonNegative(node.pos, n);
    if queued != [] {
      var p := Potential(node.pos, n);
      ChildWeight(node, queued[0], n, k);
      if |queued| == 2 {
        ChildWeight(node, queued[1], n, k);
        assert queued[1..][1..] == [];
        assert Weight(queued, n) == 2 * (Pow2(p) - 1);
      } else {
        assert queued[1..] == [];
      }
    }
  }

  /** The border: a priority queue of unexpanded nodes, least key first. */
  class Border {
    const o: E.Oracle
    var contents: seq<Node>

    constructor (o: E.Oracle)
      ensures this.o == o && contents == []
    {
      this.o := o;
      contents := [];
    }

    function Size(): (r: nat)
      reads this
      ensures r == 0 <==> contents == []
    {
      |contents|
    }

    method Add(node: Node)
      modifies this
      ensures contents == old(contents) + [node]
    {
      contents := contents + [node];
    }

    /** `poll()`: removes and returns a node of least key.  Which of several
        such nodes comes out is not fixed by the queue; here it is the first
        one added. */
    method Poll() returns (node: Node, ghost at: nat)
      requires |contents| > 0
      modifies this
      ensures at < |old(contents)| && node == old(contents)[at]
      ensures contents == old(contents)[..at] + old(contents)[at + 1..]
      ensures forall m :: m in old(contents) ==> Key(o, node) <= Key(o, m)
    {
      var best := 0;
      var i := 1;
      while i < |contents|
        invariant 0 <= best < i <= |contents|
        invariant forall t :: 0 <= t < i ==> Key(o, contents[best]) <= Key(o, contents[t])
      {
        if Key(o, contents[i]) < Key(o, contents[best]) {
          best := i;
        }
        i := i + 1;
      }
      node := contents[best];
      at := best;
      contents := contents[..best] + contents[best + 1..];
    }
  }

  /** `initBorder(eval, beginGenerators)`: a border holding the generators. */
  method InitBorder(o: E.Oracle, beginGenerators: seq<Node>) returns (border: Border)
    ensures fresh(border) && border.o == o && border.contents == beginGenerators
  {
    border := new Border(o);
    var i := 0;
    while i < |beginGenerators|
      invariant 0 <= i <= |beginGenerators|
      invariant border.contents == beginGenerators[..i]
    {
      border.Add(beginGenerators[i]);
      i := i + 1;
    }
  }

  // ---------------------------------------------------------------------
  // Pruning and expansion.

  /** The value of the slots from j+1 on, by the single-item oracle when
      there is exactly one. */
  function SuffixValue(o: E.Oracle, next: Node, k: int): int
    requires 0 <= next.j && next.j + 1 < k == |next.pos|
  {
    if k - next.j == 2 then o.submItem(next.pos[next.j + 1]) else o.submSet(next.pos[next.j + 1..])
  }

  /** The upper bound processChildNode puts on the values below a child:
      +infinity when at most one slot lies at or above the cursor, otherwise
      the table entry at row pos[j+1], column j plus the suffix value. */
  ghost function TotalBound(o: E.Oracle, B: DM.DoubleMatrix, next: Node, k: int): (r: XInt)
    reads B.data
    requires B.Valid() && B.nrow == o.numItems && B.ncol == k - 1
    requires SearchNode(next, o.numItems, k) && next.j >= 0
    ensures r == PosInf <==> k - next.j < 2
  {
    if k - next.j >= 2 then Fin(B.At(next.pos[next.j + 1], next.j) + SuffixValue(o, next, k)) else PosInf
  }

  /** `processChildNode`: the child is queued exactly when its bound reaches
      the best value recorded for its sum. */
  method ProcessChildNode(border: Border, next: Node, o: E.Oracle, B: DM.DoubleMatrix,
                          submBest: MD.MutableDouble, k: int)
    requires B.Valid() && B.nrow == o.numItems && B.ncol == k - 1
    requires SearchNode(next, o.numItems, k) && next.j >= 0
    modifies border
    ensures border.contents ==
              old(border.contents) + if Le(submBest.Value(o.sumSet(next.pos)), TotalBound(o, B, next, k)) then [next] else []
  {
    var totalBound := PosInf;
    var z := k - next.j;
    if z >= 2 {
      var suffixValue;
      if z == 2 {
        suffixValue := o.submItem(next.pos[next.j + 1]);
      } else {
        var suffix := Utils.ArraySuffix(next.pos, next.j + 1);
        assert suffix == next.pos[next.j + 1..];
        suffixValue := o.submSet(suffix);
      }
      CM.IndexInRange(B.nrow, B.ncol, next.pos[next.j + 1], next.j);
      var prefixBound := B.Get(next.pos[next.j + 1], next.j);
      totalBound := Fin(prefixBound + suffixValue);
    }
    if Le(submBest.Value(o.sumSet(next.pos)), totalBound) {
      border.Add(next);
    }
  }

  /** The point of a k-subset given by internal positions. */
  function MakePoint(o: E.Oracle, pos: seq<int>): (p: SP.Point)
    requires forall i :: 0 <= i < |pos| ==> 0 <= pos[i] < |o.origItem|
    ensures |p.items| == |pos| && p.sumValue == o.sumSet(pos) && p.submValue == o.submSet(pos)
    ensures forall i :: 0 <= i < |pos| ==> p.items[i] == o.origItem[pos[i]]
  {
    SP.Point(seq(|pos|, i requires 0 <= i < |pos| => o.origItem[pos[i]]), o.sumSet(pos), o.submSet(pos))
  }

  /** A point the search can emit: the point of some k positions in range. */
  ghost predicate IsSearchPoint(o: E.Oracle, k: int, p: SP.Point)
  {
    exists pos :: |pos| == k && Within(pos, 0, o.numItems) && |o.origItem| >= o.numItems &&
                  p == MakePoint(o, pos)
  }

  /** The store already holds at least p's value at p's sum: for the
      synchronized store at every sum at or beyond p's. */
  ghost predicate Covers(submBest: MD.MutableDouble, p: SP.Point)
    reads submBest
  {
    CoversIn(submBest.synchronized, submBest.maxSum, submBest.value, submBest.skyline, p)
  }

  /** Covers, on the fields of a store. */
  ghost predicate CoversIn(synchronized: bool, maxSum: bool, value: XInt, es: seq<MD.Entry>, p: SP.Point)
  {
    if synchronized then
      forall s :: MD.Ok(maxSum, p.sumValue) <= MD.Ok(maxSum, s) ==> Le(Fin(p.submValue), MD.Floor(es, maxSum, s))
    else Le(Fin(p.submValue), value)
  }

  /** Every point emitted later has a strictly larger value. */
  predicate StrictlyIncreasing(skyline: seq<SP.Point>)
  {
    forall a, b :: 0 <= a < b < |skyline| ==> skyline[a].submValue < skyline[b].submValue
  }

  /** No point is dominated by one emitted before it: a later point whose
      sum is no better has a strictly larger value. */
  predicate NoLaterDominated(skyline: seq<SP.Point>, maxSum: bool)
  {
    forall a, b :: 0 <= a < b < |skyline| && MD.Ok(maxSum, skyline[a].sumValue) <= MD.Ok(maxSum, skyline[b].sumValue) ==>
      skyline[a].submValue < skyline[b].submValue
  }

  lemma WeightSplit(s: seq<Node>, at: nat, n: int)
    requires at < |s|
    ensures Weight(s, n) == Weight(s[..at], n) + NodeWeight(s[at], n) + Weight(s[at + 1..], n)
  {
    assert s == s[..at] + ([s[at]] + s[at + 1..]);
    WeightConcat(s[..at], [s[at]] + s[at + 1..], n);
    WeightConcat([s[at]], s[at + 1..], n);
    assert [s[at]][1..] == [];
  }

  lemma RemovedMembers(s: seq<Node>, at: nat)
    requires at < |s|
    ensures forall m :: m in s[..at] + s[at + 1..] ==> m in s
  {
    forall m | m in s[..at] + s[at + 1..] ensures m in s {
      if m in s[..at] {
        assert m in s[..at];
      } else {
        assert m in s[at + 1..];
      }
    }
  }

  /** The border after one poll and expansion: still made of search nodes,
      of lower weight, and holding only old nodes and children of the
      polled one. */
  lemma BorderAfterPoll(before: seq<Node>, at: nat, queued: seq<Node>, n: int, k: int, endGenerators: set<Node>)
    requires at < |before| && SearchNode(before[at], n, k)
    requires forall m :: m in before ==> SearchNode(m, n, k)
    requires before[at].j == -1 ==> queued == []
    requires before[at].j >= 0 ==>
               |queued| <= 2 && forall c :: c in queued ==> c in Children(before[at], n) && c !in endGenerators
    ensures var after := before[..at] + before[at + 1..] + queued;
            (forall m :: m in after ==> SearchNode(m, n, k)) &&
            Weight(after, n) < Weight(before, n) &&
            forall m :: m in after ==>
              m in before || (before[at].j >= 0 && m in Children(before[at], n) && m !in endGenerators)
  {
    var node := before[at];
    var rest := before[..at] + before[at + 1..];
    RemovedMembers(before, at);
    WeightSplit(before, at, n);
    WeightConcat(before[..at], before[at + 1..], n);
    WeightConcat(rest, queued, n);
    PotentialNonNegative(node.pos, n);
    if node.j >= 0 {
      ChildrenAreSearchNodes(node, n, k);
      ChildrenWeighLess(node, n, k, queued);
    }
  }

  /** A point whose value beats the plain store has a larger value than
      every covered point before it. */
  lemma EmitPlainOrder(submBest: MD.MutableDouble, skyline: seq<SP.Point>, p: SP.Point)
    requires !submBest.synchronized
    requires Lt(submBest.value, Fin(p.submValue))
    requires forall q :: q in skyline ==> Covers(submBest, q)
    requires StrictlyIncreasing(skyline)
    ensures StrictlyIncreasing(skyline + [p])
  {
    var sk := skyline + [p];
    forall a, b | 0 <= a < b < |sk| ensures sk[a].submValue < sk[b].submValue {
      if b == |skyline| {
        assert sk[a] in skyline;
      }
    }
  }

  /** A point whose value beats the synchronized store at its sum is not
      dominated by any covered point before it. */
  lemma EmitSynchronizedOrder(submBest: MD.MutableDouble, skyline: seq<SP.Point>, p: SP.Point)
    requires submBest.synchronized
    requires Lt(submBest.Value(p.sumValue), Fin(p.submValue))
    requires forall q :: q in skyline ==> Covers(submBest, q)
    requires NoLaterDominated(skyline, submBest.maxSum)
    ensures NoLaterDominated(skyline + [p], submBest.maxSum)
  {
    var ms := submBest.maxSum;
    var sk := skyline + [p];
    forall a, b | 0 <= a < b < |sk| && MD.Ok(ms, sk[a].sumValue) <= MD.Ok(ms, sk[b].sumValue)
      ensures sk[a].submValue < sk[b].submValue
    {
      if b == |skyline| {
        assert sk[a] in skyline;
        assert Le(Fin(sk[a].submValue), submBest.Value(p.sumValue));
      }
    }
  }

  /** Recording p keeps every covered point covered and covers p; v0, es0
      are the store's fields before, v1, es1 after. */
  lemma EmitCovers(synchronized: bool, maxSum: bool, v0: XInt, es0: seq<MD.Entry>, v1: XInt, es1: seq<MD.Entry>,
                   skyline: seq<SP.Point>, p: SP.Point)
    requires !synchronized ==> Lt(v0, Fin(p.submValue)) && v1 == Fin(p.submValue)
    requires synchronized ==>
               forall s :: MD.Floor(es1, maxSum, s) ==
                 Max(MD.Floor(es0, maxSum, s), if MD.Ok(maxSum, p.sumValue) <= MD.Ok(maxSum, s) then Fin(p.submValue) else NegInf)
    requires forall q :: q in skyline ==> CoversIn(synchronized, maxSum, v0, es0, q)
    ensures forall q :: q in skyline + [p] ==> CoversIn(synchronized, maxSum, v1, es1, q)
  {
    forall q | q in skyline + [p] ensures CoversIn(synchronized, maxSum, v1, es1, q) {
      if synchronized {
        forall s | MD.Ok(maxSum, q.sumValue) <= MD.Ok(maxSum, s) ensures Le(Fin(q.submValue), MD.Floor(es1, maxSum, s)) {
          if q in skyline {
            assert CoversIn(synchronized, maxSum, v0, es0, q);
            LeTrans(Fin(q.submValue), MD.Floor(es0, maxSum, s), MD.Floor(es1, maxSum, s));
          }
        }
      } else if q in skyline {
        assert CoversIn(synchronized, maxSum, v0, es0, q);
      }
    }
  }

  /** The emitting branch of updateBorder: the point is appended and its
      sum and value are recorded in the store. */
  method Emit(submBest: MD.MutableDouble, skyline: seq<SP.Point>, p: SP.Point) returns (skyline': seq<SP.Point>)
    requires submBest.Valid() && Lt(submBest.Value(p.sumValue), Fin(p.submValue))
    requires forall q :: q in skyline ==> Covers(submBest, q)
    requires !submBest.synchronized ==> StrictlyIncreasing(skyline)
    requires submBest.synchronized ==> NoLaterDominated(skyline, submBest.maxSum)
    modifies submBest
    ensures skyline' == skyline + [p] && submBest.Valid()
    ensures !submBest.synchronized ==> submBest.value == Fin(p.submValue) && submBest.skyline == old(submBest.skyline)
    ensures submBest.synchronized ==>
              submBest.value == old(submBest.value) &&
              submBest.skyline == MD.SetEntries(old(submBest.skyline), submBest.maxSum, p.sumValue, p.submValue)
    ensures forall q :: q in skyline' ==> Covers(submBest, q)
    ensures !submBest.synchronized ==> StrictlyIncreasing(skyline')
    ensures submBest.synchronized ==> NoLaterDominated(skyline', submBest.maxSum)
  {
    if submBest.synchronized {
      EmitSynchronizedOrder(submBest, skyline, p);
    } else {
      EmitPlainOrder(submBest, skyline, p);
    }
    ghost var v0, es0 := submBest.value, submBest.skyline;
    submBest.SetValue(p.sumValue, p.submValue);
    EmitCovers(submBest.synchronized, submBest.maxSum, v0, es0, submBest.value, submBest.skyline, skyline, p);
    skyline' := skyline + [p];
  }

  /** processChildNode's test, with the end generators left out first. */
  ghost predicate Keeps(c: Node, o: E.Oracle, B: DM.DoubleMatrix, submBest: MD.MutableDouble,
                        endGenerators: set<Node>, k: int)
    reads B.data, submBest
    requires B.Valid() && B.nrow == o.numItems && B.ncol == k - 1
    requires SearchNode(c, o.numItems, k) && c.j >= 0
  {
    c !in endGenerators && Le(submBest.Value(o.sumSet(c.pos)), TotalBound(o, B, c, k))
  }

  /** The children among cs that updateBorder queues: those outside the end
      generators whose bound reaches the store's value at their sum, in the
      order of cs. */
  ghost function Admitted(cs: seq<Node>, o: E.Oracle, B: DM.DoubleMatrix, submBest: MD.MutableDouble,
                          endGenerators: set<Node>, k: int): (r: seq<Node>)
    reads B.data, submBest
    requires B.Valid() && B.nrow == o.numItems && B.ncol == k - 1
    requires forall i :: 0 <= i < |cs| ==> SearchNode(cs[i], o.numItems, k) && cs[i].j >= 0
    ensures |r| <= |cs| && forall c :: c in r ==> c in cs && c !in endGenerators
    decreases |cs|
  {
    if cs == [] then []
    else
      var c := cs[|cs| - 1];
      Admitted(cs[..|cs| - 1], o, B, submBest, endGenerators, k) +
      (if Keeps(c, o, B, submBest, endGenerators, k) then [c] else [])
  }

  /** A node is admitted exactly when it is one of cs, lies outside the end
      generators and its bound reaches the store's value at its sum. */
  lemma {:induction false} AdmittedIff(cs: seq<Node>, o: E.Oracle, B: DM.DoubleMatrix, submBest: MD.MutableDouble,
                                       endGenerators: set<Node>, k: int, c: Node)
    requires B.Valid() && B.nrow == o.numItems && B.ncol == k - 1
    requires forall i :: 0 <= i < |cs| ==> SearchNode(cs[i], o.numItems, k) && cs[i].j >= 0
    requires SearchNode(c, o.numItems, k) && c.j >= 0
    ensures c in Admitted(cs, o, B, submBest, endGenerators, k) <==>
              c in cs && c !in endGenerators && Le(submBest.Value(o.sumSet(c.pos)), TotalBound(o, B, c, k))
  {
    AdmittedKeeps(cs, o, B, submBest, endGenerators, k, c);
  }

  lemma {:induction false} AdmittedKeeps(cs: seq<Node>, o: E.Oracle, B: DM.DoubleMatrix, submBest: MD.MutableDouble,
                                         endGenerators: set<Node>, k: int, c: Node)
    requires B.Valid() && B.nrow == o.numItems && B.ncol == k - 1
    requires forall i :: 0 <= i < |cs| ==> SearchNode(cs[i], o.numItems, k) && cs[i].j >= 0
    requires SearchNode(c, o.numItems, k) && c.j >= 0
    ensures c in Admitted(cs, o, B, submBest, endGenerators, k) <==> c in cs && Keeps(c, o, B, submBest, endGenerators, k)
    decreases |cs|
  {
    if cs != [] {
      var init, last := cs[..|cs| - 1], cs[|cs| - 1];
      AdmittedKeeps(init, o, B, submBest, endGenerators, k, c);
      assert cs == init + [last];
      assert c in cs <==> c in init || c == last;
    }
  }

  /** Admitting one more node of cs. */
  lemma AdmittedStep(cs: seq<Node>, o: E.Oracle, B: DM.DoubleMatrix, submBest: MD.MutableDouble,
                     endGenerators: set<Node>, k: int, i: int)
    requires B.Valid() && B.nrow == o.numItems && B.ncol == k - 1
    requires forall i :: 0 <= i < |cs| ==> SearchNode(cs[i], o.numItems, k) && cs[i].j >= 0
    requires 0 <= i < |cs|
    ensures Admitted(cs[..i + 1], o, B, submBest, endGenerators, k) ==
              Admitted(cs[..i], o, B, submBest, endGenerators, k) +
              if Keeps(cs[i], o, B, submBest, endGenerators, k) then [cs[i]] else []
  {
    assert cs[..i + 1][..i] == cs[..i];
  }

  /** The children of a search node with a cursor, by index. */
  lemma ChildrenIndexed(node: Node, n: int, k: int)
    requires SearchNode(node, n, k) && node.j >= 0
    ensures forall i :: 0 <= i < |Children(node, n)| ==> SearchNode(Children(node, n)[i], n, k) && Children(node, n)[i].j >= 0
  {
    forall i | 0 <= i < |Children(node, n)| ensures SearchNode(Children(node, n)[i], n, k) && Children(node, n)[i].j >= 0 {
      ChildAtIsSearchNode(node, n, k, i);
      assert Children(node, n)[i] in Children(node, n);
    }
  }

  /** The children of node that updateBorder queues, in the order of
      `node.children(eval)`: at most two. */
  ghost function Kept(node: Node, o: E.Oracle, B: DM.DoubleMatrix, submBest: MD.MutableDouble,
                      endGenerators: set<Node>, k: int): (r: seq<Node>)
    reads B.data, submBest
    requires B.Valid() && B.nrow == o.numItems && B.ncol == k - 1
    requires SearchNode(node, o.numItems, k) && node.j >= 0
    ensures |r| <= 2 && forall c :: c in r ==> c in Children(node, o.numItems) && c !in endGenerators
  {
    ChildrenIndexed(node, o.numItems, k);
    Admitted(Children(node, o.numItems), o, B, submBest, endGenerators, k)
  }

  /** The loop over `node.children(eval)` in updateBorder: each child
      outside the end generators goes through processChildNode, so the
      border grows by exactly the kept children, in order. */
  method ExpandNode(border: Border, node: Node, o: E.Oracle, B: DM.DoubleMatrix,
                    submBest: MD.MutableDouble, endGenerators: set<Node>, k: int)
    returns (ghost queued: seq<Node>)
    requires B.Valid() && B.nrow == o.numItems && B.ncol == k - 1
    requires SearchNode(node, o.numItems, k) && node.j >= 0
    modifies border
    ensures queued == Kept(node, o, B, submBest, endGenerators, k)
    ensures border.contents == old(border.contents) + queued
  {
    var children := Children(node, o.numItems);
    ChildrenIndexed(node, o.numItems, k);
    queued := [];
    var i := 0;
    while i < |children|
      invariant 0 <= i <= |children|
      invariant border.contents == old(border.contents) + queued
      invariant queued == Admitted(children[..i], o, B, submBest, endGenerators, k)
    {
      queued := OfferChild(border, children, i, o, B, submBest, endGenerators, k, old(border.contents), queued);
      i := i + 1;
    }
    assert children[..i] == children;
  }

  /** One turn of that loop: child i of cs goes through processChildNode
      unless it is an end generator. */
  method OfferChild(border: Border, cs: seq<Node>, i: int, o: E.Oracle, B: DM.DoubleMatrix,
                    submBest: MD.MutableDouble, endGenerators: set<Node>, k: int,
                    ghost base: seq<Node>, ghost queued: seq<Node>)
    returns (ghost queued': seq<Node>)
    requires B.Valid() && B.nrow == o.numItems && B.ncol == k - 1
    requires forall i :: 0 <= i < |cs| ==> SearchNode(cs[i], o.numItems, k) && cs[i].j >= 0
    requires 0 <= i < |cs| && queued == Admitted(cs[..i], o, B, submBest, endGenerators, k)
    requires border.contents == base + queued
    modifies border
    ensures queued' == Admitted(cs[..i + 1], o, B, submBest, endGenerators, k)
    ensures border.contents == base + queued'
    ensures queued' == queued + if Keeps(cs[i], o, B, submBest, endGenerators, k) then [cs[i]] else []
  {
    var next := cs[i];
    AdmittedStep(cs, o, B, submBest, endGenerators, k, i);
    queued' := queued;
    if next !in endGenerators {
      ProcessChildNode(border, next, o, B, submBest, k);
      if Le(submBest.Value(o.sumSet(next.pos)), TotalBound(o, B, next, k)) {
        queued' := queued + [next];
      }
    }
  }

  /** `updateBorder`: polls a node of least key, emits its point when its
      value beats the best recorded for its sum (and records it), and, unless
      the cursor is -1, offers each child outside the end generators to
      processChildNode.  The border's weight goes down. */
  method UpdateBorder(border: Border, skyline: seq<SP.Point>, o: E.Oracle, B: DM.DoubleMatrix,
                      submBest: MD.MutableDouble, endGenerators: set<Node>, k: int)
    returns (skyline': seq<SP.Point>, ghost node: Node, ghost at: nat)
    requires border.o == o && |border.contents| > 0
    requires forall m :: m in border.contents ==> SearchNode(m, o.numItems, k)
    requires B.Valid() && B.nrow == o.numItems && B.ncol == k - 1
    requires submBest.Valid() && |o.origItem| >= o.numItems
    requires forall q :: q in skyline ==> Covers(submBest, q)
    requires !submBest.synchronized ==> StrictlyIncreasing(skyline)
    requires submBest.synchronized ==> NoLaterDominated(skyline, submBest.maxSum)
    modifies border, submBest
    ensures submBest.Valid()
    ensures forall m :: m in border.contents ==> SearchNode(m, o.numItems, k)
    ensures Weight(border.contents, o.numItems) < Weight(old(border.contents), o.numItems)
    ensures at < |old(border.contents)| && node == old(border.contents)[at] && SearchNode(node, o.numItems, k)
    ensures forall m :: m in old(border.contents) ==> Key(o, node) <= Key(o, m)
    ensures border.contents == old(border.contents)[..at] + old(border.contents)[at + 1..] +
              if node.j >= 0 then Kept(node, o, B, submBest, endGenerators, k) else []
    ensures Lt(old(submBest.Value(o.sumSet(node.pos))), Fin(o.submSet(node.pos))) ==>
              skyline' == skyline + [MakePoint(o, node.pos)]
    ensures !Lt(old(submBest.Value(o.sumSet(node.pos))), Fin(o.submSet(node.pos))) ==>
              skyline' == skyline && submBest.value == old(submBest.value) && submBest.skyline == old(submBest.skyline)
    ensures forall q :: q in skyline' ==> Covers(submBest, q)
    ensures !submBest.synchronized ==> StrictlyIncreasing(skyline')
    ensures submBest.synchronized ==> NoLaterDominated(skyline', submBest.maxSum)
  {
    ghost var before := border.contents;
    var polled;
    polled, at := border.Poll();
    node := polled;
    assert polled in before;
    assert SearchNode(polled, o.numItems, k);
    var submValue := o.submSet(polled.pos);
    var sumValue := o.sumSet(polled.pos);
    skyline' := skyline;
    if Lt(submBest.Value(sumValue), Fin(submValue)) {
      var items := E.ActualItems(o.origItem, polled.pos);
      var p := SP.Point(items, sumValue, submValue);
      assert p == MakePoint(o, polled.pos);
      skyline' := Emit(submBest, skyline, p);
    }
    ghost var rest := border.contents;
    ghost var queued: seq<Node> := [];
    if polled.j != -1 {
      queued := ExpandNode(border, polled, o, B, submBest, endGenerators, k);
    } else {
      assert rest + queued == rest;
    }
    assert border.contents == before[..at] + before[at + 1..] + queued;
    BorderAfterPoll(before, at, queued, o.numItems, k, endGenerators);
  }

  /** `computeSkylineInterval`: drains the border filled with the begin
      generators, never entering an end generator.  Every emitted point is
      the point of some k positions, stays covered by the store, and no
      emitted point is dominated by an earlier one; with the plain store the
      emitted values strictly increase. */
  method ComputeSkylineInterval(k: int, o: E.Oracle, submBest: MD.MutableDouble,
                                beginGenerators: seq<Node>, endGenerators: set<Node>)
    returns (skyline: seq<SP.Point>)
    requires k >= 1
    requires forall g :: g in beginGenerators ==> SearchNode(g, o.numItems, k)
    requires submBest.Valid() && |o.origItem| >= o.numItems
    modifies submBest
    ensures submBest.Valid()
    ensures forall p :: p in skyline ==> IsSearchPoint(o, k, p)
    ensures forall p :: p in skyline ==> Covers(submBest, p)
    ensures !submBest.synchronized ==> StrictlyIncreasing(skyline)
    ensures submBest.synchronized ==> NoLaterDominated(skyline, submBest.maxSum)
  {
    var B := GetPrefixBound(o, k);
    var border := InitBorder(o, beginGenerators);
    skyline := [];
    while border.Size() > 0
      invariant border.o == o
      invariant submBest.Valid()
      invariant B.Valid() && B.nrow == o.numItems && B.ncol == k - 1
      invariant forall m :: m in border.contents ==> SearchNode(m, o.numItems, k)
      invariant forall p :: p in skyline ==> IsSearchPoint(o, k, p)
      invariant forall p :: p in skyline ==> Covers(submBest, p)
      invariant !submBest.synchronized ==> StrictlyIncreasing(skyline)
      invariant submBest.synchronized ==> NoLaterDominated(skyline, submBest.maxSum)
      decreases Weight(border.contents, o.numItems)
    {
      ghost var old_skyline := skyline;
      ghost var node, at;
      skyline, node, at := UpdateBorder(border, skyline, o, B, submBest, endGenerators, k);
      assert skyline == old_skyline || skyline == old_skyline + [MakePoint(o, node.pos)];
      assert forall p :: p in skyline ==> p in old_skyline || p == MakePoint(o, node.pos);
    }
  }

  /** `computeSkyline(k, eval)`: one interval holding the whole tree, from
      the root 0..k-1 with the cursor at k-1, with the plain store. */
  method ComputeSkyline(k: int, o: E.Oracle) returns (skyline: seq<SP.Point>)
    requires 1 <= k <= o.numItems && |o.origItem| >= o.numItems
    ensures forall p :: p in skyline ==> IsSearchPoint(o, k, p)
    ensures StrictlyIncreasing(skyline)
  {
    var pos := Utils.Range(k);
    RootIsSearchNode(pos, o.numItems, k);
    var submBest := new MD.MutableDouble(false, o.maxSum);
    skyline := ComputeSkylineInterval(k, o, submBest, [Node(pos, k - 1)], {});
  }
}
