/** ExactSkylineParallel: slicing the combination tree into blocks of
    consecutive preorder ranks (subtree sizes, the spine, rank and unrank),
    the search of one block, and the merge of the block skylines.  Rank and
    unrank work on 1-based nodes over {1..n}; shifting gives the 0-based
    nodes the search itself uses. */
module ExactSkylineParallel {
  import opened Wrappers
  import opened ExtInt
  import opened SearchTreeNode
  import Utils
  import ES = ExactSkyline
  import MD = MutableDouble
  import SP = SkylinePoint
  import PU = PointUtils
  import E = Evaluator

  // ---------------------------------------------------------------------
  // The 1-based tree.

  /** A node of the rank/unrank tree over {1..n}: the slots below the cursor
      hold their least values 1..j, and from the cursor on the positions
      increase and stay at most n. */
  predicate Canonical(node: Node, n: int)
  {
    var k := |node.pos|;
    k >= 1 && 0 <= node.j < k &&
    (forall t :: 0 <= t < node.j ==> node.pos[t] == t + 1) &&
    node.pos[node.j] >= node.j + 1 &&
    (forall a, b :: node.j <= a < b < k ==> node.pos[a] < node.pos[b]) &&
    node.pos[k - 1] <= n
  }

  /** The root `(1..k, k-1)`. */
  function Root(k: nat): Node
  {
    Node(seq(k, i => i + 1), k as int - 1)
  }

  lemma {:induction false} CanonicalBounds(node: Node, n: int)
    requires Canonical(node, n)
    ensures forall t :: 0 <= t < |node.pos| ==> 1 <= node.pos[t] <= n
    ensures Increasing(node.pos)
  {
    var k, j := |node.pos|, node.j;
    forall t | 0 <= t < k ensures 1 <= node.pos[t] <= n {
      if t < j {
        assert node.pos[j] <= node.pos[k - 1];
      } else if t < k - 1 {
        assert node.pos[t] < node.pos[k - 1];
      }
    }
    forall a, b | 0 <= a < b < k ensures node.pos[a] < node.pos[b] {
      if b < j {
      } else if a < j {
        assert node.pos[j] <= node.pos[b];
      }
    }
  }

  lemma {:induction false} PotentialOfCanonical(node: Node, n: int)
    requires Canonical(node, n)
    ensures Potential(node.pos, n) >= 0
  {
    CanonicalBounds(node, n);
    PotentialNonNegative(node.pos, n);
  }

  /** The last value slot j takes in the node's subtree: one below the next
      slot, or n for the last slot. */
  function EndJ(node: Node, n: int): int
    requires 0 <= node.j < |node.pos|
  {
    if node.j + 1 < |node.pos| then node.pos[node.j + 1] - 1 else n
  }

  /** The largest positions of the node's subtree, slot by slot: the slots
      above the cursor stay, and each slot at or below it ends one below
      the end of the slot above. */
  function EndOf(node: Node, n: int): seq<int>
    requires 0 <= node.j < |node.pos|
  {
    seq(|node.pos|, t requires 0 <= t < |node.pos| =>
      if t > node.j then node.pos[t] else EndJ(node, n) - (node.j - t))
  }

  lemma CanonicalBelowEnd(node: Node, n: int)
    requires Canonical(node, n)
    ensures node.pos[node.j] <= EndJ(node, n)
  {
    if node.j + 1 < |node.pos| {
      assert node.pos[node.j] < node.pos[node.j + 1];
    } else {
      assert node.j == |node.pos| - 1;
    }
  }

  /** `findEnd(root, n)`. */
  method FindEnd(root: Node, n: int) returns (end: seq<int>)
    requires 0 <= root.j < |root.pos|
    ensures |end| == |root.pos|
    ensures forall t :: root.j < t < |end| ==> end[t] == root.pos[t]
    ensures end[root.j] == (if root.j + 1 < |end| then root.pos[root.j + 1] - 1 else n)
    ensures forall t :: 0 <= t < root.j ==> end[t] == end[t + 1] - 1
    ensures end == EndOf(root, n)
  {
    var e := new int[|root.pos|];
    forall t | 0 <= t < e.Length {
      e[t] := root.pos[t];
    }
    var j := root.j;
    if j + 1 < e.Length {
      e[j] := e[j + 1] - 1;
    } else {
      e[j] := n;
    }
    var i := j - 1;
    while i >= 0
      invariant -1 <= i < j
      invariant forall t :: j < t < e.Length ==> e[t] == root.pos[t]
      invariant forall t :: i < t <= j ==> e[t] == EndJ(root, n) - (j - t)
    {
      e[i] := e[i + 1] - 1;
      i := i - 1;
    }
    end := e[..];
  }

  // ---------------------------------------------------------------------
  // Subtree sizes.

  /** The sum of C(i-1, r) over lo <= i <= hi. */
  function RangeSize(lo: int, hi: int, r: nat): nat
    requires lo >= 1
    decreases hi - lo + 1
  {
    if hi < lo then 0 else RangeSize(lo, hi - 1, r) + Utils.Binom(hi - 1, r)
  }

  lemma {:induction false} RangeSizeBottom(lo: int, hi: int, r: nat)
    requires 1 <= lo <= hi
    ensures RangeSize(lo, hi, r) == Utils.Binom(lo - 1, r) + RangeSize(lo + 1, hi, r)
    decreases hi - lo
  {
    if hi > lo {
      RangeSizeBottom(lo, hi - 1, r);
    }
  }

  /** The hockey-stick identity: the sum of C(i-1, r) over r+1 <= i <= m is
      C(m, r+1). */
  lemma {:induction false} HockeyStick(r: nat, m: int)
    requires m >= r
    ensures RangeSize(r + 1, m, r) == Utils.Binom(m, r + 1)
    decreases m - r
  {
    if m == r {
      Utils.BinomAbove(r, r + 1);
    } else {
      HockeyStick(r, m - 1);
    }
  }

  /** The size of a node's subtree: slot j runs from pos[j] to its end, and
      for each value v the slots below can take C(v-1, j) choices. */
  function Size(node: Node, n: int): nat
    requires 0 <= node.j < |node.pos| && node.pos[node.j] >= 1
  {
    RangeSize(node.pos[node.j], EndJ(node, n), node.j)
  }

  /** `subtreeSize(root, end)`: sums nchoosek(i-1, j) over
      pos[j] <= i <= end[j]. */
  method SubtreeSize(root: Node, end: seq<int>) returns (size: int)
    requires 0 <= root.j < |root.pos| == |end|
    ensures root.pos[root.j] >= root.j + 1 ==> size == RangeSize(root.pos[root.j], end[root.j], root.j)
  {
    size := 0;
    var j := root.j;
    var i := root.pos[j];
    while i < end[j] + 1
      invariant root.pos[j] >= j + 1 ==> root.pos[j] <= i <= end[j] + 1 || i == root.pos[j] > end[j]
      invariant root.pos[j] >= j + 1 ==> size == RangeSize(root.pos[j], i - 1, j)
    {
      if root.pos[j] >= j + 1 {
        Utils.NChooseKIsBinom(i - 1, j);
      }
      size := size + Utils.NChooseK(i - 1, j);
      i := i + 1;
    }
  }

  // ---------------------------------------------------------------------
  // Children and the preorder.

  /** Slot j can still advance within its end. */
  predicate HasRightChild(node: Node, n: int)
    requires 0 <= node.j < |node.pos|
  {
    node.pos[node.j] + 1 <= EndJ(node, n)
  }

  /** The cursor is above 0 and slot j-1 has room below slot j. */
  predicate HasLeftChild(node: Node)
    requires 0 <= node.j < |node.pos|
  {
    node.j > 0 && node.pos[node.j - 1] + 1 < node.pos[node.j]
  }

  /** The right child is again a tree node, one unit of potential lower. */
  lemma {:induction false} RightChildShape(node: Node, n: int)
    requires Canonical(node, n) && HasRightChild(node, n)
    ensures Canonical(Child(node, node.j), n)
    ensures Potential(Child(node, node.j).pos, n) == Potential(node.pos, n) - 1
  {
    RightChildTree(node, n);
    PotentialOfChild(node, node.j, n);
  }

  lemma {:induction false} RightChildTree(node: Node, n: int)
    requires Canonical(node, n) && HasRightChild(node, n)
    ensures Canonical(Child(node, node.j), n)
  {
    var c := Child(node, node.j);
    var k, j := |node.pos|, node.j;
    forall a, b | j <= a < b < k ensures c.pos[a] < c.pos[b] {
      if a == j && b > j {
        assert node.pos[j + 1] <= node.pos[b];
      }
    }
    if j < k - 1 {
      assert c.pos[k - 1] == node.pos[k - 1];
    }
  }

  /** The right child also keeps the ends. */
  lemma RightChildCanonical(node: Node, n: int)
    requires Canonical(node, n) && HasRightChild(node, n)
    ensures Canonical(Child(node, node.j), n)
    ensures EndJ(Child(node, node.j), n) == EndJ(node, n)
    ensures EndOf(Child(node, node.j), n) == EndOf(node, n)
    ensures Potential(Child(node, node.j).pos, n) == Potential(node.pos, n) - 1
  {
    RightChildShape(node, n);
  }

  /** The gap-checked left child is again a tree node, one unit of
      potential lower. */
  lemma {:induction false} LeftChildShape(node: Node, n: int)
    requires Canonical(node, n) && HasLeftChild(node)
    ensures Canonical(Child(node, node.j - 1), n)
    ensures Potential(Child(node, node.j - 1).pos, n) == Potential(node.pos, n) - 1
  {
    LeftChildTree(node, n);
    PotentialOfChild(node, node.j - 1, n);
  }

  lemma {:induction false} LeftChildTree(node: Node, n: int)
    requires Canonical(node, n) && HasLeftChild(node)
    ensures Canonical(Child(node, node.j - 1), n)
  {
    var c := Child(node, node.j - 1);
    var k, j := |node.pos|, node.j;
    forall a, b | j - 1 <= a < b < k ensures c.pos[a] < c.pos[b] {
      if a == j - 1 {
        assert node.pos[j] <= node.pos[b];
      }
    }
    assert c.pos[k - 1] == node.pos[k - 1];
  }

  lemma LeftChildCanonical(node: Node, n: int)
    requires Canonical(node, n) && HasLeftChild(node)
    ensures Canonical(Child(node, node.j - 1), n)
    ensures Child(node, node.j - 1).pos[node.j - 1] == node.j + 1
    ensures EndJ(Child(node, node.j - 1), n) == node.pos[node.j] - 1
    ensures Potential(Child(node, node.j - 1).pos, n) == Potential(node.pos, n) - 1
  {
    LeftChildShape(node, n);
  }

  /** When slot j is already at its end, the left child has the same ends. */
  lemma {:induction false} LeftChildEnd(node: Node, n: int)
    requires Canonical(node, n) && HasLeftChild(node) && !HasRightChild(node, n)
    ensures EndOf(Child(node, node.j - 1), n) == EndOf(node, n)
  {
    var c, j := Child(node, node.j - 1), node.j;
    CanonicalBelowEnd(node, n);
    assert node.pos[j] == EndJ(node, n);
    assert EndJ(c, n) == node.pos[j] - 1;
    forall t | 0 <= t < |node.pos| ensures EndOf(c, n)[t] == EndOf(node, n)[t] {
      if t < j {
        assert EndOf(c, n)[t] == node.pos[j] - 1 - (j - 1 - t);
      }
    }
  }

  /** The preorder of a node's subtree: the node, then its left subtree,
      then its right subtree. */
  function Pre(node: Node, n: int): (p: seq<Node>)
    requires Canonical(node, n)
    ensures |p| >= 1 && p[0] == node
    decreases Potential(node.pos, n), 1
  {
    [node] + LeftPre(node, n) + RightPre(node, n)
  }

  /** The preorder of the left subtree, empty when there is no left child. */
  function LeftPre(node: Node, n: int): seq<Node>
    requires Canonical(node, n)
    decreases Potential(node.pos, n), 0
  {
    PotentialOfCanonical(node, n);
    if HasLeftChild(node) then
      LeftChildShape(node, n);
      Pre(Child(node, node.j - 1), n)
    else []
  }

  /** The preorder of the right subtree, empty when there is no right child. */
  function RightPre(node: Node, n: int): seq<Node>
    requires Canonical(node, n)
    decreases Potential(node.pos, n), 0
  {
    PotentialOfCanonical(node, n);
    if HasRightChild(node, n) then
      RightChildShape(node, n);
      Pre(Child(node, node.j), n)
    else []
  }

  /** The binomial sum counts the preorder: `subtreeSize` is the number of
      nodes in the subtree. */
  lemma {:induction false} PreLength(node: Node, n: int)
    requires Canonical(node, n)
    ensures |Pre(node, n)| == Size(node, n)
    decreases Potential(node.pos, n), 1
  {
    var j, p, e := node.j, node.pos[node.j], EndJ(node, n);
    PotentialOfCanonical(node, n);
    CanonicalBelowEnd(node, n);
    LeftPreLength(node, n);
    if HasRightChild(node, n) {
      RightChildCanonical(node, n);
      PreLength(Child(node, j), n);
      RangeSizeBottom(p, e, j);
    } else {
      assert p == e;
      assert RangeSize(p, e, j) == Utils.Binom(p - 1, j);
    }
  }

  /** The node and its left subtree hold C(pos[j]-1, j) nodes. */
  lemma {:induction false} LeftPreLength(node: Node, n: int)
    requires Canonical(node, n)
    ensures 1 + |LeftPre(node, n)| == Utils.Binom(node.pos[node.j] - 1, node.j)
    decreases Potential(node.pos, n), 0
  {
    var j, p := node.j, node.pos[node.j];
    PotentialOfCanonical(node, n);
    if HasLeftChild(node) {
      var c := LeftPreIsPre(node, n);
      PreLength(c, n);
      LeftSizeSum(j, p);
    } else if j > 0 {
      assert p == j + 1;
      Utils.BinomDiagonal(j);
    }
  }

  /** The left subtree's preorder is its child's, and the child's slot
      j-1 ranges over j+1..pos[j]-1. */
  lemma {:induction false} LeftPreIsPre(node: Node, n: int) returns (c: Node)
    requires Canonical(node, n) && HasLeftChild(node)
    ensures c == Child(node, node.j - 1) && Canonical(c, n)
    ensures Potential(c.pos, n) < Potential(node.pos, n)
    ensures LeftPre(node, n) == Pre(c, n)
    ensures Size(c, n) == RangeSize(node.j + 1, node.pos[node.j] - 1, node.j - 1)
  {
    c := Child(node, node.j - 1);
    LeftChildCanonical(node, n);
    LeftChildSize(node, n, c);
  }

  lemma LeftChildSize(node: Node, n: int, c: Node)
    requires 0 < node.j < |node.pos| && c == Child(node, node.j - 1)
    requires node.pos[node.j - 1] == node.j
    requires EndJ(c, n) == node.pos[node.j] - 1
    ensures Size(c, n) == RangeSize(node.j + 1, node.pos[node.j] - 1, node.j - 1)
  {
  }

  /** The left child's range of slot j-1 plus the node itself. */
  lemma LeftSizeSum(j: int, p: int)
    requires 1 <= j && j + 1 < p
    ensures 1 + RangeSize(j + 1, p - 1, j - 1) == Utils.Binom(p - 1, j)
  {
    HockeyStick(j - 1, p - 1);
    RangeSizeBottom(j, p - 1, j - 1);
    Utils.BinomDiagonal(j - 1);
  }

  /** The tree of k-subsets of {1..n} has C(n, k) nodes. */
  lemma RootSize(n: int, k: nat)
    requires 1 <= k <= n
    ensures Canonical(Root(k), n)
    ensures |Pre(Root(k), n)| == Size(Root(k), n) == Utils.Binom(n, k)
  {
    var root := Root(k);
    assert root.pos[k - 1] == k;
    assert Canonical(root, n);
    PreLength(root, n);
    HockeyStick(k - 1, n);
  }

  /** The global ends are those of the root: `range(n-k+1, n+1)`. */
  lemma RootEnd(n: int, k: nat)
    requires 1 <= k <= n
    ensures forall t :: 0 <= t < k ==> EndOf(Root(k), n)[t] == n - k + 1 + t
  {
    assert Root(k).j + 1 == |Root(k).pos|;
    assert EndJ(Root(k), n) == n;
  }

  // ---------------------------------------------------------------------
  // The spine.

  /** The spine of a subtree: from the node, follow the right child while
      there is one, else the left child. */
  function Spine(node: Node, n: int): (s: seq<Node>)
    requires Canonical(node, n)
    ensures |s| >= 1 && s[0] == node
    decreases Potential(node.pos, n)
  {
    PotentialOfCanonical(node, n);
    [node] +
    (if HasRightChild(node, n) then
       RightChildShape(node, n);
       Spine(Child(node, node.j), n)
     else if HasLeftChild(node) then
       LeftChildShape(node, n);
       Spine(Child(node, node.j - 1), n)
     else [])
  }

  /** The spine node after a node that has a child. */
  function NextOnSpine(node: Node, n: int): Node
    requires Canonical(node, n) && (HasRightChild(node, n) || HasLeftChild(node))
  {
    if HasRightChild(node, n) then Child(node, node.j) else Child(node, node.j - 1)
  }

  /** What materializeSpine appends for slots q down to 0: for each slot not
      yet at its end, one node per further value, the slot then staying at
      its end. */
  function SpineTail(pos: seq<int>, q: int, end: seq<int>): seq<Node>
    requires -1 <= q < |pos| == |end|
    decreases q + 1
  {
    if q < 0 then []
    else if pos[q] == end[q] then SpineTail(pos, q - 1, end)
    else Chain(pos, q, pos[q] + 1, end[q]) + SpineTail(pos[q := end[q]], q - 1, end)
  }

  /** The nodes with slot q set to v, v+1, ..., hi and the cursor at q. */
  function Chain(pos: seq<int>, q: int, v: int, hi: int): seq<Node>
    requires 0 <= q < |pos|
    decreases hi - v + 1
  {
    if v > hi then [] else [Node(pos[q := v], q)] + Chain(pos, q, v + 1, hi)
  }

  lemma {:induction false} ChainIgnoresSlot(pos: seq<int>, q: int, w: int, v: int, hi: int)
    requires 0 <= q < |pos|
    ensures Chain(pos[q := w], q, v, hi) == Chain(pos, q, v, hi)
    decreases hi - v + 1
  {
    if v <= hi {
      assert pos[q := w][q := v] == pos[q := v];
      ChainIgnoresSlot(pos, q, w, v + 1, hi);
    }
  }

  /** Peeling the first node off a chain. */
  lemma {:induction false} ChainStep(pos: seq<int>, q: int, v: int, end: seq<int>)
    requires 0 <= q < |pos| == |end| && v <= end[q]
    ensures Chain(pos, q, v, end[q]) + SpineTail(pos[q := end[q]], q - 1, end)
         == [Node(pos[q := v], q)] + SpineTail(pos[q := v], q, end)
  {
    var hi := end[q];
    var pv := pos[q := v];
    assert pv[q := hi] == pos[q := hi];
    if v == hi {
      assert Chain(pos, q, v, hi) == [Node(pv, q)];
    } else {
      ChainIgnoresSlot(pos, q, v, v + 1, hi);
      assert SpineTail(pv, q, end) == Chain(pv, q, v + 1, hi) + SpineTail(pv[q := hi], q - 1, end);
    }
  }

  lemma {:induction false} SpineTailAtEnds(pos: seq<int>, q: int, end: seq<int>)
    requires -1 <= q < |pos| == |end|
    requires forall t :: 0 <= t <= q ==> pos[t] == end[t]
    ensures SpineTail(pos, q, end) == []
    decreases q + 1
  {
    if q >= 0 {
      SpineTailAtEnds(pos, q - 1, end);
    }
  }

  /** With a right child, the tail starts with the right child. */
  lemma TailRightStep(node: Node, n: int)
    requires Canonical(node, n) && HasRightChild(node, n)
    ensures SpineTail(node.pos, node.j, EndOf(node, n))
         == [Child(node, node.j)] + SpineTail(Child(node, node.j).pos, node.j, EndOf(node, n))
  {
    var q, end := node.j, EndOf(node, n);
    assert end[q] == EndJ(node, n);
    ChainStep(node.pos, q, node.pos[q] + 1, end);
  }

  /** Slot j at its end and a left child: the tail starts with the left child. */
  lemma TailLeftStep(node: Node, n: int)
    requires Canonical(node, n) && HasLeftChild(node) && !HasRightChild(node, n)
    ensures SpineTail(node.pos, node.j, EndOf(node, n))
         == [Child(node, node.j - 1)] + SpineTail(Child(node, node.j - 1).pos, node.j - 1, EndOf(node, n))
  {
    var q, end := node.j, EndOf(node, n);
    CanonicalBelowEnd(node, n);
    assert end[q] == EndJ(node, n) == node.pos[q];
    assert end[q - 1] == end[q] - 1;
    ChainStep(node.pos, q - 1, q + 1, end);
  }

  /** No child: nothing follows on the spine. */
  lemma TailLeafStep(node: Node, n: int)
    requires Canonical(node, n) && !HasLeftChild(node) && !HasRightChild(node, n)
    ensures SpineTail(node.pos, node.j, EndOf(node, n)) == []
  {
    var q, end := node.j, EndOf(node, n);
    CanonicalBelowEnd(node, n);
    assert end[q] == EndJ(node, n) == node.pos[q];
    if q > 0 {
      assert node.pos[q] == q + 1;
    }
    SpineTailAtEnds(node.pos, q, end);
  }

  /** The slot-by-slot construction of materializeSpine builds the spine. */
  lemma {:induction false} SpineUnfold(node: Node, n: int)
    requires Canonical(node, n)
    ensures Spine(node, n) == [node] + SpineTail(node.pos, node.j, EndOf(node, n))
    decreases Potential(node.pos, n)
  {
    PotentialOfCanonical(node, n);
    if HasRightChild(node, n) {
      RightChildCanonical(node, n);
      SpineUnfold(Child(node, node.j), n);
      TailRightStep(node, n);
    } else if HasLeftChild(node) {
      LeftChildCanonical(node, n);
      LeftChildEnd(node, n);
      SpineUnfold(Child(node, node.j - 1), n);
      TailLeftStep(node, n);
    } else {
      TailLeafStep(node, n);
    }
  }

  /** `materializeSpine(root, end)`: the root, then for q = j down to 0
      every further value of slot q up to end[q]; the next slot starts from
      the last node built. */
  method MaterializeSpine(root: Node, end: seq<int>, ghost n: int) returns (spine: seq<Node>)
    requires Canonical(root, n) && end == EndOf(root, n)
    ensures spine == Spine(root, n)
  {
    CanonicalBelowEnd(root, n);
    spine := MaterializeSlots(root, end);
    SpineUnfold(root, n);
  }

  /** The slot loop of materializeSpine, from slot j of the root down to 0. */
  method MaterializeSlots(root: Node, end: seq<int>) returns (spine: seq<Node>)
    requires -1 <= root.j < |root.pos| == |end|
    requires forall t :: 0 <= t <= root.j ==> root.pos[t] <= end[t]
    ensures spine == [root] + SpineTail(root.pos, root.j, end)
  {
    spine := [root];
    var cur := root;
    var q := root.j;
    while q >= 0
      invariant -1 <= q <= root.j
      invariant |cur.pos| == |end|
      invariant forall t :: 0 <= t <= q ==> cur.pos[t] <= end[t]
      invariant spine + SpineTail(cur.pos, q, end) == [root] + SpineTail(root.pos, root.j, end)
    {
      if cur.pos[q] == end[q] {
        q := q - 1;
        continue;
      }
      spine, cur := FillSlot(spine, cur, q, end);
      q := q - 1;
    }
    assert spine + [] == spine;
  }

  /** One turn of that loop on a slot below its end: its chain is built,
      and the slot is left at its end. */
  method FillSlot(spine: seq<Node>, cur: Node, q: int, end: seq<int>) returns (spine': seq<Node>, next: Node)
    requires 0 <= q < |cur.pos| == |end| && cur.pos[q] < end[q]
    ensures |next.pos| == |end| && forall t :: 0 <= t < q ==> next.pos[t] == cur.pos[t]
    ensures spine' + SpineTail(next.pos, q - 1, end) == spine + SpineTail(cur.pos, q, end)
  {
    ghost var chain := Chain(cur.pos, q, cur.pos[q] + 1, end[q]);
    spine', next := AppendSlot(spine, cur, q, end[q]);
    ghost var tail := SpineTail(next.pos, q - 1, end);
    assert SpineTail(cur.pos, q, end) == chain + tail;
    assert spine' + tail == spine + (chain + tail);
  }

  /** The inner loop of materializeSpine: one node per value of slot q from
      pos[q]+1 to hi, each a copy of cur with that value at q. */
  method AppendSlot(spine: seq<Node>, cur: Node, q: int, hi: int) returns (spine': seq<Node>, last: Node)
    requires 0 <= q < |cur.pos| && cur.pos[q] < hi
    ensures spine' == spine + Chain(cur.pos, q, cur.pos[q] + 1, hi)
    ensures last == Node(cur.pos[q := hi], q)
  {
    spine' := spine;
    var newnode: Option<Node> := None;
    var v := cur.pos[q] + 1;
    while v < hi + 1
      invariant cur.pos[q] + 1 <= v <= hi + 1
      invariant newnode.Some? <==> v > cur.pos[q] + 1
      invariant newnode.Some? ==> newnode.value == Node(cur.pos[q := v - 1], q)
      invariant spine' + Chain(cur.pos, q, v, hi) == spine + Chain(cur.pos, q, cur.pos[q] + 1, hi)
    {
      var newitems := cur.pos[q := v];
      newnode := Some(Node(newitems, q));
      spine' := spine' + [newnode.value];
      v := v + 1;
    }
    assert spine' + [] == spine';
    last := newnode.value;
  }

  predicate IsSuffix(b: seq<Node>, a: seq<Node>)
  {
    |b| <= |a| && a[|a| - |b|..] == b
  }

  lemma SuffixTrans(a: seq<Node>, b: seq<Node>, c: seq<Node>)
    requires IsSuffix(b, a) && IsSuffix(c, b)
    ensures IsSuffix(c, a)
  {
    assert a[|a| - |c|..] == a[|a| - |b|..][|b| - |c|..];
  }

  /** One step down the spine. */
  lemma ChildOnSpine(node: Node, n: int)
    requires Canonical(node, n) && (HasRightChild(node, n) || HasLeftChild(node))
    ensures Canonical(NextOnSpine(node, n), n)
    ensures EndOf(NextOnSpine(node, n), n) == EndOf(node, n)
    ensures Potential(NextOnSpine(node, n).pos, n) == Potential(node.pos, n) - 1
    ensures Spine(node, n) == [node] + Spine(NextOnSpine(node, n), n)
    ensures IsSuffix(Pre(NextOnSpine(node, n), n), Pre(node, n))
    ensures |Pre(NextOnSpine(node, n), n)| < |Pre(node, n)|
  {
    if HasRightChild(node, n) {
      RightChildCanonical(node, n);
      RightOnSpine(node, n);
    } else {
      LeftChildCanonical(node, n);
      LeftChildEnd(node, n);
      LeftOnSpine(node, n);
    }
  }

  lemma RightOnSpine(node: Node, n: int)
    requires Canonical(node, n) && HasRightChild(node, n)
    ensures Canonical(Child(node, node.j), n)
    ensures Spine(node, n) == [node] + Spine(Child(node, node.j), n)
    ensures IsSuffix(Pre(Child(node, node.j), n), Pre(node, n))
    ensures |Pre(Child(node, node.j), n)| < |Pre(node, n)|
  {
    RightChildCanonical(node, n);
    var c := Child(node, node.j);
    var p := Pre(node, n);
    assert RightPre(node, n) == Pre(c, n);
    assert p == ([node] + LeftPre(node, n)) + Pre(c, n);
  }

  lemma LeftOnSpine(node: Node, n: int)
    requires Canonical(node, n) && HasLeftChild(node) && !HasRightChild(node, n)
    ensures Canonical(Child(node, node.j - 1), n)
    ensures Spine(node, n) == [node] + Spine(Child(node, node.j - 1), n)
    ensures IsSuffix(Pre(Child(node, node.j - 1), n), Pre(node, n))
    ensures |Pre(Child(node, node.j - 1), n)| < |Pre(node, n)|
  {
    LeftChildCanonical(node, n);
    var c := Child(node, node.j - 1);
    var p := Pre(node, n);
    assert RightPre(node, n) == [];
    assert LeftPre(node, n) == Pre(c, n);
    assert p == [node] + Pre(c, n);
  }

  /** A spine node: its shape, its ends (those of the root), its subtree
      (a suffix of the root's preorder) and the next spine node. */
  lemma SpineFacts(root: Node, n: int, t: nat)
    requires Canonical(root, n) && t < |Spine(root, n)|
    ensures Canonical(Spine(root, n)[t], n) && |Spine(root, n)[t].pos| == |root.pos|
    ensures EndOf(Spine(root, n)[t], n) == EndOf(root, n)
    ensures Potential(Spine(root, n)[t].pos, n) == Potential(root.pos, n) - t
    ensures IsSuffix(Pre(Spine(root, n)[t], n), Pre(root, n))
    ensures t + 1 < |Spine(root, n)| ==>
              (HasRightChild(Spine(root, n)[t], n) || HasLeftChild(Spine(root, n)[t])) &&
              Spine(root, n)[t + 1] == NextOnSpine(Spine(root, n)[t], n)
    ensures t + 1 == |Spine(root, n)| ==>
              !HasRightChild(Spine(root, n)[t], n) && !HasLeftChild(Spine(root, n)[t])
  {
    SpineShape(root, n, t);
    SpineSuffix(root, n, t);
    SpineNext(root, n, t);
  }

  lemma {:induction false} SpineShape(root: Node, n: int, t: nat)
    requires Canonical(root, n) && t < |Spine(root, n)|
    ensures Canonical(Spine(root, n)[t], n) && |Spine(root, n)[t].pos| == |root.pos|
    ensures EndOf(Spine(root, n)[t], n) == EndOf(root, n)
    ensures Potential(Spine(root, n)[t].pos, n) == Potential(root.pos, n) - t
    decreases t
  {
    if t > 0 {
      SpineShift(root, n, t);
      ChildOnSpine(root, n);
      SpineShape(NextOnSpine(root, n), n, t - 1);
    }
  }

  lemma {:induction false} SpineSuffix(root: Node, n: int, t: nat)
    requires Canonical(root, n) && t < |Spine(root, n)|
    ensures Canonical(Spine(root, n)[t], n)
    ensures IsSuffix(Pre(Spine(root, n)[t], n), Pre(root, n))
    decreases t
  {
    SpineShape(root, n, t);
    if t > 0 {
      var c := NextOnSpine(root, n);
      ChildOnSpine(root, n);
      SpineSuffix(c, n, t - 1);
      assert Spine(root, n)[t] == Spine(c, n)[t - 1];
      SuffixTrans(Pre(root, n), Pre(c, n), Pre(Spine(root, n)[t], n));
    }
  }

  lemma SpineNext(root: Node, n: int, t: nat)
    requires Canonical(root, n) && t < |Spine(root, n)|
    ensures Canonical(Spine(root, n)[t], n)
    ensures t + 1 < |Spine(root, n)| ==>
              (HasRightChild(Spine(root, n)[t], n) || HasLeftChild(Spine(root, n)[t])) &&
              Spine(root, n)[t + 1] == NextOnSpine(Spine(root, n)[t], n)
    ensures t + 1 == |Spine(root, n)| ==>
              !HasRightChild(Spine(root, n)[t], n) && !HasLeftChild(Spine(root, n)[t])
  {
    var sp := Spine(root, n);
    SpineTailIsSpine(root, n, t);
    var s := sp[t];
    SpineNextAtRoot(s, n);
    assert |Spine(s, n)| == |sp| - t;
    if t + 1 < |sp| {
      assert sp[t + 1] == sp[t..][1];
    }
  }

  /** The spine from its t-th node on is that node's own spine. */
  lemma {:induction false} SpineTailIsSpine(root: Node, n: int, t: nat)
    requires Canonical(root, n) && t < |Spine(root, n)|
    ensures Canonical(Spine(root, n)[t], n)
    ensures Spine(root, n)[t..] == Spine(Spine(root, n)[t], n)
    decreases t
  {
    if t > 0 {
      var c := NextOnSpine(root, n);
      SpineConsNext(root, n);
      SpineTailIsSpine(c, n, t - 1);
      ConsTail(Spine(root, n), root, Spine(c, n), t);
    }
  }

  /** A spine of more than one node is the root followed by the next
      node's spine. */
  lemma SpineConsNext(root: Node, n: int)
    requires Canonical(root, n) && 1 < |Spine(root, n)|
    ensures HasRightChild(root, n) || HasLeftChild(root)
    ensures Canonical(NextOnSpine(root, n), n)
    ensures Spine(root, n) == [root] + Spine(NextOnSpine(root, n), n)
  {
    SpineShift(root, n, 1);
    ChildOnSpine(root, n);
  }

  /** The tails of [x] + c are those of c, one position later. */
  lemma ConsTail(s: seq<Node>, x: Node, c: seq<Node>, t: int)
    requires s == [x] + c && 0 < t < |s|
    ensures s[t] == c[t - 1] && s[t..] == c[t - 1..]
  {
  }

  /** Below the root, the spine is the next node's spine. */
  lemma SpineShift(root: Node, n: int, t: nat)
    requires Canonical(root, n) && 0 < t < |Spine(root, n)|
    ensures HasRightChild(root, n) || HasLeftChild(root)
    ensures Canonical(NextOnSpine(root, n), n)
    ensures |Spine(root, n)| == |Spine(NextOnSpine(root, n), n)| + 1
    ensures Spine(root, n)[t] == Spine(NextOnSpine(root, n), n)[t - 1]
    ensures t + 1 < |Spine(root, n)| ==> Spine(root, n)[t + 1] == Spine(NextOnSpine(root, n), n)[t]
  {
    ChildOnSpine(root, n);
  }

  lemma SpineNextAtRoot(root: Node, n: int)
    requires Canonical(root, n)
    ensures 1 < |Spine(root, n)| ==>
              (HasRightChild(root, n) || HasLeftChild(root)) && Spine(root, n)[1] == NextOnSpine(root, n)
    ensures 1 == |Spine(root, n)| ==> !HasRightChild(root, n) && !HasLeftChild(root)
  {
    if HasRightChild(root, n) || HasLeftChild(root) {
      ChildOnSpine(root, n);
    }
  }

  /** The preorder rank (counted from 1) of the t-th spine node within the
      root's subtree: the subtree size minus the spine node's own subtree
      size, plus one. */
  ghost function SpineRank(root: Node, n: int, t: nat): int
    requires Canonical(root, n) && t < |Spine(root, n)|
  {
    SpineFacts(root, n, t);
    |Pre(root, n)| - |Pre(Spine(root, n)[t], n)| + 1
  }

  /** Relative ranks along the spine: the root has rank 1, each spine node
      sits at its rank in the preorder, ranks strictly increase, and the
      last spine node is the last node of the preorder. */
  lemma SpineRanks(root: Node, n: int, t: nat)
    requires Canonical(root, n) && t < |Spine(root, n)|
    ensures 1 <= SpineRank(root, n, t) <= |Pre(root, n)|
    ensures Pre(root, n)[SpineRank(root, n, t) - 1] == Spine(root, n)[t]
    ensures t == 0 ==> SpineRank(root, n, t) == 1
    ensures t + 1 < |Spine(root, n)| ==> SpineRank(root, n, t) < SpineRank(root, n, t + 1)
    ensures t + 1 == |Spine(root, n)| ==> SpineRank(root, n, t) == |Pre(root, n)|
  {
    var sp := Spine(root, n);
    SpineFacts(root, n, t);
    var s := sp[t];
    var p, ps := Pre(root, n), Pre(s, n);
    assert p[|p| - |ps|] == ps[0];
    if t + 1 < |sp| {
      SpineFacts(root, n, t + 1);
      ChildOnSpine(s, n);
    } else {
      assert ps == [s] + LeftPre(s, n) + RightPre(s, n);
    }
  }

  /** The spine node at t sits at its rank in the preorder. */
  lemma SpineHit(root: Node, n: int, t: nat)
    requires Canonical(root, n) && t < |Spine(root, n)|
    ensures 1 <= SpineRank(root, n, t) <= |Pre(root, n)|
    ensures Pre(root, n)[SpineRank(root, n, t) - 1] == Spine(root, n)[t]
  {
    SpineRanks(root, n, t);
  }

  lemma {:induction false} SpineRanksIncrease(root: Node, n: int, a: nat, b: nat)
    requires Canonical(root, n) && a < b < |Spine(root, n)|
    ensures SpineRank(root, n, a) < SpineRank(root, n, b)
    decreases b - a
  {
    SpineRanks(root, n, a);
    if a + 1 < b {
      SpineRanksIncrease(root, n, a + 1, b);
    }
  }

  /** On the spine, subtreeSize against the root's ends is the spine node's
      own subtree size. */
  lemma SpineSize(root: Node, n: int, t: nat)
    requires Canonical(root, n) && t < |Spine(root, n)|
    ensures Canonical(Spine(root, n)[t], n) && |Spine(root, n)[t].pos| == |root.pos|
    ensures var s := Spine(root, n)[t];
            RangeSize(s.pos[s.j], EndOf(root, n)[s.j], s.j) == |Pre(s, n)|
  {
    SpineFacts(root, n, t);
    var s := Spine(root, n)[t];
    PreLength(s, n);
    assert EndOf(s, n)[s.j] == EndJ(s, n);
  }

  /** `rank(node, end, treesize)`: treesize minus the subtree size against
      end, plus one. */
  method Rank(node: Node, end: seq<int>, treesize: int) returns (r: int)
    requires 0 <= node.j < |node.pos| == |end|
    ensures node.pos[node.j] >= node.j + 1 ==>
              r == treesize - RangeSize(node.pos[node.j], end[node.j], node.j) + 1
  {
    var size := SubtreeSize(node, end);
    r := treesize - size + 1;
  }

  /** A subtree of one node has no children and a spine of one node. */
  lemma LeafSpine(root: Node, n: int)
    requires Canonical(root, n) && |Pre(root, n)| == 1
    ensures Spine(root, n) == [root]
  {
    assert Pre(root, n) == [root] + LeftPre(root, n) + RightPre(root, n);
  }

  /** `findNprime(index, root, n)`: the spine node whose rank is at most
      index while the next spine node's rank exceeds it, or the last spine
      node; `(root, 1)` when the subtree is a single node. */
  method FindNprime(index: int, root: Node, n: int) returns (node: Node, rank: int, ghost t: nat)
    requires Canonical(root, n) && 1 <= index <= |Pre(root, n)|
    ensures t < |Spine(root, n)| && node == Spine(root, n)[t]
    ensures rank == SpineRank(root, n, t) <= index
    ensures t + 1 < |Spine(root, n)| ==> index < SpineRank(root, n, t + 1)
  {
    var end := FindEnd(root, n);
    var treesize := SubtreeSize(root, end);
    PreLength(root, n);
    assert end[root.j] == EndJ(root, n);
    SpineRanks(root, n, 0);
    if treesize == 1 {
      LeafSpine(root, n);
      return root, 1, 0;
    }
    var spine := MaterializeSpine(root, end, n);
    var prevnode := spine[0];
    var prevrank := Rank(prevnode, end, treesize);
    t := 0;
    var i := 1;
    while i < |spine|
      invariant 1 <= i <= |spine| && t == i - 1
      invariant prevnode == spine[t] && prevrank == SpineRank(root, n, t) <= index
    {
      SpineSize(root, n, i);
      var thisrank := Rank(spine[i], end, treesize);
      if prevrank <= index && index < thisrank {
        break;
      }
      prevnode, prevrank, t := spine[i], thisrank, i;
      i := i + 1;
    }
    node, rank := prevnode, prevrank;
  }

  /** The three parts of a preorder. */
  lemma PreSplit(node: Node, n: int)
    requires Canonical(node, n)
    ensures Pre(node, n) == [node] + LeftPre(node, n) + RightPre(node, n)
    ensures HasLeftChild(node) ==>
              Canonical(Child(node, node.j - 1), n) && LeftPre(node, n) == Pre(Child(node, node.j - 1), n)
    ensures !HasLeftChild(node) ==> LeftPre(node, n) == []
    ensures HasRightChild(node, n) ==>
              Canonical(Child(node, node.j), n) && RightPre(node, n) == Pre(Child(node, node.j), n)
    ensures !HasRightChild(node, n) ==> RightPre(node, n) == []
  {
    if HasLeftChild(node) {
      LeftChildShape(node, n);
    }
    if HasRightChild(node, n) {
      RightChildShape(node, n);
    }
  }

  /** The next spine rank skips the left subtree when the step goes right,
      and is one more when it goes left. */
  lemma SpineRankNext(root: Node, n: int, t: nat)
    requires Canonical(root, n) && t + 1 < |Spine(root, n)|
    ensures Canonical(Spine(root, n)[t], n)
    ensures SpineRank(root, n, t + 1) == SpineRank(root, n, t) + 1 +
              (if HasRightChild(Spine(root, n)[t], n) then |LeftPre(Spine(root, n)[t], n)| else 0)
  {
    SpineFacts(root, n, t);
    SpineFacts(root, n, t + 1);
    var s := Spine(root, n)[t];
    PreSplit(s, n);
  }

  /** When index lies strictly between the rank of spine node t and the
      next spine rank, it falls in the left subtree of spine node t. */
  lemma UnrankStep(root: Node, n: int, t: nat, index: int) returns (l: Node)
    requires Canonical(root, n) && t < |Spine(root, n)| && 1 <= index <= |Pre(root, n)|
    requires SpineRank(root, n, t) < index
    requires t + 1 < |Spine(root, n)| ==> index < SpineRank(root, n, t + 1)
    ensures Canonical(Spine(root, n)[t], n) && HasLeftChild(Spine(root, n)[t])
    ensures l == Child(Spine(root, n)[t], Spine(root, n)[t].j - 1)
    ensures Left(Spine(root, n)[t]) == Some(l)
    ensures Canonical(l, n) && 1 <= index - SpineRank(root, n, t) <= |Pre(l, n)|
    ensures Pre(root, n)[index - 1] == Pre(l, n)[index - SpineRank(root, n, t) - 1]
    ensures 0 <= Potential(l.pos, n) < Potential(root.pos, n)
  {
    var s := Spine(root, n)[t];
    BetweenRanks(root, n, t, index);
    LeftBlock(root, n, s, SpineRank(root, n, t), index);
    l := Child(s, s.j - 1);
    assert Left(s).value == l;
  }

  /** A subtree block of the preorder whose rank r is below index, with
      index within the block's left part: the index-th node is in the left
      child's subtree, at index - r. */
  lemma LeftBlock(root: Node, n: int, s: Node, r: int, index: int)
    requires Canonical(root, n) && Canonical(s, n) && IsSuffix(Pre(s, n), Pre(root, n))
    requires r == |Pre(root, n)| - |Pre(s, n)| + 1 && r < index < r + 1 + |LeftPre(s, n)|
    ensures HasLeftChild(s) && Canonical(Child(s, s.j - 1), n)
    ensures 1 <= index - r <= |Pre(Child(s, s.j - 1), n)|
    ensures Pre(root, n)[index - 1] == Pre(Child(s, s.j - 1), n)[index - r - 1]
    ensures 0 <= Potential(Child(s, s.j - 1).pos, n) == Potential(s.pos, n) - 1
  {
    PreSplit(s, n);
    BlockIndex(Pre(root, n), Pre(s, n), LeftPre(s, n), RightPre(s, n), s, index);
    LeftChildShape(s, n);
    PotentialOfCanonical(Child(s, s.j - 1), n);
  }

  /** An index strictly between two consecutive spine ranks (or after the
      last) lies within the left subtree block of spine node t. */
  lemma BetweenRanks(root: Node, n: int, t: nat, index: int)
    requires Canonical(root, n) && t < |Spine(root, n)| && 1 <= index <= |Pre(root, n)|
    requires SpineRank(root, n, t) < index
    requires t + 1 < |Spine(root, n)| ==> index < SpineRank(root, n, t + 1)
    ensures Canonical(Spine(root, n)[t], n) && IsSuffix(Pre(Spine(root, n)[t], n), Pre(root, n))
    ensures index < SpineRank(root, n, t) + 1 + |LeftPre(Spine(root, n)[t], n)|
    ensures Potential(Spine(root, n)[t].pos, n) <= Potential(root.pos, n)
  {
    SpineRanks(root, n, t);
    SpineRankNext(root, n, t);
    SpineFacts(root, n, t);
  }

  /** Indexing into the left part of a subtree block that ends the
      sequence. */
  lemma BlockIndex(p: seq<Node>, ps: seq<Node>, lp: seq<Node>, rp: seq<Node>, s: Node, index: int)
    requires ps == [s] + lp + rp && IsSuffix(ps, p)
    requires |p| - |ps| + 1 < index < |p| - |ps| + 2 + |lp|
    ensures 1 <= index - (|p| - |ps| + 1) <= |lp|
    ensures p[index - 1] == lp[index - (|p| - |ps| + 1) - 1]
  {
    var off := |p| - |ps|;
    assert p[index - 1] == p[off..][index - 1 - off];
  }

  /** `unrank(index, root, n)`: the index-th node (counted from 1) of the
      root's subtree in preorder.  The located spine node is the answer
      when its rank is index; otherwise the search continues in its left
      subtree with index - rank. */
  method Unrank(index: int, root: Node, n: int) returns (r: Node)
    requires Canonical(root, n) && 1 <= index <= |Pre(root, n)|
    ensures r == Pre(root, n)[index - 1]
    decreases Potential(root.pos, n)
  {
    PotentialOfCanonical(root, n);
    var node, rank, t := FindNprime(index, root, n);
    if rank == index {
      SpineHit(root, n, t);
      return node;
    }
    var l := UnrankStep(root, n, t, index);
    r := Unrank(index - rank, Left(node).value, n);
  }

  // ---------------------------------------------------------------------
  // Blocks of the preorder.

  /** Every node of a subtree's preorder is a tree node of the same length,
      and its own subtree is the stretch of the preorder starting at it. */
  lemma {:induction false} PreBlock(x: Node, n: int, p: int)
    requires Canonical(x, n) && 0 <= p < |Pre(x, n)|
    ensures Canonical(Pre(x, n)[p], n) && |Pre(x, n)[p].pos| == |x.pos|
    ensures p + |Pre(Pre(x, n)[p], n)| <= |Pre(x, n)|
    ensures Pre(x, n)[p .. p + |Pre(Pre(x, n)[p], n)|] == Pre(Pre(x, n)[p], n)
    decreases Potential(x.pos, n), 1
  {
    PotentialOfCanonical(x, n);
    PreSplit(x, n);
    var P := Pre(x, n);
    if p == 0 {
      assert P[0..|P|] == P;
    } else if p <= |LeftPre(x, n)| {
      PreBlockLeft(x, n, p);
    } else {
      PreBlockRight(x, n, p);
    }
  }

  lemma {:induction false} PreBlockLeft(x: Node, n: int, p: int)
    requires Canonical(x, n) && 1 <= p <= |LeftPre(x, n)|
    ensures p < |Pre(x, n)|
    ensures Canonical(Pre(x, n)[p], n) && |Pre(x, n)[p].pos| == |x.pos|
    ensures p + |Pre(Pre(x, n)[p], n)| <= |Pre(x, n)|
    ensures Pre(x, n)[p .. p + |Pre(Pre(x, n)[p], n)|] == Pre(Pre(x, n)[p], n)
    decreases Potential(x.pos, n), 0
  {
    var l := LeftPart(x, n);
    PreBlock(l, n, p - 1);
    ShiftIntoLeft(x, l, n, p);
  }

  /** A block of the left child's preorder is a block of the node's
      preorder, one further on. */
  lemma ShiftIntoLeft(x: Node, l: Node, n: int, p: int)
    requires Canonical(x, n) && Canonical(l, n) && Pre(x, n) == [x] + Pre(l, n) + RightPre(x, n)
    requires LeftPre(x, n) == Pre(l, n) && 1 <= p <= |LeftPre(x, n)|
    requires Canonical(Pre(l, n)[p - 1], n) && |Pre(l, n)[p - 1].pos| == |l.pos| == |x.pos|
    requires p - 1 + |Pre(Pre(l, n)[p - 1], n)| <= |Pre(l, n)|
    requires Pre(l, n)[p - 1 .. p - 1 + |Pre(Pre(l, n)[p - 1], n)|] == Pre(Pre(l, n)[p - 1], n)
    ensures p < |Pre(x, n)|
    ensures Canonical(Pre(x, n)[p], n) && |Pre(x, n)[p].pos| == |x.pos|
    ensures p + |Pre(Pre(x, n)[p], n)| <= |Pre(x, n)|
    ensures Pre(x, n)[p .. p + |Pre(Pre(x, n)[p], n)|] == Pre(Pre(x, n)[p], n)
  {
    InLeft(Pre(x, n), x, Pre(l, n), RightPre(x, n), p, p - 1, Pre(Pre(l, n)[p - 1], n));
  }

  /** A node with a non-empty left part: its left child, whose preorder is
      that part. */
  lemma LeftPart(x: Node, n: int) returns (l: Node)
    requires Canonical(x, n) && LeftPre(x, n) != []
    ensures HasLeftChild(x) && l == Child(x, x.j - 1) && Canonical(l, n) && |l.pos| == |x.pos|
    ensures LeftPre(x, n) == Pre(l, n) && Pre(x, n) == [x] + Pre(l, n) + RightPre(x, n)
    ensures RightPre(x, n) != [] <==> HasRightChild(x, n)
    ensures 0 <= Potential(l.pos, n) < Potential(x.pos, n)
  {
    PreSplit(x, n);
    l := Child(x, x.j - 1);
    LeftChildShape(x, n);
    PotentialOfCanonical(l, n);
  }

  /** A node whose preorder goes past its left part: its right child, whose
      preorder is the rest. */
  lemma RightPart(x: Node, n: int) returns (r: Node)
    requires Canonical(x, n) && 1 + |LeftPre(x, n)| < |Pre(x, n)|
    ensures HasRightChild(x, n) && r == Child(x, x.j) && Canonical(r, n) && |r.pos| == |x.pos|
    ensures Pre(x, n) == [x] + LeftPre(x, n) + Pre(r, n)
    ensures EndOf(r, n) == EndOf(x, n)
    ensures 0 <= Potential(r.pos, n) < Potential(x.pos, n)
  {
    PreSplit(x, n);
    r := Child(x, x.j);
    RightChildCanonical(x, n);
    PotentialOfCanonical(r, n);
  }

  lemma {:induction false} PreBlockRight(x: Node, n: int, p: int)
    requires Canonical(x, n) && 1 + |LeftPre(x, n)| <= p < |Pre(x, n)|
    ensures Canonical(Pre(x, n)[p], n) && |Pre(x, n)[p].pos| == |x.pos|
    ensures p + |Pre(Pre(x, n)[p], n)| <= |Pre(x, n)|
    ensures Pre(x, n)[p .. p + |Pre(Pre(x, n)[p], n)|] == Pre(Pre(x, n)[p], n)
    decreases Potential(x.pos, n), 0
  {
    var r := RightPart(x, n);
    var q := p - 1 - |LeftPre(x, n)|;
    PreBlock(r, n, q);
    ShiftRight(x, r, n, p, q);
  }

  /** A block of the right child's preorder is a block of the node's
      preorder, 1 + |LeftPre| further on. */
  lemma ShiftRight(x: Node, r: Node, n: int, p: int, q: int)
    requires Canonical(x, n) && Canonical(r, n) && Pre(x, n) == [x] + LeftPre(x, n) + Pre(r, n)
    requires 1 + |LeftPre(x, n)| <= p < |Pre(x, n)| && q == p - 1 - |LeftPre(x, n)|
    requires Canonical(Pre(r, n)[q], n) && q + |Pre(Pre(r, n)[q], n)| <= |Pre(r, n)|
    requires Pre(r, n)[q .. q + |Pre(Pre(r, n)[q], n)|] == Pre(Pre(r, n)[q], n)
    ensures Pre(x, n)[p] == Pre(r, n)[q] && Canonical(Pre(x, n)[p], n)
    ensures p + |Pre(Pre(x, n)[p], n)| <= |Pre(x, n)|
    ensures Pre(x, n)[p .. p + |Pre(Pre(x, n)[p], n)|] == Pre(Pre(x, n)[p], n)
  {
    assert Pre(x, n)[p] == Pre(r, n)[q];
    InRight(Pre(x, n), x, LeftPre(x, n), Pre(r, n), p, q, Pre(Pre(x, n)[p], n));
  }

  /** A stretch inside the left part of [x] + lp + rp, starting at
      position p of the whole, is a stretch of the whole. */
  lemma InLeft(P: seq<Node>, x: Node, lp: seq<Node>, rp: seq<Node>, p: int, q: int, blk: seq<Node>)
    requires P == [x] + lp + rp
    requires 1 <= p <= |lp| && q == p - 1
    requires q + |blk| <= |lp| && lp[q .. q + |blk|] == blk
    ensures p + |blk| <= |P| && P[p] == lp[q]
    ensures P[p .. p + |blk|] == blk
  {
    assert P[1 .. 1 + |lp|] == lp;
  }

  /** A stretch inside the right part of [x] + lp + rp, starting at
      position p of the whole, is a stretch of the whole. */
  lemma InRight(P: seq<Node>, x: Node, lp: seq<Node>, rp: seq<Node>, p: int, q: int, blk: seq<Node>)
    requires P == [x] + lp + rp
    requires 1 + |lp| <= p < |P| && q == p - 1 - |lp|
    requires q + |blk| <= |rp| && rp[q .. q + |blk|] == blk
    ensures p + |blk| <= |P| && P[p] == rp[q]
    ensures P[p .. p + |blk|] == blk
  {
    assert P[1 + |lp| ..] == rp;
  }

  /** Pointwise order of end arrays. */
  predicate EndLe(a: seq<int>, b: seq<int>)
  {
    |a| == |b| && forall t :: 0 <= t < |a| ==> a[t] <= b[t]
  }

  /** The left child ends no later than its parent, and strictly earlier in
      slot j-1 when the parent also has a right child. */
  lemma LeftEndLe(x: Node, n: int)
    requires Canonical(x, n) && HasLeftChild(x)
    ensures EndLe(EndOf(Child(x, x.j - 1), n), EndOf(x, n))
    ensures HasRightChild(x, n) ==> EndOf(Child(x, x.j - 1), n)[x.j - 1] < EndOf(x, n)[x.j - 1]
  {
    LeftChildCanonical(x, n);
    CanonicalBelowEnd(x, n);
  }

  /** Order of end arrays is transitive. */
  lemma EndLeTrans(a: seq<int>, b: seq<int>, c: seq<int>)
    requires EndLe(a, b) && EndLe(b, c)
    ensures EndLe(a, c)
  {
  }

  /** The positions after the first of [x] + lp + rp. */
  lemma ConcatAt(P: seq<Node>, x: Node, lp: seq<Node>, rp: seq<Node>, p: int)
    requires P == [x] + lp + rp && 1 <= p < |P|
    ensures p <= |lp| ==> P[p] == lp[p - 1]
    ensures p > |lp| ==> P[p] == rp[p - 1 - |lp|]
  {
  }

  /** Every node of a subtree ends no later than the subtree's root. */
  lemma {:induction false} PreEndLe(x: Node, n: int, p: int)
    requires Canonical(x, n) && 0 <= p < |Pre(x, n)|
    ensures 0 <= Pre(x, n)[p].j < |Pre(x, n)[p].pos|
    ensures EndLe(EndOf(Pre(x, n)[p], n), EndOf(x, n))
    decreases Potential(x.pos, n), 1
  {
    if p == 0 {
      PreSplit(x, n);
    } else if p <= |LeftPre(x, n)| {
      PreEndLeLeft(x, n, p);
    } else {
      PreEndLeRight(x, n, p);
    }
  }

  lemma {:induction false} PreEndLeLeft(x: Node, n: int, p: int)
    requires Canonical(x, n) && 1 <= p <= |LeftPre(x, n)|
    ensures p < |Pre(x, n)| && 0 <= Pre(x, n)[p].j < |Pre(x, n)[p].pos|
    ensures EndLe(EndOf(Pre(x, n)[p], n), EndOf(x, n))
    decreases Potential(x.pos, n), 0
  {
    var l := LeftPart(x, n);
    ConcatAt(Pre(x, n), x, Pre(l, n), RightPre(x, n), p);
    var y := Pre(l, n)[p - 1];
    PreEndLe(l, n, p - 1);
    LeftEndLe(x, n);
    EndLeTrans(EndOf(y, n), EndOf(l, n), EndOf(x, n));
  }

  lemma {:induction false} PreEndLeRight(x: Node, n: int, p: int)
    requires Canonical(x, n) && 1 + |LeftPre(x, n)| <= p < |Pre(x, n)|
    ensures 0 <= Pre(x, n)[p].j < |Pre(x, n)[p].pos|
    ensures EndLe(EndOf(Pre(x, n)[p], n), EndOf(x, n))
    decreases Potential(x.pos, n), 0
  {
    var r := RightPart(x, n);
    ConcatAt(Pre(x, n), x, LeftPre(x, n), Pre(r, n), p);
    PreEndLe(r, n, p - 1 - |LeftPre(x, n)|);
  }

  /** A node's block reaches the end of the preorder exactly when the node
      has the root's ends: the test `Arrays.equals(end, realEnd)` of
      findInterval. */
  lemma {:induction false} PreBlockEnd(x: Node, n: int, p: int)
    requires Canonical(x, n) && 0 <= p < |Pre(x, n)|
    ensures Canonical(Pre(x, n)[p], n)
    ensures EndOf(Pre(x, n)[p], n) == EndOf(x, n) <==> p + |Pre(Pre(x, n)[p], n)| == |Pre(x, n)|
    decreases Potential(x.pos, n), 1
  {
    PotentialOfCanonical(x, n);
    PreSplit(x, n);
    PreBlock(x, n, p);
    if p == 0 {
    } else if p <= |LeftPre(x, n)| {
      PreBlockEndLeft(x, n, p);
    } else {
      PreBlockEndRight(x, n, p);
    }
  }

  lemma {:induction false} PreBlockEndLeft(x: Node, n: int, p: int)
    requires Canonical(x, n) && 1 <= p <= |LeftPre(x, n)|
    ensures p < |Pre(x, n)| && Canonical(Pre(x, n)[p], n)
    ensures EndOf(Pre(x, n)[p], n) == EndOf(x, n) <==> p + |Pre(Pre(x, n)[p], n)| == |Pre(x, n)|
    decreases Potential(x.pos, n), 0
  {
    var l := LeftPart(x, n);
    PreBlock(l, n, p - 1);
    assert Pre(x, n)[p] == Pre(l, n)[p - 1];
    InLeft(Pre(x, n), x, Pre(l, n), RightPre(x, n), p, p - 1, Pre(Pre(x, n)[p], n));
    var y := Pre(x, n)[p];
    if HasRightChild(x, n) {
      PreEndLe(l, n, p - 1);
      LeftEndLe(x, n);
      assert EndOf(y, n)[x.j - 1] < EndOf(x, n)[x.j - 1];
    } else {
      LeftChildEnd(x, n);
      PreBlockEnd(l, n, p - 1);
    }
  }

  lemma {:induction false} PreBlockEndRight(x: Node, n: int, p: int)
    requires Canonical(x, n) && 1 + |LeftPre(x, n)| <= p < |Pre(x, n)|
    ensures Canonical(Pre(x, n)[p], n)
    ensures EndOf(Pre(x, n)[p], n) == EndOf(x, n) <==> p + |Pre(Pre(x, n)[p], n)| == |Pre(x, n)|
    decreases Potential(x.pos, n), 0
  {
    var r := RightPart(x, n);
    var q := p - 1 - |LeftPre(x, n)|;
    PreBlock(r, n, q);
    PreBlockEnd(r, n, q);
    ShiftRight(x, r, n, p, q);
  }

  // ---------------------------------------------------------------------
  // Global ranks.

  /** `rank(root, numItems)`: the rank against the global ends
      `range(n-k+1, n+1)` and the size C(n, k) of the whole tree. */
  method GlobalRank(node: Node, n: int) returns (r: int)
    requires 0 <= node.j < |node.pos|
    ensures |node.pos| <= n && node.pos[node.j] >= node.j + 1 ==>
              r == RankAt(node, n - |node.pos| + 1, Utils.Binom(n, |node.pos|))
  {
    var k := |node.pos|;
    var end := Utils.RangeBetween(n - k + 1, n + 1);
    var treesize := Utils.NChooseK(n, k);
    if k <= n {
      Utils.NChooseKIsBinom(n, k);
    }
    r := Rank(node, end, treesize);
  }

  /** On the spine of the whole tree the global rank is the preorder rank;
      in particular the root has rank 1. */
  lemma {:induction false} RankOnSpine(n: int, k: nat, t: nat)
    requires 1 <= k <= n && Canonical(Root(k), n) && t < |Spine(Root(k), n)|
    ensures Canonical(Spine(Root(k), n)[t], n) && |Spine(Root(k), n)[t].pos| == k
    ensures |Pre(Root(k), n)| == Utils.Binom(n, k)
    ensures 1 <= RankAt(Spine(Root(k), n)[t], n - k + 1, Utils.Binom(n, k)) <= Utils.Binom(n, k)
    ensures Pre(Root(k), n)[RankAt(Spine(Root(k), n)[t], n - k + 1, Utils.Binom(n, k)) - 1] == Spine(Root(k), n)[t]
    ensures t == 0 ==> RankAt(Spine(Root(k), n)[t], n - k + 1, Utils.Binom(n, k)) == 1
  {
    var root := RootFacts(n, k);
    RankAgainstEnds(Root(k), n, t, n - k + 1, Utils.Binom(n, k));
  }

  /** The root of the whole tree: a tree node of k slots whose preorder
      holds C(n, k) nodes and whose ends are `range(n-k+1, n+1)`. */
  lemma RootFacts(n: int, k: nat) returns (root: Node)
    requires 1 <= k <= n
    ensures root == Root(k) && Canonical(root, n) && |root.pos| == k
    ensures |Pre(root, n)| == Utils.Binom(n, k)
    ensures forall q :: 0 <= q < |root.pos| ==> EndOf(root, n)[q] == n - k + 1 + q
  {
    root := Root(k);
    RootSize(n, k);
    RootEnd(n, k);
  }

  /** The rank of a spine node against given ends is its preorder rank
      when those ends are the root's own, slot by slot lo + t. */
  lemma RankAgainstEnds(root: Node, n: int, t: nat, lo: int, total: int)
    requires Canonical(root, n) && t < |Spine(root, n)| && |Pre(root, n)| == total
    requires forall q :: 0 <= q < |root.pos| ==> EndOf(root, n)[q] == lo + q
    ensures Canonical(Spine(root, n)[t], n) && |Spine(root, n)[t].pos| == |root.pos|
    ensures 1 <= RankAt(Spine(root, n)[t], lo, total) <= total
    ensures Pre(root, n)[RankAt(Spine(root, n)[t], lo, total) - 1] == Spine(root, n)[t]
    ensures t == 0 ==> RankAt(Spine(root, n)[t], lo, total) == 1
  {
    var s, size := SpineAt(root, n, t);
    RankOfSize(Pre(root, n), s, size, lo, total, EndOf(root, n)[s.j]);
  }

  /** A node that sits size places before the end of a preorder of total
      nodes has rank total - size + 1, and the closed form gives that rank
      when it computes size against the node's end. */
  lemma RankOfSize(P: seq<Node>, s: Node, size: int, lo: int, total: int, e: int)
    requires 0 <= s.j < |s.pos| && s.pos[s.j] >= 1 && e == lo + s.j
    requires RangeSize(s.pos[s.j], e, s.j) == size
    requires |P| == total && 1 <= size <= total && P[total - size] == s
    ensures 1 <= RankAt(s, lo, total) <= total && P[RankAt(s, lo, total) - 1] == s
    ensures size == total ==> RankAt(s, lo, total) == 1
  {
  }

  /** The rank `rank` computes for a node against ends lo, lo + 1, ... in a
      tree of total nodes. */
  function RankAt(s: Node, lo: int, total: int): int
    requires 0 <= s.j < |s.pos| && s.pos[s.j] >= 1
  {
    total - RangeSize(s.pos[s.j], lo + s.j, s.j) + 1
  }

  /** The t-th spine node, and the size of its subtree as subtreeSize
      computes it against the root's ends: the node sits that many places
      before the end of the root's preorder. */
  lemma {:induction false} SpineAt(root: Node, n: int, t: nat) returns (s: Node, size: int)
    requires Canonical(root, n) && t < |Spine(root, n)|
    ensures s == Spine(root, n)[t] && Canonical(s, n) && |s.pos| == |root.pos|
    ensures RangeSize(s.pos[s.j], EndOf(root, n)[s.j], s.j) == size
    ensures 1 <= size <= |Pre(root, n)| && Pre(root, n)[|Pre(root, n)| - size] == s
    ensures t == 0 ==> size == |Pre(root, n)|
  {
    SpineFacts(root, n, t);
    SpineSize(root, n, t);
    s := Spine(root, n)[t];
    var p, ps := Pre(root, n), Pre(s, n);
    PreSplit(s, n);
    assert p[|p| - |ps|] == ps[0];
    size := |ps|;
  }

  /** Off the spine the closed form is not the preorder rank: among the
      2-subsets of {1..4} the third node in preorder is ({2,3}, 0), while
      the global rank formula gives it 5. */
  lemma RankOffSpine()
    ensures Canonical(Root(2), 4) && |Pre(Root(2), 4)| == 6
    ensures Pre(Root(2), 4)[2] == Node([2, 3], 0)
    ensures Utils.Binom(4, 2) - RangeSize(2, 4 - 2 + 1 + 0, 0) + 1 == 5
  {
    var root := Root(2);
    assert root == Node([1, 2], 1);
    RootSize(4, 2);
    var c1 := Node([1, 3], 1);
    assert Child(root, 1) == c1;
    assert Pre(root, 4) == [root] + Pre(c1, 4);
    var l := Node([2, 3], 0);
    assert Child(c1, 0) == l;
    assert Canonical(l, 4);
    assert Pre(c1, 4) == [c1] + Pre(l, 4) + RightPre(c1, 4);
    assert Pre(root, 4)[2] == Pre(l, 4)[0];
    assert Utils.Binom(1, 0) == 1 && Utils.Binom(2, 0) == 1;
  }

  // ---------------------------------------------------------------------
  // findInterval.

  /** The subtrees of the given nodes, one after the other; a node that is
      not a node of the tree has no subtree. */
  function Blocks(nodes: seq<Node>, n: int): seq<Node>
  {
    if |nodes| <= 1 then (if nodes == [] then [] else Subtree(nodes[0], n))
    else Blocks(nodes[..|nodes| - 1], n) + Subtree(nodes[|nodes| - 1], n)
  }

  function Subtree(node: Node, n: int): seq<Node>
  {
    if Canonical(node, n) then Pre(node, n) else []
  }

  /** The node at preorder position q heads the block of its own subtree. */
  lemma BlockAt(x: Node, n: int, q: int, y: Node)
    requires Canonical(x, n) && 0 <= q < |Pre(x, n)| && y == Pre(x, n)[q]
    ensures Canonical(y, n) && |y.pos| == |x.pos|
    ensures q + |Pre(y, n)| <= |Pre(x, n)| && Pre(x, n)[q .. q + |Pre(y, n)|] == Pre(y, n)
    ensures EndOf(y, n) == EndOf(x, n) <==> q + |Pre(y, n)| == |Pre(x, n)|
  {
    PreBlock(x, n, q);
    PreBlockEnd(x, n, q);
  }

  /** Appending a node appends its subtree to the blocks. */
  lemma BlocksSnoc(nodes: seq<Node>, y: Node, n: int)
    requires Canonical(y, n)
    ensures Blocks(nodes + [y], n) == Blocks(nodes, n) + Pre(y, n)
  {
    var ext := nodes + [y];
    if nodes != [] {
      assert ext[..|ext| - 1] == nodes;
    }
  }


  /** subtreeSize against the node's own ends is its number of nodes. */
  lemma OwnSize(node: Node, n: int)
    requires Canonical(node, n)
    ensures node.pos[node.j] >= node.j + 1
    ensures RangeSize(node.pos[node.j], EndOf(node, n)[node.j], node.j) == |Pre(node, n)|
  {
    PreLength(node, n);
    assert EndOf(node, n)[node.j] == EndJ(node, n);
  }

  /** Shifting a tree node gives a node of the 0-based search. */
  lemma ShiftedIsSearchNode(node: Node, n: int, k: int)
    requires Canonical(node, n) && |node.pos| == k
    ensures ES.SearchNode(Shifted(node), n, k)
  {
    CanonicalBounds(node, n);
  }

  /** Each generator is the shifted form of a tree node of length k, and
      so a node of the 0-based search. */
  predicate Generated(generators: seq<Node>, nodes: seq<Node>, n: int, k: int)
  {
    |generators| == |nodes| &&
    forall i :: 0 <= i < |nodes| ==>
      Canonical(nodes[i], n) && |nodes[i].pos| == k &&
      generators[i] == Shifted(nodes[i]) && ES.SearchNode(generators[i], n, k)
  }

  /** The preorder of the whole tree of k-subsets of {1..n}, rank r at
      position r - 1; there is no tree unless 1 <= k <= n. */
  function Tree(n: int, k: nat): (t: seq<Node>)
    ensures 1 <= k <= n ==> |t| == Utils.Binom(n, k)
  {
    if 1 <= k <= n then (RootSize(n, k); Pre(Root(k), n)) else []
  }

  /** The subtrees of the nodes are, in order, the stretch of the whole
      tree's preorder that starts at rank index. */
  predicate Covering(nodes: seq<Node>, n: int, k: nat, index: int)
  {
    1 <= k <= n && 1 <= index && Tiles(Tree(n, k), Blocks(nodes, n), index - 1)
  }

  /** b occupies P from position a on. */
  predicate Tiles(P: seq<Node>, b: seq<Node>, a: int)
  {
    0 <= a && a + |b| <= |P| && forall i, j :: 0 <= i < |b| && j == a + i ==> b[i] == P[j]
  }

  /** One step of findInterval: unrank the rank right after the covered
      stretch and add the shifted node as a generator. */
  method NextGenerator(index: int, ss: int, n: int, k: nat, root: Node,
                       generators: seq<Node>, ghost nodes: seq<Node>)
    returns (node: Node, generators': seq<Node>, ghost nodes': seq<Node>)
    requires root == Root(k) && Covering(nodes, n, k, index) && Generated(generators, nodes, n, k)
    requires ss == |Blocks(nodes, n)| && index - 1 + ss < |Tree(n, k)|
    ensures nodes' == nodes + [node] && Generated(generators', nodes', n, k)
    ensures Canonical(node, n) && |node.pos| == k
    ensures Covering(nodes', n, k, index)
    ensures |Blocks(nodes', n)| == ss + |Pre(node, n)|
    ensures EndOf(node, n) == EndOf(root, n) <==> index - 1 + |Blocks(nodes', n)| == |Tree(n, k)|
  {
    RootSize(n, k);
    node := Unrank(index + ss, root, n);
    var g := ShiftLeft(node);
    generators', nodes' := generators + [g], nodes + [node];
    assert node == Tree(n, k)[index - 1 + |Blocks(nodes, n)|];
    CoveringStep(index, n, k, generators, nodes, node);
  }

  /** The covered stretch and the generators grow by the node right after
      the stretch. */
  lemma CoveringStep(index: int, n: int, k: nat, generators: seq<Node>, nodes: seq<Node>, node: Node)
    requires Covering(nodes, n, k, index) && Generated(generators, nodes, n, k)
    requires index - 1 + |Blocks(nodes, n)| < |Tree(n, k)|
    requires node == Tree(n, k)[index - 1 + |Blocks(nodes, n)|]
    ensures Generated(generators + [Shifted(node)], nodes + [node], n, k)
    ensures Canonical(node, n) && |node.pos| == k
    ensures Covering(nodes + [node], n, k, index)
    ensures |Blocks(nodes + [node], n)| == |Blocks(nodes, n)| + |Pre(node, n)|
    ensures EndOf(node, n) == EndOf(Root(k), n) <==> index - 1 + |Blocks(nodes + [node], n)| == |Tree(n, k)|
  {
    CoveringGrows(index, n, k, nodes, node);
    ShiftedIsSearchNode(node, n, k);
    GeneratedSnoc(generators, nodes, node, n, k);
  }

  /** The covered stretch grows by the subtree of the node right after it. */
  lemma CoveringGrows(index: int, n: int, k: nat, nodes: seq<Node>, node: Node)
    requires Covering(nodes, n, k, index)
    requires index - 1 + |Blocks(nodes, n)| < |Tree(n, k)|
    requires node == Tree(n, k)[index - 1 + |Blocks(nodes, n)|]
    ensures Canonical(node, n) && |node.pos| == k
    ensures Covering(nodes + [node], n, k, index)
    ensures |Blocks(nodes + [node], n)| == |Blocks(nodes, n)| + |Pre(node, n)|
    ensures EndOf(node, n) == EndOf(Root(k), n) <==> index - 1 + |Blocks(nodes + [node], n)| == |Tree(n, k)|
  {
    RootSize(n, k);
    CoveringSnoc(Root(k), n, nodes, index - 1, node);
    BlockAt(Root(k), n, index - 1 + |Blocks(nodes, n)|, node);
  }

  /** A stretch followed by the stretch right after it is one stretch. */
  lemma TilesSnoc(P: seq<Node>, b: seq<Node>, c: seq<Node>, bc: seq<Node>, a: int)
    requires Tiles(P, b, a) && Tiles(P, c, a + |b|) && bc == b + c
    ensures Tiles(P, bc, a)
  {
    forall i, j | 0 <= i < |bc| && j == a + i
      ensures bc[i] == P[j]
    {
      if i < |b| {
        assert bc[i] == b[i];
      } else {
        assert bc[i] == c[i - |b|];
      }
    }
  }

  /** A slice of P occupies P from where it was cut. */
  lemma SliceTiles(P: seq<Node>, q: int, c: seq<Node>)
    requires 0 <= q && q + |c| <= |P| && P[q .. q + |c|] == c
    ensures Tiles(P, c, q)
  {
    forall i, j | 0 <= i < |c| && j == q + i
      ensures c[i] == P[j]
    {
      assert c[i] == P[q .. q + |c|][i];
    }
  }

  /** The subtree of the node right after a tiled stretch of the preorder
      extends the stretch. */
  lemma CoveringSnoc(x: Node, n: int, nodes: seq<Node>, a: int, y: Node)
    requires Canonical(x, n) && Tiles(Pre(x, n), Blocks(nodes, n), a)
    requires a + |Blocks(nodes, n)| < |Pre(x, n)| && y == Pre(x, n)[a + |Blocks(nodes, n)|]
    ensures Canonical(y, n) && |y.pos| == |x.pos|
    ensures Tiles(Pre(x, n), Blocks(nodes + [y], n), a)
    ensures |Blocks(nodes + [y], n)| == |Blocks(nodes, n)| + |Pre(y, n)|
  {
    BlockAt(x, n, a + |Blocks(nodes, n)|, y);
    SliceTiles(Pre(x, n), a + |Blocks(nodes, n)|, Pre(y, n));
    BlocksSnoc(nodes, y, n);
    TilesSnoc(Pre(x, n), Blocks(nodes, n), Pre(y, n), Blocks(nodes + [y], n), a);
  }

  lemma GeneratedSnoc(generators: seq<Node>, nodes: seq<Node>, node: Node, n: int, k: int)
    requires Generated(generators, nodes, n, k)
    requires Canonical(node, n) && |node.pos| == k && ES.SearchNode(Shifted(node), n, k)
    ensures Generated(generators + [Shifted(node)], nodes + [node], n, k)
  {
  }

  /** `findEnd(node, n)` followed by `subtreeSize(node, end)`: the node's
      ends and its number of nodes. */
  method EndAndSize(node: Node, n: int) returns (end: seq<int>, size: int)
    requires Canonical(node, n)
    ensures end == EndOf(node, n) && size == |Pre(node, n)|
  {
    end := FindEnd(node, n);
    OwnSize(node, n);
    size := SubtreeSize(node, end);
  }

  /** The root `(range(1, k+1), k-1)` and the global ends
      `range(n-k+1, n+1)` that findInterval builds. */
  method RootAndEnd(n: int, k: nat) returns (root: Node, realEnd: seq<int>)
    requires 1 <= k <= n
    ensures root == Root(k) && Canonical(root, n) && |Pre(root, n)| == Utils.Binom(n, k)
    ensures realEnd == EndOf(root, n)
  {
    RootSize(n, k);
    RootEnd(n, k);
    var items := Utils.RangeBetween(1, k + 1);
    assert items == Root(k).pos;
    root := Node(items, k - 1);
    realEnd := Utils.RangeBetween(n - k + 1, n + 1);
  }

  /** Dropping the node just appended gives back a stretch shorter than delta. */
  lemma DropLast(prev: seq<Node>, node: Node, nodes: seq<Node>, n: int, ss: int, delta: int)
    requires nodes == prev + [node] && Canonical(node, n)
    requires |Blocks(nodes, n)| == ss + |Pre(node, n)| && ss < delta
    ensures |Blocks(nodes, n)| - |Subtree(nodes[|nodes| - 1], n)| < delta
  {
    assert nodes[|nodes| - 1] == node;
  }

  /** `findInterval(index, delta, n, k)`: generators whose subtrees cover,
      in order, the stretch of the preorder that starts at rank index; the
      stretch is at least delta long unless it reaches the end of the tree,
      and without its last generator it would be shorter than delta. */
  method FindInterval(index: int, delta: int, n: int, k: nat) returns (generators: seq<Node>, ghost nodes: seq<Node>)
    requires 1 <= k <= n && 1 <= index <= Utils.Binom(n, k) && index + delta - 1 <= Utils.Binom(n, k)
    ensures |nodes| >= 1 && Generated(generators, nodes, n, k)
    ensures Covering(nodes, n, k, index)
    ensures |nodes| > 1 ==> |Blocks(nodes, n)| - |Subtree(nodes[|nodes| - 1], n)| < delta
    ensures |Blocks(nodes, n)| >= delta || index - 1 + |Blocks(nodes, n)| == Utils.Binom(n, k)
  {
    var root, realEnd := RootAndEnd(n, k);
    var node;
    ghost var first;
    assert Covering([], n, k, index);
    node, generators, first := NextGenerator(index, 0, n, k, root, [], []);
    var end, ss := EndAndSize(node, n);
    if ss < delta {
      generators, nodes := GrowInterval(index, delta, n, k, root, realEnd, generators, first, ss);
    } else {
      nodes := first;
    }
  }

  /** The while loop of findInterval: one generator after another for the
      rank right after the covered stretch, until the stretch is delta long
      or the last subtree added ends where the whole tree ends.  It is
      entered with a stretch shorter than delta, so the guard `ss < delta`
      is tested after each addition. */
  method GrowInterval(index: int, delta: int, n: int, k: nat, root: Node, realEnd: seq<int>,
                      generators0: seq<Node>, ghost nodes0: seq<Node>, ss0: int)
    returns (generators: seq<Node>, ghost nodes: seq<Node>)
    requires 1 <= k <= n && root == Root(k) && realEnd == EndOf(root, n) && index + delta - 1 <= Utils.Binom(n, k)
    requires |nodes0| >= 1 && Generated(generators0, nodes0, n, k)
    requires Covering(nodes0, n, k, index) && ss0 == |Blocks(nodes0, n)|
    requires ss0 < delta
    ensures |nodes| >= 1 && Generated(generators, nodes, n, k)
    ensures Covering(nodes, n, k, index)
    ensures |Blocks(nodes, n)| - |Subtree(nodes[|nodes| - 1], n)| < delta
    ensures |Blocks(nodes, n)| >= delta || index - 1 + |Blocks(nodes, n)| == Utils.Binom(n, k)
  {
    generators, nodes := generators0, nodes0;
    var ss := ss0;
    while true
      invariant |nodes| >= 1 && Generated(generators, nodes, n, k)
      invariant Covering(nodes, n, k, index) && ss == |Blocks(nodes, n)| && ss < delta
      decreases delta - ss
    {
      ghost var prev := nodes;
      var node;
      node, generators, nodes := NextGenerator(index, ss, n, k, root, generators, nodes);
      DropLast(prev, node, nodes, n, ss, delta);
      var end, size := EndAndSize(node, n);
      if end == realEnd {
        return;
      }
      ss := ss + size;
      if ss >= delta {
        return;
      }
    }
  }

  // ---------------------------------------------------------------------
  // computeInterval.

  /** The block length, C(n,k) / numSegments rounded down: the rounded-up
      value `delta.add(ONE)` is computed and thrown away. */
  function Delta(total: nat, numSegments: int): (d: nat)
    requires numSegments >= 1
    ensures d * numSegments <= total < (d + 1) * numSegments
  {
    total / numSegments
  }

  lemma MulMonotone(d: nat, a: int, b: int)
    requires a <= b
    ensures d * a <= d * b
  {
    assert d * b == d * a + d * (b - a);
  }

  /** Interval i starts at rank delta(i-1)+1 and its delta ranks lie in the
      tree; so do those of the next interval when there is one. */
  lemma IntervalRanges(total: nat, numSegments: int, interval: int)
    requires 1 <= total && 1 <= interval <= numSegments
    ensures var d := Delta(total, numSegments);
            1 <= d * (interval - 1) + 1 <= total && d * (interval - 1) + 1 + d - 1 <= total &&
            (interval < numSegments ==> d * interval + 1 <= total && d * interval + 1 + d - 1 <= total)
  {
    var d := Delta(total, numSegments);
    assert d * (interval - 1) + d == d * interval;
    MulMonotone(d, interval, numSegments);
    if interval < numSegments {
      assert d * interval + d == d * (interval + 1);
      MulMonotone(d, interval + 1, numSegments);
    }
  }

  /** `computeInterval(k, eval, submBest, numSegments, interval)`: the
      search of one block.  It starts from the generators of the ranks
      delta(i-1)+1 on and stops at those of the next block (none for the
      last block). */
  method ComputeInterval(k: int, o: E.Oracle, submBest: MD.MutableDouble, numSegments: int, interval: int)
    returns (skyline: seq<SP.Point>, ghost begin: seq<Node>)
    requires 1 <= k <= o.numItems && 1 <= interval <= numSegments
    requires submBest.Valid() && |o.origItem| >= o.numItems
    modifies submBest
    ensures submBest.Valid()
    ensures Covering(begin, o.numItems, k, Delta(Utils.Binom(o.numItems, k), numSegments) * (interval - 1) + 1)
    ensures forall p :: p in skyline ==> ES.IsSearchPoint(o, k, p)
    ensures forall p :: p in skyline ==> ES.Covers(submBest, p)
    ensures !submBest.synchronized ==> ES.StrictlyIncreasing(skyline)
    ensures submBest.synchronized ==> ES.NoLaterDominated(skyline, submBest.maxSum)
  {
    var numItems := o.numItems;
    Utils.NChooseKIsBinom(numItems, k);
    RootSize(numItems, k);
    var totalSubsets := Utils.NChooseK(numItems, k);
    var delta := Utils.TruncDiv(totalSubsets, numSegments);
    assert delta == Delta(totalSubsets, numSegments);
    IntervalRanges(totalSubsets, numSegments, interval);
    var beginGenerators;
    beginGenerators, begin := FindInterval(delta * (interval - 1) + 1, delta, numItems, k);
    var endGenerators: set<Node> := {};
    if interval < numSegments {
      var tmp, _ := FindInterval(delta * interval + 1, delta, numItems, k);
      endGenerators := NodeSet(tmp);
    }
    assert forall g :: g in beginGenerators ==> ES.SearchNode(g, numItems, k);
    skyline := ES.ComputeSkylineInterval(k, o, submBest, beginGenerators, endGenerators);
  }

  /** The HashSet filled from a generator list. */
  method NodeSet(nodes: seq<Node>) returns (r: set<Node>)
    ensures forall g :: g in r <==> g in nodes
  {
    r := {};
    var i := 0;
    while i < |nodes|
      invariant 0 <= i <= |nodes|
      invariant forall g :: g in r <==> g in nodes[..i]
    {
      assert nodes[..i + 1] == nodes[..i] + [nodes[i]];
      r := r + {nodes[i]};
      i := i + 1;
    }
    assert nodes[..i] == nodes;
  }

  // ---------------------------------------------------------------------
  // joinSkylines and computeSkyline.

  /** The interval skylines one after the other. */
  function Flatten(ss: seq<seq<SP.Point>>): seq<SP.Point>
  {
    if ss == [] then [] else Flatten(ss[..|ss| - 1]) + ss[|ss| - 1]
  }

  lemma {:induction false} FlattenMembers(ss: seq<seq<SP.Point>>, x: SP.Point)
    ensures x in Flatten(ss) <==> exists i :: 0 <= i < |ss| && x in ss[i]
    decreases |ss|
  {
    if ss != [] {
      var init := ss[..|ss| - 1];
      FlattenMembers(init, x);
      if x in Flatten(init) {
        var i :| 0 <= i < |init| && x in init[i];
        assert ss[i] == init[i];
      }
      if exists i :: 0 <= i < |ss| && x in ss[i] {
        var i :| 0 <= i < |ss| && x in ss[i];
        if i < |init| {
          assert init[i] == ss[i];
        }
      }
    }
  }

  /** `joinSkylines(runnables, maxSum)`: all interval points, stably sorted
      by sum, then the first point and every point whose value is at least
      the running maximum.  With no point at all `combined.poll()` is null
      and Java fails: None. */
  method JoinSkylines(skylines: seq<seq<SP.Point>>, maxSum: bool) returns (r: Option<seq<SP.Point>>)
    ensures r.None? <==> Flatten(skylines) == []
    ensures r.Some? ==> r.value == PU.Records(Utils.SortBy(Flatten(skylines), PU.SumKey(maxSum)), false)
  {
    var combined := Combine(skylines);
    var sorted := Utils.SortBy(combined, PU.SumKey(maxSum));
    if |sorted| == 0 {
      return None;
    }
    var finalSkyline := ScanRecords(sorted);
    r := Some(finalSkyline);
  }

  /** The `addAll` loop of joinSkylines. */
  method Combine(skylines: seq<seq<SP.Point>>) returns (combined: seq<SP.Point>)
    ensures combined == Flatten(skylines)
  {
    combined := [];
    var i := 0;
    while i < |skylines|
      invariant 0 <= i <= |skylines|
      invariant combined == Flatten(skylines[..i])
    {
      assert skylines[..i + 1][..i] == skylines[..i];
      combined := combined + skylines[i];
      i := i + 1;
    }
    assert skylines[..i] == skylines;
  }

  /** The scan of joinSkylines: the first point, then every point whose
      value is at least the running maximum `submMax`. */
  method ScanRecords(sorted: seq<SP.Point>) returns (finalSkyline: seq<SP.Point>)
    requires |sorted| >= 1
    ensures finalSkyline == PU.Records(sorted, false)
  {
    var first := sorted[0];
    finalSkyline := [first];
    var submMax := first.submValue;
    var m := 1;
    while m < |sorted|
      invariant 1 <= m <= |sorted|
      invariant finalSkyline + PU.KeepFrom(sorted[m..], submMax, false) == PU.Records(sorted, false)
    {
      var p := sorted[m];
      assert sorted[m..] == [p] + sorted[m + 1..];
      if p.submValue >= submMax {
        submMax := p.submValue;
        finalSkyline := finalSkyline + [p];
      }
      m := m + 1;
    }
  }

  /** The merged skyline: points of the intervals, in sum order, starting
      with the first sorted point, with values that never fall, and exactly
      the points whose value is at least that of every point before them. */
  lemma MergeProperties(skylines: seq<seq<SP.Point>>, maxSum: bool)
    ensures var s := Utils.SortBy(Flatten(skylines), PU.SumKey(maxSum));
            var r := PU.Records(s, false);
            r == PU.RecordFilter(s, false) &&
            (forall x :: x in r ==> x in Flatten(skylines)) &&
            Utils.SortedBy(r, PU.SumKey(maxSum)) &&
            (s != [] ==> r[0] == s[0]) &&
            (forall i :: 0 < i < |r| ==> r[i - 1].submValue <= r[i].submValue)
  {
    var s := Utils.SortBy(Flatten(skylines), PU.SumKey(maxSum));
    PU.RecordsIsFilter(s, false);
    PU.RecordFilterMembers(s, false);
    PU.RecordFilterSorted(s, false, PU.SumKey(maxSum));
    PU.RecordsRise(s, false);
    forall x | x in s ensures x in Flatten(skylines) {
      assert x in multiset(s);
    }
  }

  /** Seeds the store with the points of an initial skyline, one
      `setValue` per point in order. */
  method Seed(submBest: MD.MutableDouble, initialSkyline: seq<SP.Point>)
    requires submBest.Valid()
    modifies submBest
    ensures submBest.Valid()
    ensures submBest.synchronized ==> forall p :: p in initialSkyline ==> ES.Covers(submBest, p)
  {
    var t := 0;
    while t < |initialSkyline|
      invariant 0 <= t <= |initialSkyline| && submBest.Valid()
      invariant submBest.synchronized ==> forall p :: p in initialSkyline[..t] ==> ES.Covers(submBest, p)
    {
      var q := initialSkyline[t];
      ghost var v0, es0 := submBest.value, submBest.skyline;
      submBest.SetValue(q.sumValue, q.submValue);
      if submBest.synchronized {
        ES.EmitCovers(true, submBest.maxSum, v0, es0, submBest.value, submBest.skyline, initialSkyline[..t], q);
      }
      assert initialSkyline[..t + 1] == initialSkyline[..t] + [q];
      t := t + 1;
    }
    assert initialSkyline[..t] == initialSkyline;
  }

  /** Runs the intervals 1..count on the shared store, in order, and
      collects their skylines. */
  method RunIntervals(k: int, o: E.Oracle, submBest: MD.MutableDouble, count: int)
    returns (skylines: seq<seq<SP.Point>>)
    requires 1 <= k <= o.numItems && |o.origItem| >= o.numItems && submBest.Valid()
    modifies submBest
    ensures submBest.Valid()
    ensures |skylines| == if count < 1 then 0 else count
    ensures forall i, p :: 0 <= i < |skylines| && p in skylines[i] ==> ES.IsSearchPoint(o, k, p)
  {
    skylines := [];
    var interval := 1;
    while interval <= count
      invariant submBest.Valid() && 1 <= interval
      invariant |skylines| == interval - 1 && (if count >= 1 then interval <= count + 1 else interval == 1)
      invariant forall i, p :: 0 <= i < |skylines| && p in skylines[i] ==> ES.IsSearchPoint(o, k, p)
    {
      var sky, _ := ComputeInterval(k, o, submBest, count, interval);
      forall i, p | 0 <= i < |skylines| + 1 && p in (skylines + [sky])[i]
        ensures ES.IsSearchPoint(o, k, p)
      {
        if i == |skylines| {
          assert (skylines + [sky])[i] == sky;
        } else {
          assert (skylines + [sky])[i] == skylines[i];
        }
      }
      skylines := skylines + [sky];
      interval := interval + 1;
    }
  }

  /** `computeSkyline(k, eval)` of the parallel search.  The intervals run
      one after another on one synchronized store; initialSkyline stands for
      the FastSkyline points that seed the store when fastInit is set. */
  method ComputeSkyline(k: int, o: E.Oracle, intervalCount: int, initWithFast: bool,
                        initialSkyline: seq<SP.Point>)
    returns (r: Option<seq<SP.Point>>)
    requires 1 <= k <= o.numItems && |o.origItem| >= o.numItems
    ensures intervalCount < 1 ==> r.None?
    ensures r.Some? ==> forall p :: p in r.value ==> ES.IsSearchPoint(o, k, p)
    ensures r.Some? ==> Utils.SortedBy(r.value, PU.SumKey(o.maxSum))
    ensures r.Some? ==> forall i :: 0 < i < |r.value| ==> r.value[i - 1].submValue <= r.value[i].submValue
  {
    var submBest := new MD.MutableDouble(true, o.maxSum);
    if initWithFast {
      Seed(submBest, initialSkyline);
    }
    var skylines := RunIntervals(k, o, submBest, intervalCount);
    r := JoinSkylines(skylines, o.maxSum);
    MergeProperties(skylines, o.maxSum);
    forall p | p in Flatten(skylines) ensures ES.IsSearchPoint(o, k, p) {
      FlattenMembers(skylines, p);
    }
  }
}
