/** SearchTreeNode: a node of the combination tree.  `pos` holds the k
    chosen positions and `j` is the cursor.  The left child advances slot
    j-1 and moves the cursor down; the right child advances slot j.  A node
    never changes once built (children are built from copies), so nodes are
    values here. */
module SearchTreeNode {
  import opened Wrappers

  datatype Node = Node(pos: seq<int>, j: int)

  /** Positions strictly increasing: the node names a k-subset. */
  predicate Increasing(pos: seq<int>)
  {
    forall a, b :: 0 <= a < b < |pos| ==> pos[a] < pos[b]
  }

  /** Every position lies in [lo, hi). */
  predicate Within(pos: seq<int>, lo: int, hi: int)
  {
    forall i :: 0 <= i < |pos| ==> lo <= pos[i] < hi
  }

  function Shifted(node: Node): (r: Node)
  {
    Node(seq(|node.pos|, i requires 0 <= i < |node.pos| => node.pos[i] - 1), node.j)
  }

  /** `shiftLeft()`: a new node with every position one lower and the same
      cursor; the node itself is left as it is. */
  method ShiftLeft(node: Node) returns (r: Node)
    ensures r.j == node.j && |r.pos| == |node.pos|
    ensures forall i :: 0 <= i < |node.pos| ==> r.pos[i] == node.pos[i] - 1
    ensures r == Shifted(node)
  {
    var newpos := new int[|node.pos|];
    forall i | 0 <= i < newpos.Length {
      newpos[i] := node.pos[i];
    }
    var i := 0;
    while i < newpos.Length
      invariant 0 <= i <= newpos.Length
      invariant forall t :: 0 <= t < i ==> newpos[t] == node.pos[t] - 1
      invariant forall t :: i <= t < newpos.Length ==> newpos[t] == node.pos[t]
    {
      newpos[i] := newpos[i] - 1;
      i := i + 1;
    }
    r := Node(newpos[..], node.j);
  }

  /** Shifting turns a 1-based subset of {1..n} into a 0-based subset of
      {0..n-1} and back. */
  lemma ShiftedSubset(node: Node, n: int)
    ensures Increasing(Shifted(node).pos) <==> Increasing(node.pos)
    ensures Within(Shifted(node).pos, 0, n) <==> Within(node.pos, 1, n + 1)
  {
    var s := Shifted(node).pos;
    assert forall i :: 0 <= i < |s| ==> s[i] == node.pos[i] - 1;
  }

  /** `child(c)`: a copy with slot c advanced by one and the cursor at c. */
  function Child(node: Node, c: int): (r: Node)
    requires 0 <= c < |node.pos|
    ensures r.j == c && |r.pos| == |node.pos|
    ensures r.pos[c] == node.pos[c] + 1
    ensures forall i :: 0 <= i < |node.pos| && i != c ==> r.pos[i] == node.pos[i]
  {
    Node(node.pos[c := node.pos[c] + 1], c)
  }

  /** `left()`: null when the cursor is at 0; otherwise only slot j-1 moves
      (up by one) and the cursor becomes j-1. */
  function Left(node: Node): (r: Option<Node>)
    requires 0 <= node.j <= |node.pos|
    ensures r.None? <==> node.j == 0
    ensures r.Some? ==> r.value.j == node.j - 1 && |r.value.pos| == |node.pos|
    ensures r.Some? ==> r.value.pos[node.j - 1] == node.pos[node.j - 1] + 1
    ensures r.Some? ==> forall i :: 0 <= i < |node.pos| && i != node.j - 1 ==> r.value.pos[i] == node.pos[i]
  {
    if node.j - 1 == -1 then None
    else Some(Node(node.pos[node.j - 1 := node.pos[node.j - 1] + 1], node.j - 1))
  }

  /** The exclusive bound on slot j for a right child. */
  function RightBound(node: Node, numItems: int): int
    requires 0 <= node.j < |node.pos|
  {
    if node.j == |node.pos| - 1 then numItems else node.pos[node.j + 1]
  }

  predicate HasRight(node: Node, numItems: int)
    requires 0 <= node.j < |node.pos|
  {
    node.pos[node.j] + 1 < RightBound(node, numItems)
  }

  /** `children(eval)`: the left child first, when the cursor is above 0
      (with no gap check), then the right child, when slot j can advance. */
  function Children(node: Node, numItems: int): (r: seq<Node>)
    requires 0 <= node.j < |node.pos|
    ensures |r| == (if node.j > 0 then 1 else 0) + (if HasRight(node, numItems) then 1 else 0)
    ensures node.j > 0 ==> r[0] == Child(node, node.j - 1)
    ensures HasRight(node, numItems) ==> r[|r| - 1] == Child(node, node.j)
    ensures forall c :: c in r ==> |c.pos| == |node.pos| && 0 <= c.j < |node.pos|
  {
    (if node.j > 0 then [Child(node, node.j - 1)] else [])
    + (if HasRight(node, numItems) then [Child(node, node.j)] else [])
  }

  /** The left child is the node Left would build. */
  lemma LeftIsFirstChild(node: Node, numItems: int)
    requires 0 < node.j < |node.pos|
    ensures Left(node) == Some(Children(node, numItems)[0])
  {
  }

  /** A right child of a k-subset of {0..n-1} is again one. */
  lemma RightChildSubset(node: Node, n: int)
    requires 0 <= node.j < |node.pos|
    requires Increasing(node.pos) && Within(node.pos, 0, n)
    requires HasRight(node, n)
    ensures Increasing(Child(node, node.j).pos) && Within(Child(node, node.j).pos, 0, n)
  {
    var c := Child(node, node.j).pos;
    forall a, b | 0 <= a < b < |c| ensures c[a] < c[b] {
      if b == node.j + 1 {
        assert c[b] == node.pos[node.j + 1];
      }
    }
  }

  /** The left child of a k-subset is a k-subset exactly when there is a gap
      above slot j-1. */
  lemma LeftChildSubsetIff(node: Node)
    requires 0 < node.j < |node.pos|
    requires Increasing(node.pos)
    ensures Increasing(Child(node, node.j - 1).pos) <==> node.pos[node.j - 1] + 1 < node.pos[node.j]
  {
    var c := Child(node, node.j - 1).pos;
    if node.pos[node.j - 1] + 1 < node.pos[node.j] {
      forall a, b | 0 <= a < b < |c| ensures c[a] < c[b] {
        if a == node.j - 1 {
          assert c[b] == node.pos[b] && node.pos[node.j] <= node.pos[b];
        }
      }
    } else {
      assert c[node.j - 1] >= c[node.j];
    }
  }

  /** A left child can repeat an item: [0, 1] with cursor 1 has the left
      child [1, 1] with cursor 0. */
  lemma DegenerateLeftChild()
    ensures Children(Node([0, 1], 1), 2) == [Node([1, 1], 0)]
    ensures !Increasing([1, 1])
  {
    assert Node([0, 1], 1).pos[0 := 1] == [1, 1];
  }

  /** `equals`: the same cursor and the same positions. */
  function Equals(a: Node, b: Node): (r: bool)
    ensures r <==> a == b
  {
    a.j == b.j && a.pos == b.pos
  }

  /** Java `int` arithmetic: two's complement, 32 bits. */
  function ToInt32Bits(x: int): bv32
  {
    (x % 0x1_0000_0000) as bv32
  }

  /** `Arrays.hashCode(int[])`: 31 * h + e over the elements, from h = 1. */
  function ArraysHashCode(s: seq<int>): bv32
  {
    if s == [] then 1
    else ArraysHashCode(s[..|s| - 1]) * 31 + ToInt32Bits(s[|s| - 1])
  }

  /** `hashCode()`: built from pos and j only. */
  function HashCode(node: Node): bv32
  {
    ((ArraysHashCode(node.pos) * 1000003) ^ ToInt32Bits(node.j)) ^ 2
  }

  /** The `equals`/`hashCode` contract of `java.lang.Object` that the
      `endGenerators` hash set relies on: nodes that are `equals` have equal
      hash codes.  It holds because both read only `pos` and `j`. */
  lemma EqualNodesHashEqually(a: Node, b: Node)
    requires Equals(a, b)
    ensures HashCode(a) == HashCode(b)
  {
  }

  /** The termination measure of the search: the room left above every
      position.  Each child has exactly one unit less. */
  function Potential(pos: seq<int>, n: int): int
  {
    if pos == [] then 0 else (n - pos[|pos| - 1]) + Potential(pos[..|pos| - 1], n)
  }

  lemma {:induction false} PotentialOfChild(node: Node, c: int, n: int)
    requires 0 <= c < |node.pos|
    ensures Potential(Child(node, c).pos, n) == Potential(node.pos, n) - 1
  {
    PotentialUpdate(node.pos, c, node.pos[c] + 1, n);
  }

  lemma {:induction false} PotentialUpdate(pos: seq<int>, c: int, v: int, n: int)
    requires 0 <= c < |pos|
    ensures Potential(pos[c := v], n) == Potential(pos, n) - v + pos[c]
    decreases |pos|
  {
    var m := |pos| - 1;
    assert pos[c := v][..m] == if c == m then pos[..m] else pos[..m][c := v];
    if c < m {
      PotentialUpdate(pos[..m], c, v, n);
    }
  }

  lemma {:induction false} PotentialNonNegative(pos: seq<int>, n: int)
    requires forall i :: 0 <= i < |pos| ==> pos[i] <= n
    ensures Potential(pos, n) >= 0
    decreases |pos|
  {
    if pos != [] {
      PotentialNonNegative(pos[..|pos| - 1], n);
    }
  }
}
