/** Binheap: the array-backed binary min-heap of objects ordered by their
    `value()`.  Slots at and beyond the count `e` are empty (null in Java). */
module Binheap {
  import opened Wrappers
  import opened ExtInt

  /** `binheapParent(node)`: floor((node - 1) / 2); Dafny's division by a
      positive constant already rounds down, so the root's parent is -1. */
  function Parent(node: int): (p: int)
    ensures node == 0 ==> p == -1
    ensures node > 0 ==> 0 <= p < node
  {
    (node - 1) / 2
  }

  /** A node other than the root is a child of its parent, and the children
      of p have p as their parent. */
  lemma ParentChild(c: int, p: int)
    requires 0 <= p
    ensures c > 0 ==> LeftChild(Parent(c)) == c || RightChild(Parent(c)) == c
    ensures Parent(LeftChild(p)) == p && Parent(RightChild(p)) == p
  {
  }

  function LeftChild(node: int): int
  {
    2 * node + 1
  }

  /** `binheapRightChild(node)`; the left child sits just before it. */
  function RightChild(node: int): (r: int)
    ensures r - 1 == LeftChild(node)
  {
    2 * node + 2
  }

  /** The edge from slot p down to slot c is in heap order (or c is past
      the end). */
  ghost predicate Edge<T>(s: seq<T>, p: int, c: int, key: T -> int)
    requires 0 <= p < |s| && 0 <= c
  {
    c < |s| ==> key(s[p]) <= key(s[c])
  }

  /** Every element's value is at least its parent's. */
  ghost predicate HeapOrdered<T>(s: seq<T>, key: T -> int)
  {
    forall p :: 0 <= p < |s| ==> Edge(s, p, LeftChild(p), key) && Edge(s, p, RightChild(p), key)
  }

  /** Heap order on every edge except the one from `node` up to its parent. */
  ghost predicate HeapExceptUp<T>(s: seq<T>, node: int, key: T -> int)
  {
    forall p :: 0 <= p < |s| ==>
      (LeftChild(p) != node ==> Edge(s, p, LeftChild(p), key)) &&
      (RightChild(p) != node ==> Edge(s, p, RightChild(p), key))
  }

  /** Heap order on every edge except those from `node` down to its children. */
  ghost predicate HeapExceptDown<T>(s: seq<T>, node: int, key: T -> int)
  {
    forall p :: 0 <= p < |s| && p != node ==> Edge(s, p, LeftChild(p), key) && Edge(s, p, RightChild(p), key)
  }

  /** The parent of `node` is no larger than the children of `node`. */
  ghost predicate Bridge<T>(s: seq<T>, node: int, key: T -> int)
    requires 0 <= node < |s|
  {
    node > 0 ==> Edge(s, Parent(node), LeftChild(node), key) && Edge(s, Parent(node), RightChild(node), key)
  }

  function Swap<T>(s: seq<T>, a: int, b: int): (r: seq<T>)
    requires 0 <= a < |s| && 0 <= b < |s|
    ensures |r| == |s| && r[a] == s[b] && r[b] == s[a]
    ensures forall i :: 0 <= i < |s| && i != a && i != b ==> r[i] == s[i]
    ensures multiset(r) == multiset(s)
  {
    s[a := s[b]][b := s[a]]
  }

  /** One move of push's sift-up: the hole at `node` (holding the new
      element) trades places with its larger parent. */
  lemma SiftUpStep<T>(s: seq<T>, node: int, key: T -> int)
    requires 0 < node < |s| && HeapExceptUp(s, node, key) && Bridge(s, node, key)
    requires key(s[node]) < key(s[Parent(node)])
    ensures HeapExceptUp(Swap(s, node, Parent(node)), Parent(node), key)
    ensures Bridge(Swap(s, node, Parent(node)), Parent(node), key)
  {
    var p := Parent(node);
    var t := Swap(s, node, p);
    forall q | 0 <= q < |t|
      ensures LeftChild(q) != p ==> Edge(t, q, LeftChild(q), key)
      ensures RightChild(q) != p ==> Edge(t, q, RightChild(q), key)
    {
      if q == p {
        assert Edge(s, p, LeftChild(p), key) || LeftChild(p) == node;
        assert Edge(s, p, RightChild(p), key) || RightChild(p) == node;
      } else if q == node {
        assert t[q] == s[p];
      } else {
        assert t[q] == s[q];
        assert LeftChild(q) < |t| ==> t[LeftChild(q)] == s[LeftChild(q)] || LeftChild(q) == p;
        assert RightChild(q) < |t| ==> t[RightChild(q)] == s[RightChild(q)] || RightChild(q) == p;
      }
    }
    if p > 0 {
      var g := Parent(p);
      ParentChild(p, g);
      assert Edge(s, g, LeftChild(g), key) && Edge(s, g, RightChild(g), key);
      assert t[g] == s[g] && Edge(s, g, p, key);
      assert Edge(s, p, LeftChild(p), key) || LeftChild(p) == node;
      assert Edge(s, p, RightChild(p), key) || RightChild(p) == node;
    }
  }

  /** One move of pop's sift-down: the hole at `node` (holding the last
      element) trades places with its smaller child `m`. */
  lemma SiftDownStep<T>(s: seq<T>, node: int, m: int, key: T -> int)
    requires 0 <= node < m < |s| && (m == LeftChild(node) || m == RightChild(node))
    requires HeapExceptDown(s, node, key) && Bridge(s, node, key)
    requires key(s[m]) < key(s[node])
    requires Edge(s, m, LeftChild(node), key) && Edge(s, m, RightChild(node), key)
    ensures HeapExceptDown(Swap(s, node, m), m, key)
    ensures Bridge(Swap(s, node, m), m, key)
  {
    var t := Swap(s, node, m);
    assert Parent(m) == node;
    forall q | 0 <= q < |t| && q != m
      ensures Edge(t, q, LeftChild(q), key) && Edge(t, q, RightChild(q), key)
    {
      if q == node {
      } else {
        assert t[q] == s[q];
        assert LeftChild(q) < |t| ==> t[LeftChild(q)] == s[LeftChild(q)] || LeftChild(q) == node;
        assert RightChild(q) < |t| ==> t[RightChild(q)] == s[RightChild(q)] || RightChild(q) == node;
      }
    }
  }

  /** The root of a heap holds a minimum-value element. */
  lemma {:induction false} RootIsMin<T>(s: seq<T>, key: T -> int, i: int)
    requires HeapOrdered(s, key) && 0 <= i < |s|
    ensures key(s[0]) <= key(s[i])
    decreases i
  {
    if i > 0 {
      var p := Parent(i);
      assert Edge(s, p, LeftChild(p), key) && Edge(s, p, RightChild(p), key);
      RootIsMin(s, key, p);
    }
  }

  /** Every element of a heap is at least its root. */
  lemma RootIsMinAll<T>(s: seq<T>, key: T -> int)
    requires HeapOrdered(s, key) && s != []
    ensures forall x :: x in s ==> key(s[0]) <= key(x)
  {
    forall x | x in s ensures key(s[0]) <= key(x) {
      var i :| 0 <= i < |s| && s[i] == x;
      RootIsMin(s, key, i);
    }
  }

  /** The start of pop's sift-down: the last element moved into the root
      slot, the rest of the heap order intact below the root. */
  lemma RemoveRoot<T>(s: seq<T>, key: T -> int) returns (t: seq<T>)
    requires HeapOrdered(s, key) && |s| > 1
    ensures t == s[..|s| - 1][0 := s[|s| - 1]]
    ensures multiset(t) == multiset(s) - multiset{s[0]}
    ensures HeapExceptDown(t, 0, key)
  {
    t := s[..|s| - 1][0 := s[|s| - 1]];
    assert s == [s[0]] + s[1..|s| - 1] + [s[|s| - 1]];
    assert t == [s[|s| - 1]] + s[1..|s| - 1];
    forall q | 0 < q < |t| ensures Edge(t, q, LeftChild(q), key) && Edge(t, q, RightChild(q), key) {
      assert Edge(s, q, LeftChild(q), key) && Edge(s, q, RightChild(q), key);
    }
  }

  /** The start of push's sift-up: the new element in the first free
      slot, the old heap intact above it. */
  lemma AddLeaf<T>(s: seq<T>, x: T, key: T -> int) returns (t: seq<T>)
    requires HeapOrdered(s, key)
    ensures t == s + [x]
    ensures HeapExceptUp(t, |s|, key) && Bridge(t, |s|, key)
  {
    t := s + [x];
    forall q | 0 <= q < |t|
      ensures LeftChild(q) != |s| ==> Edge(t, q, LeftChild(q), key)
      ensures RightChild(q) != |s| ==> Edge(t, q, RightChild(q), key)
    {
      if q < |s| {
        assert Edge(s, q, LeftChild(q), key) && Edge(s, q, RightChild(q), key);
      }
    }
  }

  /** When the hole is no smaller than its parent, the filled sequence is
      a heap. */
  lemma SiftUpDone<T>(s: seq<T>, node: int, key: T -> int)
    requires 0 <= node < |s| && HeapExceptUp(s, node, key)
    requires node > 0 ==> key(s[Parent(node)]) <= key(s[node])
    ensures HeapOrdered(s, key)
  {
    if node > 0 {
      ParentChild(node, Parent(node));
    }
  }

  /** The value of slot i of a heap holding s, +infinity past its end. */
  function SlotValue<T>(s: seq<T>, i: int, key: T -> int): XInt
    requires 0 <= i
  {
    if i < |s| then Fin(key(s[i])) else PosInf
  }

  /** The child pop's loop moves to: the right one only when strictly
      smaller, and then it is a smallest child, smaller than the hole. */
  lemma PickChild<T>(s: seq<T>, node: int, m: int, key: T -> int)
    requires 0 <= node < |s|
    requires Lt(SlotValue(s, RightChild(node), key), Fin(key(s[node]))) ||
             Lt(SlotValue(s, LeftChild(node), key), Fin(key(s[node])))
    requires m == if Lt(SlotValue(s, RightChild(node), key), SlotValue(s, LeftChild(node), key))
                  then RightChild(node) else LeftChild(node)
    ensures node < m < |s| && (m == LeftChild(node) || m == RightChild(node)) && key(s[m]) < key(s[node])
    ensures Edge(s, m, LeftChild(node), key) && Edge(s, m, RightChild(node), key)
  {
  }

  /** When the hole is no larger than its children, the filled sequence is
      a heap. */
  lemma SiftDownDone<T>(s: seq<T>, node: int, key: T -> int)
    requires 0 <= node < |s| && HeapExceptDown(s, node, key)
    requires !(Lt(SlotValue(s, RightChild(node), key), Fin(key(s[node]))) ||
               Lt(SlotValue(s, LeftChild(node), key), Fin(key(s[node]))))
    ensures HeapOrdered(s, key)
  {
  }

  class Binheap<T> {
    /** `BinheapObject.value()`. */
    const valueOf: T -> int
    const data: array<Option<T>>
    var e: int
    /** The stored objects, slot by slot. */
    ghost var elems: seq<T>

    ghost predicate Valid()
      reads this, data
    {
      0 <= e <= data.Length && |elems| == e &&
      (forall i :: 0 <= i < e ==> data[i] == Some(elems[i])) &&
      (forall i :: e <= i < data.Length ==> data[i] == None) &&
      HeapOrdered(elems, valueOf)
    }

    /** `new Binheap(size)`: room for size objects, none stored. */
    constructor (size: nat, valueOf: T -> int)
      ensures Valid() && fresh(data) && data.Length == size
      ensures this.valueOf == valueOf && elems == []
    {
      this.valueOf := valueOf;
      data := new Option<T>[size](_ => None);
      e := 0;
      elems := [];
    }

    /** `containsData()`: the heap is not empty. */
    function ContainsData(): (r: bool)
      reads this, data
      requires Valid()
      ensures r <==> elems != []
    {
      e > 0
    }

    /** `nodeValue(node)`: the value in a slot, with +infinity for the
        slots at and beyond `e`. */
    function NodeValue(node: int): (v: XInt)
      reads this, data
      requires 0 <= node && e <= data.Length
      requires forall i :: 0 <= i < e ==> data[i].Some?
      ensures node >= e <==> v == PosInf
    {
      if node >= e then PosInf else Fin(valueOf(data[node].value))
    }

    /** The slots below |s| hold s, except the hole at `hole`. */
    ghost predicate Mirrors(s: seq<T>, hole: int)
      reads data
    {
      |s| <= data.Length && 0 <= hole < |s| &&
      (forall i :: 0 <= i < |s| && i != hole ==> data[i] == Some(s[i]))
    }

    /** `data[node] = data[m]`: the hole moves from node to m. */
    method MoveHole(ghost s: seq<T>, node: int, m: int) returns (ghost s': seq<T>)
      requires Mirrors(s, node) && 0 <= m < |s| && m != node
      modifies data
      ensures s' == Swap(s, node, m) && Mirrors(s', m) && data[m] == old(data[m])
      ensures forall i :: |s| <= i < data.Length ==> data[i] == old(data[i])
    {
      data[node] := data[m];
      s' := Swap(s, node, m);
    }

    /** `push(bo)`: sift-up from the first free slot; the heap then holds
        one more object, bo, and stays a heap. */
    method Push(bo: T)
      requires Valid() && e < data.Length
      modifies this, data
      ensures Valid() && e == old(e) + 1
      ensures multiset(elems) == multiset(old(elems)) + multiset{bo}
    {
      var node := e;
      var parent := Parent(node);
      ghost var s := AddLeaf(elems, bo, valueOf);
      while parent >= 0 && valueOf(bo) < valueOf(data[parent].value)
        invariant e == old(e) && |s| == e + 1 && Mirrors(s, node) && s[node] == bo && parent == Parent(node)
        invariant forall i :: |s| <= i < data.Length ==> data[i] == None
        invariant multiset(s) == multiset(old(elems)) + multiset{bo}
        invariant HeapExceptUp(s, node, valueOf) && Bridge(s, node, valueOf)
        decreases node
      {
        SiftUpStep(s, node, valueOf);
        s := MoveHole(s, node, parent);
        node := parent;
        parent := Parent(node);
      }
      SiftUpDone(s, node, valueOf);
      data[node] := Some(bo);
      e := e + 1;
      elems := s;
    }

    /** `pop()`: returns the root, a minimum-value object; the last object
        fills the hole and sifts down towards its smaller child. */
    method Pop() returns (r: T)
      requires Valid() && e > 0
      modifies this, data
      ensures Valid() && e == old(e) - 1 && data[e] == None
      ensures r == old(elems)[0]
      ensures forall x :: x in old(elems) ==> valueOf(r) <= valueOf(x)
      ensures multiset(elems) == multiset(old(elems)) - multiset{r}
    {
      ghost var before := elems;
      RootIsMinAll(before, valueOf);
      r := data[0].value;
      e := e - 1;
      var bhobj := data[e].value;
      data[e] := None;
      if e == 0 {
        assert before == [r];
        elems := [];
        return;
      }
      ghost var s := RemoveRoot(before, valueOf);
      ghost var s' := SiftDown(bhobj, s);
      elems := s';
    }

    /** The loop of `pop()`: the hole at the root, standing for bhobj,
        trades places with its smaller child while that child is smaller
        than bhobj; s0 and s are the heap with the hole filled, before and
        after. */
    method SiftDown(bhobj: T, ghost s0: seq<T>) returns (ghost s: seq<T>)
      requires |s0| == e && Mirrors(s0, 0) && data[0].Some? && s0[0] == bhobj
      requires HeapExceptDown(s0, 0, valueOf)
      modifies data
      ensures |s| == e && multiset(s) == multiset(s0) && HeapOrdered(s, valueOf)
      ensures forall i :: 0 <= i < e ==> data[i] == Some(s[i])
      ensures forall i :: e <= i < data.Length ==> data[i] == old(data[i])
    {
      s := s0;
      var value := valueOf(bhobj);
      var node := 0;
      var rchild := RightChild(node);
      while Lt(NodeValue(rchild), Fin(value)) || Lt(NodeValue(rchild - 1), Fin(value))
        invariant |s| == e && Mirrors(s, node) && data[node].Some? && s[node] == bhobj && rchild == RightChild(node)
        invariant forall i :: e <= i < data.Length ==> data[i] == old(data[i])
        invariant multiset(s) == multiset(s0)
        invariant HeapExceptDown(s, node, valueOf) && Bridge(s, node, valueOf)
        decreases e - node
      {
        s, node := SinkHole(bhobj, s, node);
        rchild := RightChild(node);
      }
      MirrorValues(s, node);
      SiftDownDone(s, node, valueOf);
      data[node] := Some(bhobj);
    }

    /** One turn of the sift-down loop: the hole moves to its smaller child,
        which moves up. */
    method SinkHole(bhobj: T, ghost s: seq<T>, node: int) returns (ghost s': seq<T>, m: int)
      requires |s| == e && Mirrors(s, node) && data[node].Some? && s[node] == bhobj
      requires HeapExceptDown(s, node, valueOf) && Bridge(s, node, valueOf)
      requires Lt(NodeValue(RightChild(node)), Fin(valueOf(bhobj))) ||
               Lt(NodeValue(RightChild(node) - 1), Fin(valueOf(bhobj)))
      modifies data
      ensures node < m && |s'| == e && Mirrors(s', m) && data[m].Some? && s'[m] == bhobj
      ensures forall i :: e <= i < data.Length ==> data[i] == old(data[i])
      ensures multiset(s') == multiset(s)
      ensures HeapExceptDown(s', m, valueOf) && Bridge(s', m, valueOf)
    {
      MirrorValues(s, node);
      var rchild := RightChild(node);
      m := if Lt(NodeValue(rchild), NodeValue(rchild - 1)) then rchild else rchild - 1;
      PickChild(s, node, m, valueOf);
      SiftDownStep(s, node, m, valueOf);
      s' := MoveHole(s, node, m);
    }

    /** Below the hole, nodeValue reads the values of s. */
    lemma MirrorValues(s: seq<T>, node: int)
      requires |s| == e && Mirrors(s, node) && data[node].Some?
      ensures NodeValue(RightChild(node)) == SlotValue(s, RightChild(node), valueOf)
      ensures NodeValue(LeftChild(node)) == SlotValue(s, LeftChild(node), valueOf)
    {
    }
  }
}
