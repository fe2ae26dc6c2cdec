/** Utils: the array and arithmetic helpers of the search.  Java `int[]`
    values that are never written after they are built are sequences here;
    the loops that build or scan them are kept. */
module Utils {
  import IM = IntMatrix
  import CM = ColumnMajor

  /** The integers s, s+1, ..., e-1, the specification of both `range`s. */
  function Iota(s: int, e: int): (r: seq<int>)
    requires s <= e
    ensures |r| == e - s
    ensures forall i :: 0 <= i < |r| ==> r[i] == s + i
    decreases e - s
  {
    if s == e then [] else [s] + Iota(s + 1, e)
  }

  /** `range(k)`: 0, 1, ..., k-1. */
  method Range(k: nat) returns (x: seq<int>)
    ensures |x| == k
    ensures forall i :: 0 <= i < k ==> x[i] == i
  {
    var a := new int[k];
    var i := 0;
    while i < k
      invariant 0 <= i <= k
      invariant forall t :: 0 <= t < i ==> a[t] == t
    {
      a[i] := i;
      i := i + 1;
    }
    x := a[..];
  }

  /** `range(startpos, endpos)`: startpos (inclusive) to endpos (exclusive). */
  method RangeBetween(startpos: int, endpos: int) returns (x: seq<int>)
    requires startpos <= endpos
    ensures |x| == endpos - startpos
    ensures forall i :: 0 <= i < |x| ==> x[i] == startpos + i
  {
    var a := new int[endpos - startpos];
    var i := 0;
    while i < endpos - startpos
      invariant 0 <= i <= endpos - startpos
      invariant forall t :: 0 <= t < i ==> a[t] == startpos + t
    {
      a[i] := startpos + i;
      i := i + 1;
    }
    x := a[..];
  }

  /** `arraySuffix(arr, beginPos)`: the elements from beginPos on; the copy
      throws unless 0 <= beginPos <= arr.length. */
  method ArraySuffix(arr: seq<int>, beginPos: int) returns (suffix: seq<int>)
    requires 0 <= beginPos <= |arr|
    ensures |suffix| == |arr| - beginPos
    ensures forall i :: 0 <= i < |suffix| ==> suffix[i] == arr[beginPos + i]
  {
    var a := new int[|arr| - beginPos];
    forall i | 0 <= i < a.Length {
      a[i] := arr[beginPos + i];
    }
    suffix := a[..];
  }

  /** `arrayIndexOf`: the first index holding value, or -1 when there is none. */
  method ArrayIndexOf(value: int, arr: seq<int>) returns (r: int)
    ensures -1 <= r < |arr|
    ensures r == -1 <==> value !in arr
    ensures r >= 0 ==> arr[r] == value && forall i :: 0 <= i < r ==> arr[i] != value
  {
    var i := 0;
    while i < |arr|
      invariant 0 <= i <= |arr|
      invariant forall t :: 0 <= t < i ==> arr[t] != value
    {
      if arr[i] == value {
        return i;
      }
      i := i + 1;
    }
    return -1;
  }

  /** `isSubset(setA, setB)`: every element of setA occurs in setB. */
  method IsSubset(setA: seq<int>, setB: seq<int>) returns (b: bool)
    ensures b <==> forall x :: x in setA ==> x in setB
  {
    var i := 0;
    while i < |setA|
      invariant 0 <= i <= |setA|
      invariant forall t :: 0 <= t < i ==> setA[t] in setB
    {
      var at := ArrayIndexOf(setA[i], setB);
      if at == -1 {
        return false;
      }
      i := i + 1;
    }
    return true;
  }

  // ---------------------------------------------------------------------
  // Stable sorting.  `Arrays.sort` on objects and `Collections.sort` are
  // stable merge sorts; a stable sort by a key has exactly one result, so
  // it is specified here by stable insertion.

  predicate SortedBy<T>(s: seq<T>, key: T -> int)
  {
    forall i, j :: 0 <= i < j < |s| ==> key(s[i]) <= key(s[j])
  }

  /** Inserts x behind every element whose key is not larger. */
  function InsertBy<T>(x: T, s: seq<T>, key: T -> int): (r: seq<T>)
    requires SortedBy(s, key)
    ensures SortedBy(r, key)
    ensures multiset(r) == multiset(s) + multiset{x}
  {
    if s == [] then [x]
    else if key(x) < key(s[0]) then [x] + s
    else
      var rest := InsertBy(x, s[1..], key);
      InsertBehind(x, s, rest, key);
      [s[0]] + rest
  }

  /** Putting the head of s back in front of x inserted into the tail. */
  lemma InsertBehind<T>(x: T, s: seq<T>, rest: seq<T>, key: T -> int)
    requires s != [] && SortedBy(s, key) && key(s[0]) <= key(x)
    requires SortedBy(rest, key) && multiset(rest) == multiset(s[1..]) + multiset{x}
    ensures SortedBy([s[0]] + rest, key)
    ensures multiset([s[0]] + rest) == multiset(s) + multiset{x}
  {
    assert s == [s[0]] + s[1..];
    forall t | 0 <= t < |rest| ensures key(s[0]) <= key(rest[t]) {
      assert rest[t] in multiset(s[1..]) + multiset{x};
    }
  }

  /** The stable sort of s by ascending key. */
  function SortBy<T>(s: seq<T>, key: T -> int): (r: seq<T>)
    ensures SortedBy(r, key)
    ensures multiset(r) == multiset(s)
    ensures |r| == |s|
  {
    if s == [] then []
    else
      var init := s[..|s| - 1];
      assert s == init + [s[|s| - 1]];
      var r := InsertBy(s[|s| - 1], SortBy(init, key), key);
      assert |r| == |multiset(r)|;
      r
  }

  /** `sortedIdx(values, decreasing)`: item indices in order of value. */
  function SortedIdx(values: seq<int>, decreasing: bool): (idx: seq<int>)
    ensures |idx| == |values|
    ensures multiset(idx) == multiset(Iota(0, |values|))
    ensures forall a :: 0 <= a < |idx| ==> 0 <= idx[a] < |values|
    ensures forall a, b :: 0 <= a < b < |idx| ==>
              0 <= idx[a] < |values| && 0 <= idx[b] < |values| &&
              (if decreasing then values[idx[a]] >= values[idx[b]] else values[idx[a]] <= values[idx[b]])
  {
    var key := (i: int) => if 0 <= i < |values| then (if decreasing then -values[i] else values[i]) else 0;
    var idx := SortBy(Iota(0, |values|), key);
    forall a | 0 <= a < |idx| ensures 0 <= idx[a] < |values| {
      assert idx[a] in multiset(Iota(0, |values|));
    }
    idx
  }

  /** The loop shared by the evaluators' `init`: each value moves to its new
      item number, `values[i] = input[origItem[i]]`. */
  method Permute(values: seq<int>, origItem: seq<int>) returns (v: seq<int>)
    requires |origItem| == |values| && forall i :: 0 <= i < |origItem| ==> 0 <= origItem[i] < |values|
    ensures |v| == |values| && forall i :: 0 <= i < |values| ==> v[i] == values[origItem[i]]
  {
    var a := new int[|values|];
    var i := 0;
    while i < |values|
      invariant 0 <= i <= |values|
      invariant forall t :: 0 <= t < i ==> a[t] == values[origItem[t]]
    {
      a[i] := values[origItem[i]];
      i := i + 1;
    }
    v := a[..];
  }

  /** `rearrangeColumns(orig, permutation)`: column c of the result is column
      permutation[c] of orig. */
  method RearrangeColumns(orig: IM.IntMatrix, permutation: seq<int>) returns (output: IM.IntMatrix)
    requires orig.Valid()
    requires orig.nrow == 0 || (|permutation| >= orig.ncol &&
               forall c :: 0 <= c < orig.ncol ==> 0 <= permutation[c] < orig.ncol)
    ensures fresh(output) && fresh(output.data) && output.Valid()
    ensures output.nrow == orig.nrow && output.ncol == orig.ncol
    ensures forall r: nat, c: nat :: r < orig.nrow && c < orig.ncol ==>
              output.At(r, c) == orig.At(r, permutation[c])
  {
    output := new IM.IntMatrix(orig.nrow, orig.ncol);
    var row := 0;
    while row < orig.nrow
      invariant 0 <= row <= orig.nrow
      invariant output.Valid() && output.nrow == orig.nrow && output.ncol == orig.ncol
      invariant fresh(output) && fresh(output.data)
      invariant forall r: nat, c: nat :: r < row && c < orig.ncol ==>
                  output.At(r, c) == orig.At(r, permutation[c])
    {
      var item := 0;
      while item < orig.ncol
        invariant 0 <= item <= orig.ncol
        invariant forall r: nat, c: nat :: (r < row || (r == row && c < item)) && c < orig.ncol ==>
                    output.At(r, c) == orig.At(r, permutation[c])
      {
        CM.IndexInRange(orig.nrow, orig.ncol, row, permutation[item]);
        CM.IndexInRange(orig.nrow, orig.ncol, row, item);
        output.Set(row, item, orig.Get(row, permutation[item]));
        item := item + 1;
      }
      row := row + 1;
    }
  }

  // ---------------------------------------------------------------------
  // Factorials and binomial coefficients (`BigInteger` in Java).

  function Fact(n: nat): (r: nat)
    ensures r >= 1
  {
    if n == 0 then 1 else n * Fact(n - 1)
  }

  /** Pascal's triangle: the reference definition of "n choose k". */
  function Binom(n: nat, k: nat): nat
  {
    if k == 0 then 1
    else if n == 0 then 0
    else Binom(n - 1, k - 1) + Binom(n - 1, k)
  }

  /** What `factorial(n)` returns: 1 for 0, n! for positive n, and n itself
      for negative n (the loop then never runs). */
  function JavaFactorial(n: int): (r: int)
    ensures r != 0
    ensures n >= 0 ==> r == Fact(n)
    ensures n < 0 ==> r == n
  {
    if n == 0 then 1 else if n < 0 then n else Fact(n)
  }

  /** `factorial(n)`: multiplies n, n-1, ..., 1 into v. */
  method Factorial(n: int) returns (v: int)
    ensures n >= 0 ==> v == Fact(n)
    ensures n < 0 ==> v == n
  {
    if n == 0 {
      return 1;
    }
    v := n;
    var i := n - 1;
    while i >= 1
      invariant n > 0 ==> 0 <= i < n && v * Fact(i) == Fact(n)
      invariant n < 0 ==> v == n
    {
      ghost var v0 := v;
      v := v * i;
      assert v * Fact(i - 1) == v0 * Fact(i) by {
        MulAssoc(v0, i, Fact(i - 1));
      }
      i := i - 1;
    }
  }

  lemma MulAssoc(a: int, b: int, c: int)
    ensures (a * b) * c == a * (b * c)
  {
  }

  /** `BigInteger.divide`: division rounding toward zero. */
  function TruncDiv(a: int, b: int): int
    requires b != 0
  {
    if (a >= 0) == (b > 0) then
      (if a >= 0 then a else -a) / (if b > 0 then b else -b)
    else
      -((if a >= 0 then a else -a) / (if b > 0 then b else -b))
  }

  /** `nchoosek(n, k) = factorial(n) / (factorial(k) * factorial(n - k))`. */
  function NChooseK(n: int, k: int): int
  {
    TruncDiv(JavaFactorial(n), JavaFactorial(k) * JavaFactorial(n - k))
  }

  lemma {:induction false} FactSplit(n: nat, k: nat)
    requires k <= n
    ensures Fact(n) == Binom(n, k) * Fact(k) * Fact(n - k)
    decreases n
  {
    if k == 0 {
    } else if k == n {
      BinomDiagonal(n);
    } else {
      FactSplit(n - 1, k - 1);
      FactSplit(n - 1, k);
      var a, b := Binom(n - 1, k - 1), Binom(n - 1, k);
      FactStep(a, b, Fact(n - 1), Fact(k), Fact(k - 1), Fact(n - k), Fact(n - 1 - k), k, n);
    }
  }

  /** The arithmetic of Pascal's rule applied to n! = n * (n-1)!. */
  lemma FactStep(a: int, b: int, f: int, fk: int, fk1: int, fm: int, fm1: int, k: int, n: int)
    requires fk == k * fk1 && fm == (n - k) * fm1
    requires f == a * fk1 * fm && f == b * fk * fm1
    ensures (a + b) * fk * fm == n * f
  {
    assert a * fk * fm == k * f by { Rearrange(a, k, fk1, fm); }
    assert b * fk * fm == (n - k) * f by { Rearrange2(b, fk, n - k, fm1); }
    assert (a + b) * fk * fm == a * fk * fm + b * fk * fm;
  }

  lemma Rearrange(a: int, k: int, fk1: int, fm: int)
    ensures a * (k * fk1) * fm == k * (a * fk1 * fm)
  {
  }

  lemma Rearrange2(b: int, fk: int, m: int, fm1: int)
    ensures b * fk * (m * fm1) == m * (b * fk * fm1)
  {
  }

  lemma {:induction false} BinomDiagonal(n: nat)
    ensures Binom(n, n) == 1
  {
    if n > 0 {
      BinomDiagonal(n - 1);
      BinomAbove(n - 1, n);
    }
  }

  /** Pascal's triangle is zero above the diagonal. */
  lemma {:induction false} BinomAbove(n: nat, k: nat)
    requires k > n
    ensures Binom(n, k) == 0
  {
    if n > 0 {
      BinomAbove(n - 1, k - 1);
      BinomAbove(n - 1, k);
    }
  }

  /** `nchoosek` is the binomial coefficient whenever 0 <= k <= n. */
  lemma NChooseKIsBinom(n: int, k: int)
    requires 0 <= k <= n
    ensures NChooseK(n, k) == Binom(n, k)
  {
    var fk, fm := Fact(k), Fact(n - k);
    FactSplit(n, k);
    var d := fk * fm;
    assert d >= 1 by { PositiveProduct(fk, fm); }
    assert Fact(n) == Binom(n, k) * d by { MulAssoc(Binom(n, k), fk, fm); }
    assert JavaFactorial(k) * JavaFactorial(n - k) == d;
    DivExact(Binom(n, k), d);
  }

  lemma PositiveProduct(a: int, b: int)
    requires a >= 1 && b >= 1
    ensures a * b >= 1
  {
    assert a * b == (a - 1) * b + b;
    assert (a - 1) * b >= 0;
  }

  lemma DivExact(q: nat, d: int)
    requires d >= 1
    ensures (q * d) / d == q
  {
    var r, m := (q * d) / d, (q * d) % d;
    assert q * d == d * r + m && 0 <= m < d;
    assert d * (q - r) == m;
  }

  /** `nchoosek(0, 1)` is -1: out of range arguments do not give 0. */
  lemma NChooseKBelowRange()
    ensures NChooseK(0, 1) == -1
  {
  }

  // ---------------------------------------------------------------------

  /** `lexicographicArrayComparison(a, b)`: -1, 0 or 1 by the first index
      below |a| where the arrays differ; b must be at least as long as a. */
  method LexicographicArrayComparison(a: seq<int>, b: seq<int>) returns (r: int)
    requires |b| >= |a|
    ensures r == -1 || r == 0 || r == 1
    ensures r == 0 <==> a == b[..|a|]
    ensures r != 0 ==> exists i :: 0 <= i < |a| && a[..i] == b[..i] && a[i] != b[i] && (r == -1 <==> a[i] < b[i])
  {
    var i := 0;
    while i < |a|
      invariant 0 <= i <= |a|
      invariant a[..i] == b[..i]
    {
      if a[i] < b[i] {
        return -1;
      } else if a[i] > b[i] {
        return 1;
      }
      assert a[..i + 1] == a[..i] + [a[i]] && b[..i + 1] == b[..i] + [b[i]];
      i := i + 1;
    }
    return 0;
  }

  /** `intListToArray(l)`: the same elements in the same order. */
  method IntListToArray(l: seq<int>) returns (x: seq<int>)
    ensures |x| == |l| && forall i :: 0 <= i < |l| ==> x[i] == l[i]
  {
    var a := new int[|l|];
    var i := 0;
    while i < |l|
      invariant 0 <= i <= |l|
      invariant forall t :: 0 <= t < i ==> a[t] == l[t]
    {
      a[i] := l[i];
      i := i + 1;
    }
    x := a[..];
  }
}
