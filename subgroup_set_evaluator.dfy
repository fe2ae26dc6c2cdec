/** SubgroupSetEvaluator: what the two subgroup-cover oracles share.  Each
    data row gets a cover pattern, an integer whose bit j says whether the
    j-th chosen subgroup covers the row, and the oracle counts the rows of
    each pattern.  The entropy computed from those counts is floating
    point and is not part of this model; the counts are. */
module SubgroupSetEvaluator {

  // ---------------------------------------------------------------------
  // The bit operations of `bucket |= 1 << j` on non-negative ints
  // ---------------------------------------------------------------------

  /** `1 << n`. */
  function Pow2(n: nat): (p: nat)
    ensures p >= 1
  {
    if n == 0 then 1 else 2 * Pow2(n - 1)
  }

  lemma {:induction false} Pow2Monotone(a: nat, b: nat)
    requires a <= b
    ensures Pow2(a) <= Pow2(b)
    decreases b
  {
    if a < b {
      Pow2Monotone(a, b - 1);
    }
  }

  /** Bit `j` of `x`. */
  function Bit(x: nat, j: nat): bool
  {
    if j == 0 then x % 2 == 1 else Bit(x / 2, j - 1)
  }

  /** `x | (1 << j)`. */
  function OrBit(x: nat, j: nat): (r: nat)
  {
    if Bit(x, j) then x else x + Pow2(j)
  }

  /** `x | (c << j)` for a cell `c` of a 0/1 cover matrix. */
  function OrCell(x: nat, c: int, j: nat): (r: nat)
    requires c == 0 || c == 1
  {
    if c == 0 then x else OrBit(x, j)
  }

  /** A number below `2^j` has bit `j` clear, so setting it adds `2^j`. */
  lemma {:induction false} OrBitBelow(x: nat, j: nat)
    requires x < Pow2(j)
    ensures !Bit(x, j) && OrBit(x, j) == x + Pow2(j)
  {
    if j > 0 {
      OrBitBelow(x / 2, j - 1);
    }
  }

  /** Adding `2^j` to a number below `2^j` sets bit `j`. */
  lemma {:induction false} BitHigh(x: nat, j: nat)
    requires x < Pow2(j)
    ensures Bit(x + Pow2(j), j)
  {
    if j > 0 {
      assert (x + Pow2(j)) / 2 == x / 2 + Pow2(j - 1);
      BitHigh(x / 2, j - 1);
    }
  }

  /** Adding `2^n` to a number below `2^n` keeps every lower bit. */
  lemma {:induction false} HighBitKeeps(x: nat, j: nat, n: nat)
    requires j < n && x < Pow2(n)
    ensures Bit(x + Pow2(n), j) <==> Bit(x, j)
  {
    assert x + Pow2(n) == x + 2 * Pow2(n - 1);
    if j > 0 {
      assert (x + Pow2(n)) / 2 == x / 2 + Pow2(n - 1);
      HighBitKeeps(x / 2, j - 1, n - 1);
    }
  }

  /** The pattern of a row: bit j is set exactly when `bits[j]` holds. */
  function PatternOf(bits: seq<bool>): nat
  {
    if bits == [] then 0
    else PatternOf(bits[..|bits| - 1]) + (if bits[|bits| - 1] then Pow2(|bits| - 1) else 0)
  }

  lemma {:induction false} PatternBound(bits: seq<bool>)
    ensures PatternOf(bits) < Pow2(|bits|)
  {
    if bits != [] {
      PatternBound(bits[..|bits| - 1]);
    }
  }

  /** Setting bit `|bits|` of a pattern appends `true`, leaving it clear
      appends `false`: the loop step of both `fillCounters`. */
  lemma PatternAppend(bits: seq<bool>, b: bool)
    ensures PatternOf(bits + [b]) == if b then OrBit(PatternOf(bits), |bits|) else PatternOf(bits)
  {
    assert (bits + [b])[..|bits|] == bits;
    PatternBound(bits);
    OrBitBelow(PatternOf(bits), |bits|);
  }

  /** Bit `j` of the pattern is `bits[j]`, in both directions. */
  lemma {:induction false} PatternBit(bits: seq<bool>, j: nat)
    requires j < |bits|
    ensures Bit(PatternOf(bits), j) <==> bits[j]
    decreases |bits|
  {
    var n := |bits| - 1;
    var init := bits[..n];
    PatternBound(init);
    if j == n {
      if bits[n] {
        BitHigh(PatternOf(init), n);
      } else {
        OrBitBelow(PatternOf(init), n);
      }
    } else {
      PatternBit(init, j);
      assert init[j] == bits[j];
      if bits[n] {
        HighBitKeeps(PatternOf(init), j, n);
      }
    }
  }

  /** Different rows of covers have different patterns. */
  lemma PatternInjective(a: seq<bool>, b: seq<bool>)
    requires |a| == |b| && PatternOf(a) == PatternOf(b)
    ensures a == b
  {
    forall j | 0 <= j < |a| ensures a[j] == b[j] {
      PatternBit(a, j);
      PatternBit(b, j);
    }
  }

  // ---------------------------------------------------------------------
  // The counter arrays
  // ---------------------------------------------------------------------

  function SumSeq(c: seq<int>): int
  {
    if c == [] then 0 else SumSeq(c[..|c| - 1]) + c[|c| - 1]
  }

  /** `counter[b]++` adds one to the total. */
  lemma {:induction false} SumIncrement(c: seq<int>, b: int)
    requires 0 <= b < |c|
    ensures SumSeq(c[b := c[b] + 1]) == SumSeq(c) + 1
    decreases |c|
  {
    var n := |c| - 1;
    var d := c[b := c[b] + 1];
    assert d[..n] == if b < n then c[..n][b := c[b] + 1] else c[..n];
    if b < n {
      SumIncrement(c[..n], b);
    }
  }

  lemma {:induction false} SumZeros(n: nat)
    ensures SumSeq(seq(n, _ => 0)) == 0
  {
    if n > 0 {
      assert seq(n, _ => 0)[..n - 1] == seq(n - 1, _ => 0);
      SumZeros(n - 1);
    }
  }

  /** `counter[b]` is the number of rows whose pattern is `b`. */
  ghost predicate Counts(counter: seq<int>, patterns: seq<nat>)
  {
    forall b :: 0 <= b < |counter| ==> counter[b] == multiset(patterns)[b]
  }

  /** The counter array after `counter[p]++` for each pattern `p` in turn,
      starting from `size` zeros. */
  function Histogram(patterns: seq<nat>, size: nat): (h: seq<int>)
    ensures |h| == size
  {
    if patterns == [] then seq(size, _ => 0)
    else
      var h := Histogram(patterns[..|patterns| - 1], size);
      var p := patterns[|patterns| - 1];
      if p < size then h[p := h[p] + 1] else h
  }

  /** `counter[p]++` for the next row's pattern `p`. */
  lemma HistogramStep(patterns: seq<nat>, row: nat, size: nat, counts: seq<int>, bucket: nat)
    requires row < |patterns| && bucket == patterns[row] < size
    requires counts == Histogram(patterns[..row], size)
    ensures counts[bucket := counts[bucket] + 1] == Histogram(patterns[..row + 1], size)
  {
    assert patterns[..row + 1][..row] == patterns[..row];
  }

  /** Each counter of the histogram is the number of rows with its pattern. */
  lemma {:induction false} HistogramCounts(patterns: seq<nat>, size: nat)
    ensures Counts(Histogram(patterns, size), patterns)
  {
    if patterns != [] {
      var init := patterns[..|patterns| - 1];
      var p := patterns[|patterns| - 1];
      HistogramCounts(init, size);
      assert patterns == init + [p];
      assert multiset(patterns) == multiset(init) + multiset{p};
    }
  }

  /** When every pattern has a counter, the counters add up to the number of
      rows. */
  lemma {:induction false} HistogramSum(patterns: seq<nat>, size: nat)
    requires forall i :: 0 <= i < |patterns| ==> patterns[i] < size
    ensures SumSeq(Histogram(patterns, size)) == |patterns|
  {
    if patterns == [] {
      SumZeros(size);
    } else {
      var init := patterns[..|patterns| - 1];
      HistogramSum(init, size);
      SumIncrement(Histogram(init, size), patterns[|patterns| - 1]);
    }
  }

  /** Two counter arrays of the same length that count the same patterns
      are equal. */
  lemma CountsUnique(c: seq<int>, d: seq<int>, patterns: seq<nat>)
    requires |c| == |d| && Counts(c, patterns) && Counts(d, patterns)
    ensures c == d
  {
  }

  // ---------------------------------------------------------------------
  // `String.trim()` and the cover lines
  // ---------------------------------------------------------------------

  /** `s.trim()`: the characters up to `' '` dropped from both ends, so the
      result neither starts nor ends with one. */
  function Trim(s: string): (r: string)
    ensures |r| <= |s|
    ensures r == [] || (r[0] > ' ' && r[|r| - 1] > ' ')
  {
    if s != [] && s[0] <= ' ' then Trim(s[1..])
    else if s != [] && s[|s| - 1] <= ' ' then Trim(s[..|s| - 1])
    else s
  }

  /** The trimmed string is the slice `s[i..j]` with only characters up to
      `' '` outside it. */
  lemma {:induction false} TrimSlice(s: string) returns (i: nat, j: nat)
    ensures i <= j <= |s| && Trim(s) == s[i..j]
    ensures forall k :: 0 <= k < i ==> s[k] <= ' '
    ensures forall k :: j <= k < |s| ==> s[k] <= ' '
  {
    if s != [] && s[0] <= ' ' {
      var i', j' := TrimSlice(s[1..]);
      i, j := i' + 1, j' + 1;
      BlankFront(s, i', j');
    } else if s != [] && s[|s| - 1] <= ' ' {
      i, j := TrimSlice(s[..|s| - 1]);
      BlankBack(s, s[..|s| - 1], i, j);
    } else {
      i, j := 0, |s|;
      assert s[0..|s|] == s;
    }
  }

  /** A slice of s[1..] with blanks around it, when s starts with a blank,
      is the slice one further on in s with blanks around it. */
  lemma BlankFront(s: string, i: nat, j: nat)
    requires s != [] && s[0] <= ' ' && i <= j <= |s| - 1
    requires forall k :: 0 <= k < i ==> s[1..][k] <= ' '
    requires forall k :: j <= k < |s| - 1 ==> s[1..][k] <= ' '
    ensures s[1..][i..j] == s[i + 1..j + 1]
    ensures forall k :: 0 <= k < i + 1 ==> s[k] <= ' '
    ensures forall k :: j + 1 <= k < |s| ==> s[k] <= ' '
  {
    var t := s[1..];
    forall k | 0 <= k < i + 1 ensures s[k] <= ' ' {
      if k > 0 { assert s[k] == t[k - 1]; }
    }
    forall k | j + 1 <= k < |s| ensures s[k] <= ' ' {
      assert s[k] == t[k - 1];
    }
  }

  /** A slice of s[..|s| - 1] with blanks around it, when s ends with a
      blank, is the same slice of s with blanks around it. */
  lemma BlankBack(s: string, t: string, i: nat, j: nat)
    requires s != [] && s[|s| - 1] <= ' ' && t == s[..|s| - 1] && i <= j <= |t|
    requires forall k :: 0 <= k < i ==> t[k] <= ' '
    requires forall k :: j <= k < |t| ==> t[k] <= ' '
    ensures t[i..j] == s[i..j]
    ensures forall k :: 0 <= k < i ==> s[k] <= ' '
    ensures forall k :: j <= k < |s| ==> s[k] <= ' '
  {
    forall k | 0 <= k < i ensures s[k] <= ' ' {
      assert s[k] == t[k];
    }
    forall k | j <= k < |s| ensures s[k] <= ' ' {
      if k < |s| - 1 { assert s[k] == t[k]; }
    }
  }

  /** The lines of a cover file, each trimmed, in order: what both
      `loadCovers` and `loadBitCovers` read. */
  method TrimLines(lines: seq<string>) returns (ts: seq<string>)
    ensures |ts| == |lines| && forall j :: 0 <= j < |lines| ==> ts[j] == Trim(lines[j])
  {
    ts := [];
    var j := 0;
    while j < |lines|
      invariant 0 <= j <= |lines|
      invariant |ts| == j && forall j' :: 0 <= j' < j ==> ts[j'] == Trim(lines[j'])
    {
      ts := ts + [Trim(lines[j])];
      j := j + 1;
    }
  }

  /** `Integer.parseInt` of a one-character string: the digit, or -1
      standing for the `NumberFormatException` (callers check for it). */
  function DigitValue(c: char): (d: int)
    ensures '0' <= c <= '9' ==> 0 <= d <= 9
    ensures d >= 0 <==> '0' <= c <= '9'
  {
    if '0' <= c <= '9' then c as int - '0' as int else -1
  }

  /** The positions of `'1'` in a cover line, the bits `loadBitCovers` sets. */
  function Ones(s: string): (r: set<int>)
    ensures forall i :: i in r <==> 0 <= i < |s| && s[i] == '1'
  {
    if s == [] then {} else Ones(s[..|s| - 1]) + (if s[|s| - 1] == '1' then {|s| - 1} else {})
  }

  /** The sum of the digits of a cover line, which `countOnes` of the
      integer representation computes over its column. */
  function DigitSum(s: string): int
  {
    if s == [] then 0 else DigitSum(s[..|s| - 1]) + DigitValue(s[|s| - 1])
  }

  predicate IsBinaryLine(s: string)
  {
    forall i :: 0 <= i < |s| ==> s[i] == '0' || s[i] == '1'
  }

  /** On a line of `'0'` and `'1'`, the two representations agree: a cell is
      1 exactly when its position is in the bit set, and the column sum is
      the cardinality of the set. */
  lemma {:induction false} LineAgreement(s: string)
    requires IsBinaryLine(s)
    ensures forall i :: 0 <= i < |s| ==> (DigitValue(s[i]) == 1 <==> i in Ones(s))
    ensures forall i :: 0 <= i < |s| ==> DigitValue(s[i]) == 0 || DigitValue(s[i]) == 1
    ensures DigitSum(s) == |Ones(s)|
  {
    if s != [] {
      var init := s[..|s| - 1];
      LineAgreement(init);
      assert |s| - 1 !in Ones(init);
      assert Ones(s) == Ones(init) + (if s[|s| - 1] == '1' then {|s| - 1} else {});
    }
  }
}
