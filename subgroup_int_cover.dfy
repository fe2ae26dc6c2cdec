/** SubgroupSetEvaluatorIntCover: the subgroup oracle whose covers are an
    `IntMatrix` of digits, one column per subgroup and one row per data
    row; a 1 says that the subgroup covers the row. */
module SubgroupSetEvaluatorIntCover {
  import IM = IntMatrix
  import CM = ColumnMajor
  import Utils
  import opened SubgroupSetEvaluator

  /** Line `s`, trimmed, has a decimal digit at each of the first `n`
      positions, so `Integer.parseInt` of each one-character substring
      succeeds. */
  predicate LineLoadable(s: string, n: int)
  {
    n <= |s| && forall i :: 0 <= i < n ==> '0' <= s[i] <= '9'
  }

  /** The input `loadCovers` reads without an exception: there is a first
      line, and every trimmed line is loadable up to the trimmed length of
      the first one. */
  predicate Loadable(lines: seq<string>)
  {
    |lines| > 0 && forall j :: 0 <= j < |lines| ==> LineLoadable(Trim(lines[j]), |Trim(lines[0])|)
  }

  /** `loadCovers` on the lines of the cover file: a matrix with one row per
      position of the trimmed first line and one column per line, cell
      (i, j) the digit at position i of line j; `null` where Java throws. */
  method LoadCovers(lines: seq<string>) returns (c: IM.IntMatrix?)
    ensures c == null <==> !Loadable(lines)
    ensures c != null ==> (fresh(c) && fresh(c.data) && c.Valid() &&
              c.nrow == |Trim(lines[0])| && c.ncol == |lines| &&
              forall i: nat, j: nat :: i < c.nrow && j < c.ncol ==>
                i < |Trim(lines[j])| && c.At(i, j) == DigitValue(Trim(lines[j])[i]))
  {
    var ts := TrimLines(lines);
    c := LoadTrimmed(ts);
  }

  /** The second loop of `loadCovers`, on the trimmed lines `ts`. */
  method LoadTrimmed(ts: seq<string>) returns (c: IM.IntMatrix?)
    ensures c == null <==> |ts| == 0 || exists j :: 0 <= j < |ts| && !LineLoadable(ts[j], |ts[0]|)
    ensures c != null ==> (fresh(c) && fresh(c.data) && c.Valid() && c.nrow == |ts[0]| && c.ncol == |ts| &&
              forall i: nat, j: nat :: i < c.nrow && j < c.ncol ==> i < |ts[j]| && c.At(i, j) == DigitValue(ts[j][i]))
  {
    if |ts| == 0 {
      return null;
    }
    var n := |ts[0]|;
    var m := new IM.IntMatrix(n, |ts|);
    var j := 0;
    while j < |ts|
      invariant 0 <= j <= |ts|
      invariant m.Valid() && m.nrow == n && m.ncol == |ts| && fresh(m) && fresh(m.data)
      invariant forall j' :: 0 <= j' < j ==> LineLoadable(ts[j'], n)
      invariant forall i: nat, j': nat :: i < n && j' < j ==> i < |ts[j']| && m.At(i, j') == DigitValue(ts[j'][i])
    {
      var ok := FillColumn(m, ts[j], j);
      if !ok {
        return null;
      }
      j := j + 1;
    }
    c := m;
  }

  /** The inner loop of `loadCovers`: column `j` gets the digits of line `s`;
      `false` where `substring` or `parseInt` throws. */
  method FillColumn(m: IM.IntMatrix, s: string, j: nat) returns (ok: bool)
    requires m.Valid() && j < m.ncol
    modifies m.data
    ensures ok <==> LineLoadable(s, m.nrow)
    ensures ok ==> forall i: nat :: i < m.nrow ==> i < |s| && m.At(i, j) == DigitValue(s[i])
    ensures forall i: nat, j': nat :: i < m.nrow && j' < m.ncol && j' != j ==> m.At(i, j') == old(m.At(i, j'))
  {
    var i := 0;
    while i < m.nrow
      invariant 0 <= i <= m.nrow && (i == 0 || i <= |s|)
      invariant forall i': nat :: i' < i ==> i' < |s| && '0' <= s[i'] <= '9' && m.At(i', j) == DigitValue(s[i'])
      invariant forall i2: nat, j': nat :: i2 < m.nrow && j' < m.ncol && j' != j ==> m.At(i2, j') == old(m.At(i2, j'))
    {
      if i >= |s| || !('0' <= s[i] <= '9') {
        return false;
      }
      CM.IndexInRange(m.nrow, m.ncol, i, j);
      m.Set(i, j, DigitValue(s[i]));
      i := i + 1;
    }
    ok := true;
  }

  // ---------------------------------------------------------------------
  // The cover matrix as a value: `cells` is its column-major data
  // ---------------------------------------------------------------------

  /** Cell (r, c) of an `nrow`-row column-major matrix, 0 outside it. */
  ghost function CellOf(cells: seq<int>, nrow: nat, r: int, c: int): int
  {
    var k := CM.Index(nrow, r, c);
    if 0 <= r < nrow && 0 <= k < |cells| then cells[k] else 0
  }

  /** Every cell of an `nrow` by `ncol` matrix is 0 or 1. */
  ghost predicate BinaryCells(cells: seq<int>, nrow: nat, ncol: nat)
  {
    forall r, c :: 0 <= r < nrow && 0 <= c < ncol ==> CellOf(cells, nrow, r, c) == 0 || CellOf(cells, nrow, r, c) == 1
  }

  ghost predicate InColumns(itemset: seq<int>, ncol: nat)
  {
    forall j :: 0 <= j < |itemset| ==> 0 <= itemset[j] < ncol
  }

  /** Which of the chosen subgroups cover `row`: bit `j` says whether the
      cell of column `itemset[j]` is 1. */
  ghost function RowBitsOf(cells: seq<int>, nrow: nat, row: nat, itemset: seq<int>): (bits: seq<bool>)
    ensures |bits| == |itemset|
  {
    if itemset == [] then []
    else RowBitsOf(cells, nrow, row, itemset[..|itemset| - 1]) + [CellOf(cells, nrow, row, itemset[|itemset| - 1]) == 1]
  }

  lemma {:induction false} RowBitsOfAt(cells: seq<int>, nrow: nat, row: nat, itemset: seq<int>, j: nat)
    requires j < |itemset|
    ensures RowBitsOf(cells, nrow, row, itemset)[j] <==> CellOf(cells, nrow, row, itemset[j]) == 1
  {
    if j < |itemset| - 1 {
      RowBitsOfAt(cells, nrow, row, itemset[..|itemset| - 1], j);
    }
  }

  /** The cover patterns of the first `n` rows. */
  ghost function PatternsOf(cells: seq<int>, nrow: nat, itemset: seq<int>, n: nat): (p: seq<nat>)
    ensures |p| == n
  {
    if n == 0 then [] else PatternsOf(cells, nrow, itemset, n - 1) + [PatternOf(RowBitsOf(cells, nrow, n - 1, itemset))]
  }

  /** Row `row` has the `row`-th pattern, and it has a counter. */
  lemma {:induction false} PatternsOfAt(cells: seq<int>, nrow: nat, itemset: seq<int>, n: nat, row: nat)
    requires row < n
    ensures PatternsOf(cells, nrow, itemset, n)[row] == PatternOf(RowBitsOf(cells, nrow, row, itemset))
    ensures PatternsOf(cells, nrow, itemset, n)[row] < Pow2(|itemset|)
  {
    PatternBound(RowBitsOf(cells, nrow, row, itemset));
    if row < n - 1 {
      PatternsOfAt(cells, nrow, itemset, n - 1, row);
    }
  }

  /** The counters of the patterns of all rows count them, and add up to
      the number of rows. */
  lemma CountsOf(patterns: seq<nat>, size: nat, cells: seq<int>, nrow: nat, itemset: seq<int>)
    requires size == Pow2(|itemset|) && patterns == PatternsOf(cells, nrow, itemset, nrow)
    ensures Counts(Histogram(patterns, size), patterns)
    ensures SumSeq(Histogram(patterns, size)) == nrow
  {
    HistogramCounts(patterns, size);
    forall r | 0 <= r < nrow ensures patterns[r] < size {
      PatternsOfAt(cells, nrow, itemset, nrow, r);
    }
    HistogramSum(patterns, size);
  }

  /** `loadCovers` followed by `rearrangeColumns(covers, order)`: column `c`
      of the result is line `order[c]` of the cover file. */
  method LoadArranged(lines: seq<string>, order: seq<int>) returns (c: IM.IntMatrix?)
    requires |order| == |lines| && forall k :: 0 <= k < |order| ==> 0 <= order[k] < |lines|
    ensures c == null <==> !Loadable(lines)
    ensures c != null ==> (fresh(c) && fresh(c.data) && c.Valid() && c.nrow == |Trim(lines[0])| && c.ncol == |lines| &&
              forall r: nat, j: nat :: r < c.nrow && j < c.ncol ==>
                r < |Trim(lines[order[j]])| && c.At(r, j) == DigitValue(Trim(lines[order[j]])[r]))
  {
    var loaded := LoadCovers(lines);
    if loaded == null {
      return null;
    }
    c := Utils.RearrangeColumns(loaded, order);
    forall r: nat, j: nat | r < c.nrow && j < c.ncol
      ensures r < |Trim(lines[order[j]])| && c.At(r, j) == DigitValue(Trim(lines[order[j]])[r])
    {
      assert c.At(r, j) == loaded.At(r, order[j]);
    }
  }

  /** The row loop of fillCounters: one count per pattern, each row adding
      one to the counter of its pattern. */
  method CountRows(m: IM.IntMatrix, itemset: seq<int>, ghost cells: seq<int>, size: nat) returns (counts: seq<int>)
    requires m.Valid() && cells == m.data[..] && BinaryCells(cells, m.nrow, m.ncol)
    requires InColumns(itemset, m.ncol) && size == Pow2(|itemset|)
    ensures counts == Histogram(PatternsOf(cells, m.nrow, itemset, m.nrow), size)
  {
    ghost var patterns := PatternsOf(cells, m.nrow, itemset, m.nrow);
    counts := seq(size, _ => 0);
    assert counts == Histogram(patterns[..0], size);
    var row := 0;
    while row < m.nrow
      invariant 0 <= row <= m.nrow
      invariant counts == Histogram(patterns[..row], size)
    {
      var bucket := RowPattern(m, row, itemset, cells);
      PatternsOfAt(cells, m.nrow, itemset, m.nrow, row);
      HistogramStep(patterns, row, size, counts, bucket);
      counts := counts[bucket := counts[bucket] + 1];
      row := row + 1;
    }
    assert patterns[..row] == patterns;
  }

  /** The inner loop of `fillCounters`: `bucket |= covers.get(row,
      itemset[j]) << j` for every `j`. */
  method RowPattern(m: IM.IntMatrix, row: nat, itemset: seq<int>, ghost cells: seq<int>) returns (bucket: nat)
    requires m.Valid() && cells == m.data[..] && BinaryCells(cells, m.nrow, m.ncol)
    requires row < m.nrow && InColumns(itemset, m.ncol)
    ensures bucket == PatternOf(RowBitsOf(cells, m.nrow, row, itemset))
  {
    bucket := 0;
    var j := 0;
    while j < |itemset|
      invariant 0 <= j <= |itemset|
      invariant bucket == PatternOf(RowBitsOf(cells, m.nrow, row, itemset[..j]))
    {
      CM.IndexInRange(m.nrow, m.ncol, row, itemset[j]);
      var cell := m.Get(row, itemset[j]);
      assert cell == CellOf(cells, m.nrow, row, itemset[j]);
      assert itemset[..j + 1][..j] == itemset[..j];
      PatternAppend(RowBitsOf(cells, m.nrow, row, itemset[..j]), cell == 1);
      bucket := OrCell(bucket, cell, j);
      j := j + 1;
    }
    assert itemset[..j] == itemset;
  }

  class IntCoverEvaluator {
    var maxSum: bool
    var origItem: seq<int>
    var quality: seq<int>
    var nrow: int
    var covers: IM.IntMatrix?

    /** The state after `init`: `nrow` is the row count of the covers. */
    ghost predicate Valid()
      reads this, covers
    {
      covers != null && covers.Valid() && nrow == covers.nrow
    }

    /** Every cell of the covers is 0 or 1. */
    ghost predicate Binary()
      reads this, covers, covers.data
      requires Valid()
    {
      BinaryCells(covers.data[..], covers.nrow, covers.ncol)
    }

    ghost predicate InRange(itemset: seq<int>)
      reads this, covers
      requires Valid()
    {
      InColumns(itemset, covers.ncol)
    }

    /** Which of the chosen subgroups cover `row`. */
    ghost function RowBits(row: nat, itemset: seq<int>): (bits: seq<bool>)
      reads this, covers, covers.data
      requires Valid() && row < covers.nrow && InRange(itemset)
      ensures |bits| == |itemset|
      ensures forall j :: 0 <= j < |itemset| ==> (bits[j] <==> covers.At(row, itemset[j]) == 1)
    {
      RowBitsAt(row, itemset);
      RowBitsOf(covers.data[..], covers.nrow, row, itemset)
    }

    /** A cell of the covers is the same cell of their data. */
    lemma AtCell(r: nat, c: nat)
      requires Valid() && r < covers.nrow && c < covers.ncol
      ensures covers.At(r, c) == CellOf(covers.data[..], covers.nrow, r, c)
      ensures Binary() ==> covers.At(r, c) == 0 || covers.At(r, c) == 1
    {
      CM.IndexInRange(covers.nrow, covers.ncol, r, c);
    }

    lemma RowBitsAt(row: nat, itemset: seq<int>)
      requires Valid() && row < covers.nrow && InRange(itemset)
      ensures forall j :: 0 <= j < |itemset| ==>
                (RowBitsOf(covers.data[..], covers.nrow, row, itemset)[j] <==> covers.At(row, itemset[j]) == 1)
    {
      forall j | 0 <= j < |itemset|
        ensures RowBitsOf(covers.data[..], covers.nrow, row, itemset)[j] <==> covers.At(row, itemset[j]) == 1
      {
        RowBitsOfAt(covers.data[..], covers.nrow, row, itemset, j);
        AtCell(row, itemset[j]);
      }
    }

    /** The cover patterns of the first `n` rows. */
    ghost function Patterns(itemset: seq<int>, n: nat): (p: seq<nat>)
      reads this, covers, covers.data
      requires Valid() && n <= covers.nrow && InRange(itemset)
      ensures |p| == n
    {
      PatternsOf(covers.data[..], covers.nrow, itemset, n)
    }

    /** The sum of the first `n` cells of column `item`. */
    ghost function ColumnSum(item: int, n: nat): int
      reads this, covers, covers.data
      requires Valid() && 0 <= item < covers.ncol && n <= covers.nrow
    {
      if n == 0 then 0 else ColumnSum(item, n - 1) + covers.At(n - 1, item)
    }

    /** The rows below `n` that subgroup `item` covers. */
    ghost function OnesBelow(item: int, n: nat): (s: set<int>)
      reads this, covers, covers.data
      requires Valid() && 0 <= item < covers.ncol && n <= covers.nrow
      ensures forall r :: r in s <==> 0 <= r < n && covers.At(r, item) == 1
    {
      if n == 0 then {} else OnesBelow(item, n - 1) + (if covers.At(n - 1, item) == 1 then {n - 1} else {})
    }

    constructor ()
      ensures !maxSum && origItem == [] && quality == [] && nrow == 0 && covers == null
    {
      maxSum := false;
      origItem := [];
      quality := [];
      nrow := 0;
      covers := null;
    }

    /** `init`: the qualities renumbered by `sortedIdx`, then the covers
        loaded from the lines of the cover file with their columns moved
        along; `false` where `loadCovers` throws. */
    method Init(q: seq<int>, lines: seq<string>) returns (ok: bool)
      requires |q| == |lines|
      modifies this
      ensures maxSum == old(maxSum)
      ensures origItem == Utils.SortedIdx(q, maxSum)
      ensures |quality| == |q| && forall i :: 0 <= i < |q| ==> quality[i] == q[origItem[i]]
      ensures ok <==> Loadable(lines)
      ensures !ok ==> covers == old(covers) && nrow == old(nrow)
      ensures ok ==> (Valid() && fresh(covers) && nrow == |Trim(lines[0])| && covers.ncol == |lines| &&
                forall r: nat, c: nat :: r < nrow && c < covers.ncol ==>
                  r < |Trim(lines[origItem[c]])| && covers.At(r, c) == DigitValue(Trim(lines[origItem[c]])[r]))
    {
      origItem := Utils.SortedIdx(q, maxSum);
      quality := Utils.Permute(q, origItem);
      var c := LoadArranged(lines, origItem);
      if c == null {
        return false;
      }
      covers := c;
      nrow := c.nrow;
      ok := true;
    }

    /** `countOnes(item)`: the column sum, which on 0/1 covers is the number
        of rows the subgroup covers. */
    method CountOnes(item: int) returns (ones: int)
      requires Valid() && 0 <= item < covers.ncol
      ensures ones == ColumnSum(item, nrow)
      ensures Binary() ==> ones == |OnesBelow(item, nrow)|
    {
      ones := 0;
      var i := 0;
      while i < covers.nrow
        invariant 0 <= i <= covers.nrow
        invariant ones == ColumnSum(item, i)
      {
        CM.IndexInRange(covers.nrow, covers.ncol, i, item);
        ones := ones + covers.Get(i, item);
        i := i + 1;
      }
      if Binary() {
        ColumnSumOnes(item, nrow);
      }
    }

    /** On 0/1 covers a column sum counts the covered rows. */
    lemma {:induction false} ColumnSumOnes(item: int, n: nat)
      requires Valid() && Binary() && 0 <= item < covers.ncol && n <= covers.nrow
      ensures ColumnSum(item, n) == |OnesBelow(item, n)|
    {
      if n > 0 {
        ColumnSumOnes(item, n - 1);
        AtCell(n - 1, item);
        assert n - 1 !in OnesBelow(item, n - 1);
      }
    }

    /** `fillCounters(itemset)`: `counter[b]` is the number of rows whose
        cover pattern is `b`; there are `2^|itemset|` counters and they add
        up to the number of rows. */
    method FillCounters(itemset: seq<int>) returns (counter: array<int>)
      requires Valid() && Binary() && InRange(itemset) && |itemset| <= 30
      ensures fresh(counter) && counter[..] == Histogram(Patterns(itemset, nrow), Pow2(|itemset|))
      ensures counter.Length == Pow2(|itemset|)
      ensures Counts(counter[..], Patterns(itemset, nrow))
      ensures SumSeq(counter[..]) == nrow
    {
      var m := covers;
      ghost var cells := m.data[..];
      var size := Pow2(|itemset|);
      CountsOf(PatternsOf(cells, m.nrow, itemset, m.nrow), size, cells, m.nrow, itemset);
      var counts := CountRows(m, itemset, cells, size);
      counter := new int[size](i requires 0 <= i < size => counts[i]);
      assert counter[..] == counts;
    }

    /** Bit `j` of a row's pattern says whether subgroup `itemset[j]` covers
        the row. */
    lemma BucketBit(itemset: seq<int>, row: nat, j: nat)
      requires Valid() && InRange(itemset) && row < nrow && j < |itemset|
      ensures Bit(Patterns(itemset, nrow)[row], j) <==> covers.At(row, itemset[j]) == 1
    {
      PatternsOfAt(covers.data[..], covers.nrow, itemset, nrow, row);
      PatternBit(RowBits(row, itemset), j);
    }
  }
}
