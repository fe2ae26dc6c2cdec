/** SubgroupSetEvaluatorBitCover: the subgroup oracle whose covers are bit
    sets, one per subgroup, holding the data rows the subgroup covers. */
module SubgroupSetEvaluatorBitCover {
  import Utils
  import opened SubgroupSetEvaluator

  /** `loadBitCovers` on one trimmed line: the positions of `'1'`. */
  method ParseBitLine(cover: string) returns (bs: set<int>)
    ensures bs == Ones(cover)
  {
    bs := {};
    var i := 0;
    while i < |cover|
      invariant 0 <= i <= |cover|
      invariant bs == Ones(cover[..i])
    {
      OnesStep(cover, i);
      if cover[i] == '1' {
        bs := bs + {i};
      }
      i := i + 1;
    }
    assert cover[..i] == cover;
  }

  lemma OnesStep(s: string, i: nat)
    requires i < |s|
    ensures Ones(s[..i + 1]) == Ones(s[..i]) + if s[i] == '1' then {i} else {}
  {
    assert s[..i + 1][..i] == s[..i];
  }

  /** The loop of `loadBitCovers` on the trimmed lines `ts`: one bit set
      per line and the length of the last line, which Java assigns to
      `nrow` on every line; `nrow0` stays when there are no lines. */
  method ParseLines(ts: seq<string>, nrow0: nat) returns (bc: seq<set<int>>, last: nat)
    ensures last == if ts == [] then nrow0 else |ts[|ts| - 1]|
    ensures |bc| == |ts| && forall j :: 0 <= j < |ts| ==> bc[j] == Ones(ts[j])
  {
    last := nrow0;
    bc := [];
    var j := 0;
    while j < |ts|
      invariant 0 <= j <= |ts|
      invariant last == if j == 0 then nrow0 else |ts[j - 1]|
      invariant |bc| == j && forall j' :: 0 <= j' < j ==> bc[j'] == Ones(ts[j'])
    {
      var bs := ParseBitLine(ts[j]);
      last := |ts[j]|;
      bc := bc + [bs];
      j := j + 1;
    }
  }

  /** `init`'s loop: `result[i] = bc[order[i]]`. */
  method Arrange(bc: seq<set<int>>, order: seq<int>) returns (result: seq<set<int>>)
    requires |order| == |bc| && forall i :: 0 <= i < |order| ==> 0 <= order[i] < |bc|
    ensures |result| == |bc| && forall i :: 0 <= i < |bc| ==> result[i] == bc[order[i]]
  {
    result := [];
    var i := 0;
    while i < |bc|
      invariant 0 <= i <= |bc|
      invariant |result| == i && forall i' :: 0 <= i' < i ==> result[i'] == bc[order[i']]
    {
      result := result + [bc[order[i]]];
      i := i + 1;
    }
  }

  /** Bit `j` says whether subgroup `itemset[j]` covers `row`. */
  function CoverBits(covers: seq<set<int>>, row: int, itemset: seq<int>): (bits: seq<bool>)
    ensures |bits| == |itemset|
  {
    if itemset == [] then []
    else
      var item := itemset[|itemset| - 1];
      CoverBits(covers, row, itemset[..|itemset| - 1]) + [0 <= item < |covers| && row in covers[item]]
  }

  lemma {:induction false} CoverBitsAt(covers: seq<set<int>>, row: int, itemset: seq<int>, j: nat)
    requires j < |itemset| && 0 <= itemset[j] < |covers|
    ensures CoverBits(covers, row, itemset)[j] <==> row in covers[itemset[j]]
  {
    if j < |itemset| - 1 {
      CoverBitsAt(covers, row, itemset[..|itemset| - 1], j);
    }
  }

  /** The cover patterns of the first `n` rows. */
  function BitPatterns(covers: seq<set<int>>, itemset: seq<int>, n: nat): (p: seq<nat>)
    ensures |p| == n
    ensures forall r :: 0 <= r < n ==> p[r] == PatternOf(CoverBits(covers, r, itemset))
  {
    if n == 0 then [] else BitPatterns(covers, itemset, n - 1) + [PatternOf(CoverBits(covers, n - 1, itemset))]
  }

  /** Every row that a subgroup of `itemset` covers is below `nrow`, so
      `bucket[row]` is in range. */
  ghost predicate RowsBelow(covers: seq<set<int>>, itemset: seq<int>, nrow: nat)
  {
    forall j, r :: 0 <= j < |itemset| && 0 <= itemset[j] < |covers| && r in covers[itemset[j]] ==> 0 <= r < nrow
  }

  /** The inner loop of `fillCounters`: `bucket[row] |= 1 << j` for every
      row of `rows`, which the bit set streams in increasing order. */
  method SetBit(bucket: array<nat>, rows: set<int>, j: nat)
    requires forall r :: r in rows ==> 0 <= r < bucket.Length
    modifies bucket
    ensures forall r :: 0 <= r < bucket.Length ==>
              bucket[r] == if r in rows then OrBit(old(bucket[r]), j) else old(bucket[r])
  {
    var row := 0;
    while row < bucket.Length
      invariant 0 <= row <= bucket.Length
      invariant forall r :: 0 <= r < bucket.Length ==>
                  bucket[r] == if r in rows && r < row then OrBit(old(bucket[r]), j) else old(bucket[r])
    {
      if row in rows {
        bucket[row] := OrBit(bucket[row], j);
      }
      row := row + 1;
    }
  }

  /** After bit `j` is set on the rows of subgroup `itemset[j]`, each bucket
      is the pattern of one more subgroup. */
  lemma NextPattern(covers: seq<set<int>>, itemset: seq<int>, j: nat, row: int, before: nat, after: nat)
    requires j < |itemset| && 0 <= itemset[j] < |covers|
    requires before == PatternOf(CoverBits(covers, row, itemset[..j]))
    requires after == if row in covers[itemset[j]] then OrBit(before, j) else before
    ensures after == PatternOf(CoverBits(covers, row, itemset[..j + 1]))
  {
    assert itemset[..j + 1][..j] == itemset[..j];
    PatternAppend(CoverBits(covers, row, itemset[..j]), row in covers[itemset[j]]);
  }

  /** The first loop of `fillCounters`: `bucket[row]` is the cover pattern
      of `row`. */
  method FillBuckets(covers: seq<set<int>>, itemset: seq<int>, nrow: nat) returns (bucket: array<nat>)
    requires InItems(itemset, |covers|) && RowsBelow(covers, itemset, nrow)
    ensures fresh(bucket) && bucket[..] == BitPatterns(covers, itemset, nrow)
  {
    bucket := new nat[nrow](_ => 0);
    var i := 0;
    while i < |itemset|
      invariant 0 <= i <= |itemset|
      invariant forall r :: 0 <= r < nrow ==> bucket[r] == PatternOf(CoverBits(covers, r, itemset[..i]))
    {
      ghost var before := bucket[..];
      SetBit(bucket, covers[itemset[i]], i);
      forall r | 0 <= r < nrow
        ensures bucket[r] == PatternOf(CoverBits(covers, r, itemset[..i + 1]))
      {
        NextPattern(covers, itemset, i, r, before[r], bucket[r]);
      }
      i := i + 1;
    }
    assert itemset[..i] == itemset;
    assert bucket[..] == BitPatterns(covers, itemset, nrow);
  }

  ghost predicate InItems(itemset: seq<int>, n: nat)
  {
    forall j :: 0 <= j < |itemset| ==> 0 <= itemset[j] < n
  }

  /** The second loop of `fillCounters`: `counter[bucket[i]]++`. */
  method CountBuckets(bucket: array<nat>, size: nat) returns (counter: array<int>)
    requires forall i :: 0 <= i < bucket.Length ==> bucket[i] < size
    ensures fresh(counter) && counter[..] == Histogram(bucket[..], size)
  {
    ghost var patterns := bucket[..];
    var counts := seq(size, _ => 0);
    assert counts == Histogram(patterns[..0], size);
    var i := 0;
    while i < bucket.Length
      invariant 0 <= i <= bucket.Length
      invariant counts == Histogram(patterns[..i], size)
    {
      HistogramStep(patterns, i, size, counts, bucket[i]);
      counts := counts[bucket[i] := counts[bucket[i]] + 1];
      i := i + 1;
    }
    assert patterns[..i] == patterns;
    counter := new int[size](k requires 0 <= k < size => counts[k]);
    assert counter[..] == counts;
  }

  class BitCoverEvaluator {
    var maxSum: bool
    var origItem: seq<int>
    var quality: seq<int>
    var nrow: nat
    var bitcovers: seq<set<int>>

    constructor ()
      ensures !maxSum && origItem == [] && quality == [] && nrow == 0 && bitcovers == []
    {
      maxSum := false;
      origItem := [];
      quality := [];
      nrow := 0;
      bitcovers := [];
    }

    /** `loadBitCovers`: one bit set per line, and `nrow` the trimmed length
        of the last line (left alone when there are no lines). */
    method LoadBitCovers(lines: seq<string>) returns (bc: seq<set<int>>)
      modifies this
      ensures maxSum == old(maxSum) && origItem == old(origItem) && quality == old(quality)
      ensures bitcovers == old(bitcovers)
      ensures nrow == if lines == [] then old(nrow) else |Trim(lines[|lines| - 1])|
      ensures |bc| == |lines| && forall j :: 0 <= j < |lines| ==> bc[j] == Ones(Trim(lines[j]))
    {
      var ts := TrimLines(lines);
      var last;
      bc, last := ParseLines(ts, nrow);
      nrow := last;
    }

    /** `init`: the qualities renumbered by `sortedIdx`, then the bit covers
        loaded and moved along with them. */
    method Init(q: seq<int>, lines: seq<string>)
      requires |q| == |lines|
      modifies this
      ensures maxSum == old(maxSum)
      ensures origItem == Utils.SortedIdx(q, maxSum)
      ensures |quality| == |q| && forall i :: 0 <= i < |q| ==> quality[i] == q[origItem[i]]
      ensures nrow == if lines == [] then old(nrow) else |Trim(lines[|lines| - 1])|
      ensures |bitcovers| == |lines| &&
              forall i :: 0 <= i < |lines| ==> bitcovers[i] == Ones(Trim(lines[origItem[i]]))
    {
      origItem := Utils.SortedIdx(q, maxSum);
      quality := Utils.Permute(q, origItem);
      var bc := LoadBitCovers(lines);
      bitcovers := Arrange(bc, origItem);
    }

    /** `countOnes(item)`: the number of rows subgroup `item` covers. */
    function CountOnes(item: int): (ones: int)
      reads this
      requires 0 <= item < |bitcovers|
      ensures ones == |bitcovers[item]|
    {
      |bitcovers[item]|
    }

    /** `fillCounters(itemset)`: `counter[b]` is the number of rows whose
        cover pattern is `b`; there are `2^|itemset|` counters and they add
        up to the number of rows. */
    method FillCounters(itemset: seq<int>) returns (counter: array<int>)
      requires InItems(itemset, |bitcovers|) && RowsBelow(bitcovers, itemset, nrow) && |itemset| <= 30
      ensures fresh(counter) && counter[..] == Histogram(BitPatterns(bitcovers, itemset, nrow), Pow2(|itemset|))
      ensures counter.Length == Pow2(|itemset|)
      ensures Counts(counter[..], BitPatterns(bitcovers, itemset, nrow))
      ensures SumSeq(counter[..]) == nrow
    {
      var bc := bitcovers;
      var n := nrow;
      var bucket := FillBuckets(bc, itemset, n);
      ghost var patterns := bucket[..];
      forall r | 0 <= r < n ensures patterns[r] < Pow2(|itemset|) {
        PatternBound(CoverBits(bc, r, itemset));
      }
      HistogramCounts(patterns, Pow2(|itemset|));
      HistogramSum(patterns, Pow2(|itemset|));
      counter := CountBuckets(bucket, Pow2(|itemset|));
    }
  }
}
