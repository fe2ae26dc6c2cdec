/** The two subgroup-cover oracles on the same data: a cover file of 0/1
    lines of one length, read as a digit matrix by the integer variant and
    as bit sets by the bit variant, gives the same column counts and the
    same pattern histograms. */
module CoverAgreement {
  import opened SubgroupSetEvaluator
  import IC = SubgroupSetEvaluatorIntCover
  import BC = SubgroupSetEvaluatorBitCover

  /** A cover file both variants read alike: at least one line, and every
      trimmed line made of `'0'` and `'1'` and as long as the first. */
  predicate UniformBinary(lines: seq<string>)
  {
    |lines| > 0 &&
    forall j :: 0 <= j < |lines| ==> IsBinaryLine(Trim(lines[j])) && |Trim(lines[j])| == |Trim(lines[0])|
  }

  /** Such a file loads without an exception in the integer variant. */
  lemma UniformLoadable(lines: seq<string>)
    requires UniformBinary(lines)
    ensures IC.Loadable(lines)
  {
    forall j | 0 <= j < |lines| ensures IC.LineLoadable(Trim(lines[j]), |Trim(lines[0])|) {
      assert IsBinaryLine(Trim(lines[j]));
    }
  }

  /** When the matrix cells and the bit sets say the same about every row,
      the two variants give every row the same cover pattern. */
  lemma {:induction false} PatternsAgree(cells: seq<int>, nrow: nat, covers: seq<set<int>>, itemset: seq<int>, n: nat)
    requires n <= nrow && BC.InItems(itemset, |covers|)
    requires forall r, j :: 0 <= r < nrow && 0 <= j < |itemset| ==>
               (IC.CellOf(cells, nrow, r, itemset[j]) == 1 <==> r in covers[itemset[j]])
    ensures IC.PatternsOf(cells, nrow, itemset, n) == BC.BitPatterns(covers, itemset, n)
  {
    if n > 0 {
      PatternsAgree(cells, nrow, covers, itemset, n - 1);
      RowAgree(cells, nrow, covers, itemset, n - 1);
    }
  }

  /** One row: the matrix bits and the bit-set bits are the same. */
  lemma RowAgree(cells: seq<int>, nrow: nat, covers: seq<set<int>>, itemset: seq<int>, r: nat)
    requires r < nrow && BC.InItems(itemset, |covers|)
    requires forall r, j :: 0 <= r < nrow && 0 <= j < |itemset| ==>
               (IC.CellOf(cells, nrow, r, itemset[j]) == 1 <==> r in covers[itemset[j]])
    ensures IC.RowBitsOf(cells, nrow, r, itemset) == BC.CoverBits(covers, r, itemset)
  {
    forall j | 0 <= j < |itemset|
      ensures IC.RowBitsOf(cells, nrow, r, itemset)[j] == BC.CoverBits(covers, r, itemset)[j]
    {
      IC.RowBitsOfAt(cells, nrow, r, itemset, j);
      BC.CoverBitsAt(covers, r, itemset, j);
    }
  }

  /** The trimmed lines of such a file. */
  predicate UniformBinaryTrimmed(ts: seq<string>)
  {
    |ts| > 0 && forall j :: 0 <= j < |ts| ==> IsBinaryLine(ts[j]) && |ts[j]| == |ts[0]|
  }

  /** One cell of a 0/1 line in both readings. */
  lemma CellAgree(line: string, r: int)
    requires IsBinaryLine(line) && 0 <= r < |line|
    ensures DigitValue(line[r]) == 0 || DigitValue(line[r]) == 1
    ensures DigitValue(line[r]) == 1 <==> r in Ones(line)
  {
  }

  /** What both `init`s leave behind on the trimmed lines `ts`: the same row
      count, a 0/1 matrix, and a cell that is 1 exactly where the row is in
      the bit set of its column. */
  lemma Agree(ic: IC.IntCoverEvaluator, bc: BC.BitCoverEvaluator, ts: seq<string>, order: seq<int>)
    requires UniformBinaryTrimmed(ts) && |order| == |ts| && forall i :: 0 <= i < |ts| ==> 0 <= order[i] < |ts|
    requires ic.Valid() && ic.nrow == |ts[0]| && ic.covers.ncol == |ts|
    requires forall r: nat, c: nat :: r < ic.nrow && c < ic.covers.ncol ==>
               r < |ts[order[c]]| && ic.covers.At(r, c) == DigitValue(ts[order[c]][r])
    requires bc.nrow == |ts[|ts| - 1]| && |bc.bitcovers| == |ts|
    requires forall i :: 0 <= i < |ts| ==> bc.bitcovers[i] == Ones(ts[order[i]])
    ensures bc.nrow == ic.nrow && ic.Binary()
    ensures forall c, r :: 0 <= c < |ts| && r in bc.bitcovers[c] ==> 0 <= r < ic.nrow
    ensures forall r, c :: 0 <= r < ic.nrow && 0 <= c < |ts| ==>
              (IC.CellOf(ic.covers.data[..], ic.nrow, r, c) == 1 <==> r in bc.bitcovers[c])
    ensures forall c :: 0 <= c < |ts| ==> ic.OnesBelow(c, ic.nrow) == bc.bitcovers[c]
  {
    forall r: nat, c: nat | r < ic.nrow && c < |ts|
      ensures ic.covers.At(r, c) == IC.CellOf(ic.covers.data[..], ic.nrow, r, c)
      ensures ic.covers.At(r, c) == 1 <==> r in bc.bitcovers[c]
      ensures ic.covers.At(r, c) == 0 || ic.covers.At(r, c) == 1
    {
      ic.AtCell(r, c);
      CellAgree(ts[order[c]], r);
    }
    assert ic.Binary();
    forall c | 0 <= c < |ts| ensures ic.OnesBelow(c, ic.nrow) == bc.bitcovers[c] {
      assert |ts[order[c]]| == ic.nrow;
      forall r ensures r in ic.OnesBelow(c, ic.nrow) <==> r in bc.bitcovers[c] {
        if r in bc.bitcovers[c] {
          assert 0 <= r < ic.nrow;
        }
      }
    }
  }

  /** `CoverTest`'s set-up: both oracles initialised from the same
      qualities and the same cover lines, with the same `maxSum`. */
  method InitBoth(q: seq<int>, lines: seq<string>, maxSum: bool) returns (ic: IC.IntCoverEvaluator, bc: BC.BitCoverEvaluator)
    requires |q| == |lines| && UniformBinary(lines)
    ensures fresh(ic) && fresh(bc) && fresh(ic.covers)
    ensures ic.Valid() && ic.Binary() && ic.covers.ncol == |lines| && |bc.bitcovers| == |lines| && bc.nrow == ic.nrow
    ensures forall c, r :: 0 <= c < |lines| && r in bc.bitcovers[c] ==> 0 <= r < ic.nrow
    ensures forall r, c :: 0 <= r < ic.nrow && 0 <= c < |lines| ==>
              (IC.CellOf(ic.covers.data[..], ic.nrow, r, c) == 1 <==> r in bc.bitcovers[c])
    ensures forall c :: 0 <= c < |lines| ==> ic.OnesBelow(c, ic.nrow) == bc.bitcovers[c]
  {
    ic := new IC.IntCoverEvaluator();
    ic.maxSum := maxSum;
    UniformLoadable(lines);
    var ok := ic.Init(q, lines);
    bc := new BC.BitCoverEvaluator();
    bc.maxSum := maxSum;
    bc.Init(q, lines);
    ghost var ts := seq(|lines|, j requires 0 <= j < |lines| => Trim(lines[j]));
    assert UniformBinaryTrimmed(ts);
    Agree(ic, bc, ts, ic.origItem);
  }

  /** `CoverTest`: on the same data, `countOnes(item)`, on which
      `submodularFnc(item)` rests, and `fillCounters(itemset)`, on which
      `submodularFnc(itemset)` rests, give equal results in both oracles. */
  method CompareOracles(q: seq<int>, lines: seq<string>, maxSum: bool, item: int, itemset: seq<int>)
      returns (ones: int, bitOnes: int, counter: array<int>, bitCounter: array<int>)
    requires |q| == |lines| && UniformBinary(lines)
    requires 0 <= item < |lines| && BC.InItems(itemset, |lines|) && |itemset| <= 30
    ensures ones == bitOnes && counter[..] == bitCounter[..]
  {
    var ic, bc := InitBoth(q, lines, maxSum);
    ones := ic.CountOnes(item);
    bitOnes := bc.CountOnes(item);
    assert ones == bitOnes;
    PatternsAgree(ic.covers.data[..], ic.nrow, bc.bitcovers, itemset, ic.nrow);
    counter := ic.FillCounters(itemset);
    bitCounter := bc.FillCounters(itemset);
  }
}
