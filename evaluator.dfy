/** Evaluator: the two objectives of a k-subset (the additive "sum" and the
    submodular value), the `maxSum` flag, the map from internal item
    numbers back to the caller's items, and the oracle call counters. */
module Evaluator {

  /** The abstract oracle methods as pure functions; they are what the
      search algorithms are parameterised by.  `submItem` and `sumItem` are
      the single-item overloads. */
  datatype Oracle = Oracle(
    numItems: nat,
    maxSum: bool,
    origItem: seq<int>,
    sumSet: seq<int> -> int,
    sumItem: int -> int,
    submSet: seq<int> -> int,
    submItem: int -> int)

  /** `actualItems(indexes)`: translates internal item numbers back through
      origItem (a null origItem is the empty sequence here, which admits only
      empty input, as in Java). */
  method ActualItems(origItem: seq<int>, indexes: seq<int>) returns (a: seq<int>)
    requires forall i :: 0 <= i < |indexes| ==> 0 <= indexes[i] < |origItem|
    ensures |a| == |indexes|
    ensures forall i :: 0 <= i < |a| ==> a[i] == origItem[indexes[i]]
  {
    var arr := new int[|indexes|];
    var i := 0;
    while i < arr.Length
      invariant 0 <= i <= arr.Length
      invariant forall t :: 0 <= t < i ==> arr[t] == origItem[indexes[t]]
    {
      arr[i] := origItem[indexes[i]];
      i := i + 1;
    }
    a := arr[..];
  }

  /** The state the abstract class keeps for its subclasses. */
  class Evaluator {
    var maxSum: bool
    var origItem: seq<int>
    var sumCalls: int
    var submCalls: int

    constructor ()
      ensures !maxSum && origItem == [] && sumCalls == 0 && submCalls == 0
    {
      maxSum := false;
      origItem := [];
      sumCalls := 0;
      submCalls := 0;
    }

    /** `init(options)`: maxSum is set exactly when the options hold "max". */
    method Init(options: map<string, string>)
      modifies this
      ensures maxSum <==> "max" in options
      ensures origItem == old(origItem) && sumCalls == old(sumCalls) && submCalls == old(submCalls)
    {
      maxSum := "max" in options;
    }

    /** `getStats()`: the two counters, in decimal, under their names. */
    function GetStats(): (stats: map<string, string>)
      reads this
      ensures stats.Keys == {"sumCalls", "submCalls"}
      ensures ParseInt(stats["sumCalls"]) == sumCalls
      ensures ParseInt(stats["submCalls"]) == submCalls
    {
      ParseIntToString(sumCalls);
      ParseIntToString(submCalls);
      map["sumCalls" := IntToString(sumCalls), "submCalls" := IntToString(submCalls)]
    }
  }

  // ---------------------------------------------------------------------
  // `String.valueOf(int)` and its inverse.

  function DigitChar(d: int): char
    requires 0 <= d < 10
  {
    ('0' as int + d) as char
  }

  predicate IsDigit(c: char)
  {
    '0' <= c <= '9'
  }

  function NatToString(n: nat): (s: string)
    ensures |s| >= 1 && forall i :: 0 <= i < |s| ==> IsDigit(s[i])
  {
    if n < 10 then [DigitChar(n)] else NatToString(n / 10) + [DigitChar(n % 10)]
  }

  /** The decimal form of n, with a leading '-' when n is negative. */
  function IntToString(n: int): string
  {
    if n < 0 then "-" + NatToString(-n) else NatToString(n)
  }

  function ParseNat(s: string): nat
    requires forall i :: 0 <= i < |s| ==> IsDigit(s[i])
  {
    if s == [] then 0
    else
      assert IsDigit(s[|s| - 1]);
      10 * ParseNat(s[..|s| - 1]) + (s[|s| - 1] as int - '0' as int)
  }

  function ParseInt(s: string): int
  {
    if |s| > 0 && s[0] == '-' && forall i :: 0 <= i < |s| - 1 ==> IsDigit(s[1..][i]) then -(ParseNat(s[1..]) as int)
    else if forall i :: 0 <= i < |s| ==> IsDigit(s[i]) then ParseNat(s)
    else 0
  }

  lemma {:induction false} ParseNatToString(n: nat)
    ensures ParseNat(NatToString(n)) == n
  {
    if n >= 10 {
      ParseNatToString(n / 10);
      var s := NatToString(n);
      assert s[..|s| - 1] == NatToString(n / 10);
    }
  }

  /** Decimal printing loses nothing: parsing gives the number back. */
  lemma ParseIntToString(n: int)
    ensures ParseInt(IntToString(n)) == n
  {
    var s := IntToString(n);
    if n < 0 {
      ParseNatToString(-n);
      assert s[1..] == NatToString(-n);
    } else {
      ParseNatToString(n);
      assert s[0] != '-';
    }
  }
}
