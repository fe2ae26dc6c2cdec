/** Skyline.parseArgs: the command line as `-flag value` pairs.  A flag
    stores its name (without the dash) with the empty value, a value right
    after a flag replaces that flag's value, and a value anywhere else is
    malformed: Java prints the offending token and exits, which here is a
    `Failure` carrying that token. */
module SkylineArgs {
  import opened Wrappers

  type Options = map<string, string>

  predicate IsFlag(token: string)
    requires token != []
  {
    token[0] == '-'
  }

  /** Token `i` is a value that no flag precedes. */
  predicate Malformed(args: seq<string>, i: int)
    requires forall t :: 0 <= t < |args| ==> args[t] != []
  {
    0 <= i < |args| && !IsFlag(args[i]) && (i == 0 || !IsFlag(args[i - 1]))
  }

  /** The options after the first `n` tokens, or the token Java reports. */
  function ParseUpTo(args: seq<string>, n: nat): (r: Result<Options, string>)
    requires n <= |args| && forall t :: 0 <= t < |args| ==> args[t] != []
  {
    if n == 0 then Success(map[])
    else
      match ParseUpTo(args, n - 1)
      case Failure(e) => Failure(e)
      case Success(m) =>
        var token := args[n - 1];
        if IsFlag(token) then Success(m[token[1..] := ""])
        else if n - 1 == 0 then Failure(token)
        else if IsFlag(args[n - 2]) then Success(m[args[n - 2][1..] := token])
        else Failure(args[n - 2])
  }

  /** `parseArgs(args)`; every token is non-empty, because Java reads its
      first character. */
  method ParseArgs(args: seq<string>) returns (r: Result<Options, string>)
    requires forall t :: 0 <= t < |args| ==> args[t] != []
    ensures r == ParseUpTo(args, |args|)
  {
    var options: Options := map[];
    var i := 0;
    while i < |args|
      invariant 0 <= i <= |args|
      invariant ParseUpTo(args, i) == Success(options)
    {
      var token := args[i];
      if token[0] == '-' {
        options := options[token[1..] := ""];
      } else {
        if i == 0 {
          FailureSticks(args, i + 1, |args|);
          return Failure(token);
        }
        var prevToken := args[i - 1];
        if prevToken[0] == '-' {
          options := options[prevToken[1..] := token];
        } else {
          FailureSticks(args, i + 1, |args|);
          return Failure(prevToken);
        }
      }
      i := i + 1;
    }
    r := Success(options);
  }

  /** Java exits at the first malformed token, so later tokens change
      nothing. */
  lemma {:induction false} FailureSticks(args: seq<string>, n: nat, n': nat)
    requires n <= n' <= |args| && forall t :: 0 <= t < |args| ==> args[t] != []
    requires ParseUpTo(args, n).Failure?
    ensures ParseUpTo(args, n') == ParseUpTo(args, n)
    decreases n' - n
  {
    if n < n' {
      FailureSticks(args, n + 1, n');
    }
  }

  /** Parsing fails exactly when some value has no flag right before it. */
  lemma {:induction false} FailsIffMalformed(args: seq<string>, n: nat)
    requires n <= |args| && forall t :: 0 <= t < |args| ==> args[t] != []
    ensures ParseUpTo(args, n).Failure? <==> exists i :: 0 <= i < n && Malformed(args, i)
  {
    if n > 0 {
      FailsIffMalformed(args, n - 1);
      if ParseUpTo(args, n - 1).Success? && ParseUpTo(args, n).Failure? {
        assert Malformed(args, n - 1);
      }
    }
  }

  /** The keys are exactly the flags, without their dash. */
  lemma {:induction false} KeysAreFlags(args: seq<string>, n: nat, key: string)
    requires n <= |args| && forall t :: 0 <= t < |args| ==> args[t] != []
    requires ParseUpTo(args, n).Success?
    ensures key in ParseUpTo(args, n).value <==> exists i :: 0 <= i < n && IsFlag(args[i]) && args[i][1..] == key
  {
    if n > 0 {
      KeysAreFlags(args, n - 1, key);
      if !IsFlag(args[n - 1]) {
        assert IsFlag(args[n - 2]);
      }
    }
  }

  /** A key's value is set by the last occurrence of its flag: the token
      right after it when that is a value, the empty string otherwise. */
  lemma {:induction false} LastFlagWins(args: seq<string>, n: nat, i: nat)
    requires n <= |args| && forall t :: 0 <= t < |args| ==> args[t] != []
    requires ParseUpTo(args, n).Success?
    requires i < n && IsFlag(args[i])
    requires forall i' :: i < i' < n && IsFlag(args[i']) ==> args[i'][1..] != args[i][1..]
    ensures args[i][1..] in ParseUpTo(args, n).value
    ensures ParseUpTo(args, n).value[args[i][1..]] == if i + 1 < n && !IsFlag(args[i + 1]) then args[i + 1] else ""
  {
    if i < n - 1 {
      LastFlagWins(args, n - 1, i);
      if !IsFlag(args[n - 1]) && n - 2 != i {
        assert IsFlag(args[n - 2]);
      }
    }
  }
}
