/**
 * The stream natives `range`, `limit`, `first` and `last`, on finite
 * streams of outputs. An output is `Ok` with a value or `Err` with an
 * error; errors travel in the stream like values.
 */
module NativeStream {
  import opened Wrappers

  /** The integers of the half-open interval `l..u`, in increasing order. */
  function Range(l: int, u: int): seq<int>
    decreases u - l
  {
    if l < u then [l] + Range(l + 1, u) else []
  }

  /** `range(l; u)` counts up from `l` to just below `u`, and is empty when `l >= u`. */
  lemma {:induction false} RangeValues(l: int, u: int)
    ensures |Range(l, u)| == if l < u then u - l else 0
    ensures forall i | 0 <= i < |Range(l, u)| :: Range(l, u)[i] == l + i
    decreases u - l
  {
    if l < u {
      RangeValues(l + 1, u);
    }
  }

  /** The outputs of `range(l; u)` are exactly the integers `n` with `l <= n < u`, strictly increasing. */
  lemma RangeMembers(l: int, u: int)
    ensures forall n :: n in Range(l, u) <==> l <= n < u
    ensures forall i, j | 0 <= i < j < |Range(l, u)| :: Range(l, u)[i] < Range(l, u)[j]
  {
    RangeValues(l, u);
    forall n | l <= n < u
      ensures n in Range(l, u)
    {
      assert Range(l, u)[n - l] == n;
    }
  }

  /**
   * `range` over a stream of bounds: each failed pair of bounds yields its
   * error once, and each pair `(l, u)` yields the integers of `l..u`.
   */
  function RangeStream<E>(bounds: seq<Result<(int, int), E>>): (r: seq<Result<int, E>>)
  {
    if bounds == [] then []
    else
      (match bounds[0]
       case Err(e) => [Err(e)]
       case Ok((l, u)) => OkAll(Range(l, u)))
      + RangeStream(bounds[1..])
  }

  /** Each value as a successful output. */
  function OkAll<T, E>(xs: seq<T>): (r: seq<Result<T, E>>)
    ensures |r| == |xs|
    ensures forall i | 0 <= i < |xs| :: r[i] == Ok(xs[i])
  {
    seq(|xs|, i requires 0 <= i < |xs| => Ok(xs[i]))
  }

  /** A single pair of bounds yields exactly its interval. */
  lemma RangeStreamSingle<E>(l: int, u: int)
    ensures var r := RangeStream<E>([Ok((l, u))]);
      |r| == (if l < u then u - l else 0) && forall i | 0 <= i < |r| :: r[i] == Ok(l + i)
  {
    var b: seq<Result<(int, int), E>> := [Ok((l, u))];
    assert b[1..] == [];
    RangeValues(l, u);
  }

  /** The first `n` outputs of a stream, or all of them when it has fewer: `Iterator::take`. */
  function Take<T>(s: seq<T>, n: nat): seq<T>
  {
    if n == 0 || s == [] then [] else [s[0]] + Take(s[1..], n - 1)
  }

  lemma {:induction false} TakePrefix<T>(s: seq<T>, n: nat)
    ensures Take(s, n) == s[..if n < |s| then n else |s|]
  {
    if n != 0 && s != [] {
      TakePrefix(s[1..], n - 1);
    }
  }

  /** The count that `limit` takes: a negative count cannot become a `usize` and is 0. */
  function Pos(n: int): nat
  {
    if n < 0 then 0 else n
  }

  /**
   * `limit(n; f)`: for each output of `n`, its error once, or the first
   * `max(n, 0)` outputs of `f`.
   */
  function Limit<T, E>(ns: seq<Result<int, E>>, outs: seq<Result<T, E>>): seq<Result<T, E>>
  {
    if ns == [] then []
    else
      (match ns[0]
       case Err(e) => [Err(e)]
       case Ok(n) => Take(outs, Pos(n)))
      + Limit(ns[1..], outs)
  }

  /** For one count `n`, `limit` yields the first `max(n, 0)` outputs, so nothing for `n <= 0`. */
  lemma LimitSingle<T, E>(n: int, outs: seq<Result<T, E>>)
    ensures var m := if n <= 0 then 0 else if n < |outs| then n else |outs|;
      Limit([Ok(n)], outs) == outs[..m]
  {
    var ns: seq<Result<int, E>> := [Ok(n)];
    assert ns[1..] == [];
    TakePrefix(outs, Pos(n));
  }

  /** `first(f)`: at most the first output of `f`. */
  function First<T>(outs: seq<T>): (r: seq<T>)
  {
    Take(outs, 1)
  }

  lemma FirstOutput<T>(outs: seq<T>)
    ensures First(outs) == if outs == [] then [] else [outs[0]]
  {
    TakePrefix(outs, 1);
  }

  /**
   * The fold behind `last(f)`: remember the latest value; an error stops
   * the fold and is its result.
   */
  function LastFold<T, E>(outs: seq<Result<T, E>>, acc: Option<T>): Result<Option<T>, E>
  {
    if outs == [] then Ok(acc)
    else
      match outs[0]
      case Err(e) => Err(e)
      case Ok(x) => LastFold(outs[1..], Some(x))
  }

  /** `last(f)`: the error that stopped the fold, or the final output, or nothing. */
  function Last<T, E>(outs: seq<Result<T, E>>): seq<Result<T, E>>
  {
    match LastFold(outs, None)
    case Err(e) => [Err(e)]
    case Ok(None) => []
    case Ok(Some(y)) => [Ok(y)]
  }

  /** The error of the leftmost failed output. */
  function FirstFailure<T, E>(outs: seq<Result<T, E>>): Option<E>
  {
    if outs == [] then None else if outs[0].Err? then Some(outs[0].error) else FirstFailure(outs[1..])
  }

  lemma {:induction false} LastFoldResult<T, E>(outs: seq<Result<T, E>>, acc: Option<T>)
    ensures FirstFailure(outs).Some? ==> LastFold(outs, acc) == Err(FirstFailure(outs).value)
    ensures FirstFailure(outs).None? ==> forall i | 0 <= i < |outs| :: outs[i].Ok?
    ensures FirstFailure(outs).None? && outs != [] ==> LastFold(outs, acc) == Ok(Some(outs[|outs| - 1].value))
    ensures FirstFailure(outs).None? && outs == [] ==> LastFold(outs, acc) == Ok(acc)
  {
    if outs != [] && outs[0].Ok? {
      LastFoldResult(outs[1..], Some(outs[0].value));
      assert forall i | 1 <= i < |outs| :: outs[i] == outs[1..][i - 1];
    }
  }

  /**
   * `last(f)` yields at most one output: the first error if `f` fails,
   * otherwise the final output of `f`, and nothing when `f` yields nothing.
   */
  lemma LastOutput<T, E>(outs: seq<Result<T, E>>)
    ensures FirstFailure(outs).Some? ==> Last(outs) == [Err(FirstFailure(outs).value)]
    ensures FirstFailure(outs).None? ==> Last(outs) == if outs == [] then [] else [outs[|outs| - 1]]
  {
    LastFoldResult(outs, None);
  }
}
