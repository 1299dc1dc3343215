/**
 * Computing the sort keys of an array's elements, as `sort_by` and
 * `group_by` do with `run_if_ok`: the key filter runs on the elements in
 * order, and once one key has failed, no further key is computed (each later
 * element gets the empty key) and the first error is kept.
 *
 * The key filter is a parameter `f`: for an element it gives either all of
 * its outputs (the key) or the first error among them.
 */
module NativeKeys {
  import opened Wrappers
  import Seqs

  /** The keys of the elements, in order, and the error that stopped the run, if any. */
  datatype KeyRun<V, E> = KeyRun(keys: seq<seq<V>>, err: Option<E>)

  /** The outcome of running the key filter on `xs` from left to right. */
  function RunKeys<V, E>(f: V -> Result<seq<V>, E>, xs: seq<V>): (r: KeyRun<V, E>)
    ensures |r.keys| == |xs|
  {
    if xs == [] then KeyRun([], None)
    else
      var p := RunKeys(f, xs[..|xs| - 1]);
      if p.err.Some? then KeyRun(p.keys + [[]], p.err)
      else
        match f(xs[|xs| - 1])
        case Ok(k) => KeyRun(p.keys + [k], None)
        case Err(e) => KeyRun(p.keys + [[]], Some(e))
  }

  /** The error of the leftmost element whose key fails. */
  function FirstError<V, E>(f: V -> Result<seq<V>, E>, xs: seq<V>): Option<E>
  {
    if xs == [] then None
    else
      match f(xs[0])
      case Err(e) => Some(e)
      case Ok(_) => FirstError(f, xs[1..])
  }

  /** There is no error exactly when every key succeeds. */
  lemma {:induction false} FirstErrorNone<V, E>(f: V -> Result<seq<V>, E>, xs: seq<V>)
    ensures FirstError(f, xs).None? <==> forall i | 0 <= i < |xs| :: f(xs[i]).Ok?
  {
    if xs != [] {
      FirstErrorNone(f, xs[1..]);
      assert forall i | 1 <= i < |xs| :: xs[i] == xs[1..][i - 1];
    }
  }

  /** An error is the error of some element, and every element before it succeeds. */
  lemma {:induction false} FirstErrorSome<V, E>(f: V -> Result<seq<V>, E>, xs: seq<V>)
    requires FirstError(f, xs).Some?
    ensures exists i | 0 <= i < |xs| ::
      f(xs[i]) == Err(FirstError(f, xs).value) && forall j | 0 <= j < i :: f(xs[j]).Ok?
  {
    if f(xs[0]).Ok? {
      FirstErrorSome(f, xs[1..]);
      var i :| 0 <= i < |xs[1..]| &&
        f(xs[1..][i]) == Err(FirstError(f, xs[1..]).value) && forall j | 0 <= j < i :: f(xs[1..][j]).Ok?;
      assert forall j | 1 <= j < i + 1 :: xs[j] == xs[1..][j - 1];
      assert f(xs[i + 1]) == Err(FirstError(f, xs).value);
    } else {
      assert f(xs[0]) == Err(FirstError(f, xs).value);
    }
  }

  lemma {:induction false} FirstErrorSnoc<V, E>(f: V -> Result<seq<V>, E>, xs: seq<V>, x: V)
    ensures FirstError(f, xs + [x]) ==
      if FirstError(f, xs).Some? then FirstError(f, xs)
      else if f(x).Err? then Some(f(x).error) else None
  {
    if xs != [] {
      assert (xs + [x])[1..] == xs[1..] + [x];
      FirstErrorSnoc(f, xs[1..], x);
    } else {
      assert ([x])[1..] == [];
    }
  }

  /** The error that stops the run is the first key error. */
  lemma {:induction false} RunKeysError<V, E>(f: V -> Result<seq<V>, E>, xs: seq<V>)
    ensures RunKeys(f, xs).err == FirstError(f, xs)
  {
    if xs != [] {
      var n := |xs| - 1;
      RunKeysError(f, xs[..n]);
      FirstErrorSnoc(f, xs[..n], xs[n]);
      assert xs[..n] + [xs[n]] == xs;
    }
  }

  /** Without an error, every key is the key filter's output for its element. */
  lemma {:induction false} RunKeysValues<V, E>(f: V -> Result<seq<V>, E>, xs: seq<V>)
    requires RunKeys(f, xs).err.None?
    ensures forall i | 0 <= i < |xs| :: f(xs[i]) == Ok(RunKeys(f, xs).keys[i])
  {
    if xs != [] {
      var n := |xs| - 1;
      var p := RunKeys(f, xs[..n]);
      RunKeysValues(f, xs[..n]);
      assert forall i | 0 <= i < n :: xs[i] == xs[..n][i];
    }
  }

  /** The keys, one element at a time, as the source's `run_if_ok` threads `err`. */
  method ComputeKeys<V, E>(f: V -> Result<seq<V>, E>, xs: seq<V>) returns (keys: seq<seq<V>>, err: Option<E>)
    ensures KeyRun(keys, err) == RunKeys(f, xs)
  {
    keys, err := [], None;
    var k := 0;
    while k < |xs|
      invariant 0 <= k <= |xs|
      invariant KeyRun(keys, err) == RunKeys(f, xs[..k])
    {
      Seqs.TakeSnoc(xs, k);
      if err.Some? {
        keys := keys + [[]];
      } else {
        match f(xs[k])
        case Ok(y) =>
          keys := keys + [y];
        case Err(e) =>
          keys := keys + [[]];
          err := Some(e);
      }
      k := k + 1;
    }
    Seqs.TakeAll(xs);
  }
}
