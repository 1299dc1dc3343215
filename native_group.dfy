/**
 * `group_by`: the keys of all elements are computed first and any key error
 * is the result; otherwise the elements are sorted stably by key and then
 * cut into runs of consecutive elements with equal keys.
 */
module NativeGroup {
  import opened Wrappers
  import opened NativeOrder
  import opened NativeKeys
  import opened NativeSort
  import Seqs

  /** Cut a sequence of entries into maximal runs of consecutive entries with equal keys. */
  function GroupRuns<V(==)>(es: seq<Entry<V>>): (gs: seq<seq<Entry<V>>>)
    ensures |gs| == 0 <==> |es| == 0
    ensures forall i | 0 <= i < |gs| :: |gs[i]| > 0
  {
    if es == [] then []
    else
      var n := |es| - 1;
      Push(GroupRuns(es[..n]), es[n], n > 0 && es[n - 1].key == es[n].key)
  }

  /** Add an entry to the last run (`merge`) or start a new run with it. */
  function Push<V>(gs: seq<seq<Entry<V>>>, e: Entry<V>, merge: bool): (r: seq<seq<Entry<V>>>)
    requires forall i | 0 <= i < |gs| :: |gs[i]| > 0
    ensures |r| > 0
    ensures forall i | 0 <= i < |r| :: |r[i]| > 0
  {
    if merge && |gs| > 0 then gs[..|gs| - 1] + [gs[|gs| - 1] + [e]] else gs + [[e]]
  }

  /** What `Push` leaves in place and what it changes. */
  lemma PushShape<V>(gs: seq<seq<Entry<V>>>, e: Entry<V>, merge: bool)
    requires forall i | 0 <= i < |gs| :: |gs[i]| > 0
    ensures var r := Push(gs, e, merge);
      if merge && |gs| > 0 then
        && |r| == |gs|
        && (forall i | 0 <= i < |gs| - 1 :: r[i] == gs[i])
        && r[|gs| - 1] == gs[|gs| - 1] + [e]
      else
        && |r| == |gs| + 1
        && (forall i | 0 <= i < |gs| :: r[i] == gs[i])
        && r[|gs|] == [e]
  {
  }

  /** The concatenation of a sequence of sequences. */
  function Flatten<T>(gs: seq<seq<T>>): seq<T>
  {
    if gs == [] then [] else Flatten(gs[..|gs| - 1]) + gs[|gs| - 1]
  }

  /** The elements of each group. */
  function GroupVals<V>(gs: seq<seq<Entry<V>>>): (r: seq<seq<V>>)
    ensures |r| == |gs|
    ensures forall i | 0 <= i < |gs| :: r[i] == Vals(gs[i])
  {
    seq(|gs|, i requires 0 <= i < |gs| => Vals(gs[i]))
  }

  lemma FlattenSnoc<T>(gs: seq<seq<T>>, g: seq<T>)
    ensures Flatten(gs + [g]) == Flatten(gs) + g
  {
    assert (gs + [g])[..|gs|] == gs;
  }

  lemma PushFlatten<V>(gs: seq<seq<Entry<V>>>, e: Entry<V>, merge: bool)
    requires forall i | 0 <= i < |gs| :: |gs[i]| > 0
    ensures Flatten(Push(gs, e, merge)) == Flatten(gs) + [e]
  {
    if merge && |gs| > 0 {
      var init, last := gs[..|gs| - 1], gs[|gs| - 1];
      Seqs.SplitLast(gs);
      FlattenSnoc(init, last);
      FlattenSnoc(init, last + [e]);
    } else {
      FlattenSnoc(gs, [e]);
    }
  }

  /** The runs concatenate to the input. */
  lemma {:induction false} GroupRunsFlatten<V>(es: seq<Entry<V>>)
    ensures Flatten(GroupRuns(es)) == es
  {
    if es != [] {
      var n := |es| - 1;
      var merge := n > 0 && es[n - 1].key == es[n].key;
      assert GroupRuns(es) == Push(GroupRuns(es[..n]), es[n], merge);
      GroupRunsFlatten(es[..n]);
      PushFlatten(GroupRuns(es[..n]), es[n], merge);
      Seqs.SplitLast(es);
    }
  }

  /** Every entry of a run has the key of the run's first entry. */
  ghost predicate RunsUniform<V>(gs: seq<seq<Entry<V>>>)
  {
    forall i, p | 0 <= i < |gs| && 0 <= p < |gs[i]| :: gs[i][p].key == gs[i][0].key
  }

  /** Non-empty runs whose first keys ascend strictly. */
  ghost predicate RunsAscend<V(!new)>(lt: (V, V) -> bool, gs: seq<seq<Entry<V>>>)
  {
    forall i, j | 0 <= i < j < |gs| :: |gs[i]| > 0 && |gs[j]| > 0 && LexLess(lt, gs[i][0].key, gs[j][0].key)
  }

  /** Merging an entry with its run's key keeps the runs uniform; the last run then has the entry's key. */
  lemma PushUniform<V>(gs: seq<seq<Entry<V>>>, e: Entry<V>, merge: bool)
    requires forall i | 0 <= i < |gs| :: |gs[i]| > 0
    requires RunsUniform(gs)
    requires merge && |gs| > 0 ==> e.key == gs[|gs| - 1][0].key
    ensures var r := Push(gs, e, merge);
      RunsUniform(r) && r[|r| - 1][0].key == e.key
  {
    var r: seq<seq<Entry<V>>> := Push(gs, e, merge);
    PushShape(gs, e, merge);
    if merge && |gs| > 0 {
      var k := |gs| - 1;
      forall i, p | 0 <= i < |r| && 0 <= p < |r[i]|
        ensures r[i][p].key == r[i][0].key
      {
        if i < k {
          assert r[i] == gs[i];
        } else if p < |gs[k]| {
          assert r[k][p] == gs[k][p];
        }
      }
    } else {
      forall i, p | 0 <= i < |r| && 0 <= p < |r[i]|
        ensures r[i][p].key == r[i][0].key
      {
        if i < |gs| {
          assert r[i] == gs[i];
        }
      }
    }
  }

  /** A new run whose key is above the last run's key keeps the runs ascending. */
  lemma PushAscend<V(!new)>(lt: (V, V) -> bool, gs: seq<seq<Entry<V>>>, e: Entry<V>, merge: bool)
    requires StrictTotalOrder(lt)
    requires forall i | 0 <= i < |gs| :: |gs[i]| > 0
    requires RunsAscend(lt, gs)
    requires !merge && |gs| > 0 ==> LexLess(lt, gs[|gs| - 1][0].key, e.key)
    ensures RunsAscend(lt, Push(gs, e, merge))
  {
    var r: seq<seq<Entry<V>>> := Push(gs, e, merge);
    PushShape(gs, e, merge);
    assert forall i | 0 <= i < |gs| :: r[i][0] == gs[i][0];
    if !(merge && |gs| > 0) {
      assert r[|gs|][0] == e;
      var k := |gs| - 1;
      forall i | 0 <= i < k
        ensures LexLess(lt, gs[i][0].key, e.key)
      {
        LexTransitive(lt, gs[i][0].key, gs[k][0].key, e.key);
      }
    }
  }

  /** A sorted sequence without its last entry is sorted, and that entry's key is above its predecessor's unless they are equal. */
  lemma SortedInit<V(!new)>(lt: (V, V) -> bool, es: seq<Entry<V>>)
    requires StrictTotalOrder(lt)
    requires Sorted(lt, es) && |es| > 0
    ensures Sorted(lt, es[..|es| - 1])
    ensures |es| > 1 && es[|es| - 2].key != es[|es| - 1].key ==> LexLess(lt, es[|es| - 2].key, es[|es| - 1].key)
  {
    if |es| > 1 {
      assert Before(lt, es[|es| - 2], es[|es| - 1]);
    }
  }

  /** All entries of a run share its first entry's key, and the last run has the input's last key. */
  lemma {:induction false} GroupRunsKeys<V>(es: seq<Entry<V>>)
    ensures var gs := GroupRuns(es);
      && RunsUniform(gs)
      && (es != [] ==> gs[|gs| - 1][0].key == es[|es| - 1].key)
  {
    if es != [] {
      var n := |es| - 1;
      var merge := n > 0 && es[n - 1].key == es[n].key;
      var gs: seq<seq<Entry<V>>> := GroupRuns(es[..n]);
      assert GroupRuns(es) == Push(gs, es[n], merge);
      GroupRunsKeys(es[..n]);
      if merge {
        assert es[..n][n - 1] == es[n - 1];
      }
      PushUniform(gs, es[n], merge);
    }
  }

  /** Neighbouring runs have different keys: the runs are maximal. */
  lemma {:induction false} GroupRunsMaximal<V>(es: seq<Entry<V>>)
    ensures var gs := GroupRuns(es);
      forall i | 0 <= i < |gs| - 1 :: gs[i][0].key != gs[i + 1][0].key
  {
    if es != [] {
      var n := |es| - 1;
      var merge := n > 0 && es[n - 1].key == es[n].key;
      GroupRunsMaximal(es[..n]);
      GroupRunsKeys(es[..n]);
      PushShape(GroupRuns(es[..n]), es[n], merge);
      if !merge && n > 0 {
        assert es[..n][n - 1] == es[n - 1];
      }
    }
  }

  /** The runs of a sorted sequence have strictly ascending keys. */
  lemma {:induction false} GroupRunsAscend<V(!new)>(lt: (V, V) -> bool, es: seq<Entry<V>>)
    requires StrictTotalOrder(lt)
    requires Sorted(lt, es)
    ensures RunsAscend(lt, GroupRuns(es))
  {
    if es != [] {
      var n := |es| - 1;
      var merge := n > 0 && es[n - 1].key == es[n].key;
      var gs: seq<seq<Entry<V>>> := GroupRuns(es[..n]);
      assert GroupRuns(es) == Push(gs, es[n], merge);
      SortedInit(lt, es);
      GroupRunsAscend(lt, es[..n]);
      if !merge && n > 0 {
        GroupRunsKeys(es[..n]);
        assert es[..n][n - 1] == es[n - 1];
      }
      PushAscend(lt, gs, es[n], merge);
    }
  }

  lemma {:induction false} FlattenMember<T>(gs: seq<seq<T>>, i: nat, p: nat)
    requires i < |gs| && p < |gs[i]|
    ensures gs[i][p] in Flatten(gs)
  {
    var n := |gs| - 1;
    if i < n {
      FlattenMember(gs[..n], i, p);
    }
  }

  lemma {:induction false} FlattenVals<V>(gs: seq<seq<Entry<V>>>)
    ensures Flatten(GroupVals(gs)) == Vals(Flatten(gs))
  {
    if gs != [] {
      var n := |gs| - 1;
      FlattenVals(gs[..n]);
      assert GroupVals(gs)[..n] == GroupVals(gs[..n]);
      assert Vals(Flatten(gs[..n]) + gs[n]) == Vals(Flatten(gs[..n])) + Vals(gs[n]);
    }
  }

  /**
   * `group_by`: on a key error, that first error; otherwise the runs of
   * equal keys of the input sorted by key.
   */
  method GroupBy<V(==,!new), E>(lt: (V, V) -> bool, f: V -> Result<seq<V>, E>, xs: seq<V>) returns (r: Result<seq<seq<V>>, E>)
    ensures FirstError(f, xs).Some? ==> r == Err(FirstError(f, xs).value)
    ensures FirstError(f, xs).None? ==>
      r == Ok(GroupVals(GroupRuns(SortedByKeys(lt, RunKeys(f, xs).keys, xs))))
  {
    var keys, err := ComputeKeys(f, xs);
    RunKeysError(f, xs);
    if err.Some? {
      return Err(err.value);
    }
    r := Ok(GroupVals(GroupRuns(SortedByKeys(lt, keys, xs))));
  }

  /** Every element of a group has the group's key. */
  lemma GroupMembersKey<V(!new), E>(lt: (V, V) -> bool, f: V -> Result<seq<V>, E>, xs: seq<V>)
    requires StrictTotalOrder(lt)
    requires FirstError(f, xs).None?
    ensures var gs := GroupRuns(SortedByKeys(lt, RunKeys(f, xs).keys, xs));
      forall i, p | 0 <= i < |gs| && 0 <= p < |gs[i]| :: f(gs[i][p].val) == Ok(gs[i][0].key)
  {
    var keys := RunKeys(f, xs).keys;
    var es: seq<Entry<V>> := SortedByKeys(lt, keys, xs);
    var gs: seq<seq<Entry<V>>> := GroupRuns(es);
    RunKeysError(f, xs);
    RunKeysValues(f, xs);
    SortedByKeysOrigin(lt, keys, xs);
    GroupRunsFlatten(es);
    GroupRunsKeys(es);
    forall i, p | 0 <= i < |gs| && 0 <= p < |gs[i]|
      ensures f(gs[i][p].val) == Ok(gs[i][0].key)
    {
      FlattenMember(gs, i, p);
      var e := gs[i][p];
      assert e in es;
      assert f(xs[e.idx]) == Ok(keys[e.idx]);
    }
  }

  /** Groups ascend strictly by key, so no key occurs in two groups. */
  lemma GroupKeysAscend<V(!new), E>(lt: (V, V) -> bool, f: V -> Result<seq<V>, E>, xs: seq<V>)
    requires StrictTotalOrder(lt)
    ensures var gs := GroupRuns(SortedByKeys(lt, RunKeys(f, xs).keys, xs));
      && (forall i, j | 0 <= i < j < |gs| :: LexLess(lt, gs[i][0].key, gs[j][0].key))
      && (forall i, j, p, q | 0 <= i < |gs| && 0 <= j < |gs| && 0 <= p < |gs[i]| && 0 <= q < |gs[j]| ::
            gs[i][p].key == gs[j][q].key ==> i == j)
  {
    var keys := RunKeys(f, xs).keys;
    var es: seq<Entry<V>> := SortedByKeys(lt, keys, xs);
    var gs: seq<seq<Entry<V>>> := GroupRuns(es);
    SortedByKeysSorted(lt, keys, xs);
    GroupRunsAscend(lt, es);
    GroupRunsKeys(es);
    forall i, j, p, q | 0 <= i < |gs| && 0 <= j < |gs| && 0 <= p < |gs[i]| && 0 <= q < |gs[j]| &&
        gs[i][p].key == gs[j][q].key
      ensures i == j
    {
      if i < j {
        LexIrreflexive(lt, gs[i][0].key);
      } else if j < i {
        LexIrreflexive(lt, gs[j][0].key);
      }
    }
  }

  /**
   * What `group_by` promises when no key fails: the groups are non-empty,
   * concatenated they are the stable sort of the input by key, every
   * element of a group has the group's key, groups ascend strictly by key,
   * and so no key occurs in two groups.
   */
  lemma GroupByGroups<V(!new), E>(lt: (V, V) -> bool, f: V -> Result<seq<V>, E>, xs: seq<V>)
    requires StrictTotalOrder(lt)
    requires FirstError(f, xs).None?
    ensures var es := SortedByKeys(lt, RunKeys(f, xs).keys, xs);
      var gs := GroupRuns(es);
      && (forall i | 0 <= i < |gs| :: |gs[i]| > 0)
      && Flatten(GroupVals(gs)) == Vals(es)
      && (forall i, p | 0 <= i < |gs| && 0 <= p < |gs[i]| :: f(gs[i][p].val) == Ok(gs[i][0].key))
      && (forall i, j | 0 <= i < j < |gs| :: LexLess(lt, gs[i][0].key, gs[j][0].key))
      && (forall i, j, p, q | 0 <= i < |gs| && 0 <= j < |gs| && 0 <= p < |gs[i]| && 0 <= q < |gs[j]| ::
            gs[i][p].key == gs[j][q].key ==> i == j)
  {
    var es := SortedByKeys(lt, RunKeys(f, xs).keys, xs);
    GroupRunsFlatten(es);
    FlattenVals(GroupRuns(es));
    GroupMembersKey(lt, f, xs);
    GroupKeysAscend(lt, f, xs);
  }
}
