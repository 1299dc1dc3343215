/**
 * `sort_by`: a stable sort of an array by the keys of its elements.
 *
 * The source sorts with `sort_by_cached_key`, which first computes every
 * key once, in order, and then sorts the elements by (key, original
 * position). The model makes that pair explicit: an `Entry` carries an
 * element, its key and its original position, and entries are ordered by
 * `Before`. Because no two entries share a position, `Before` is a strict
 * total order, and a sorted permutation is unique (`SortedUnique`), so
 * every correct sorting algorithm gives the same result. The library sort
 * is therefore modelled by a reference insertion sort on sequences.
 */
module NativeSort {
  import opened Wrappers
  import opened NativeOrder
  import opened NativeKeys
  
  datatype Entry<V> = Entry(key: seq<V>, idx: nat, val: V)

  /** The order of entries: by key, and by original position among equal keys. */
  function Before<V(==,!new)>(lt: (V, V) -> bool, x: Entry<V>, y: Entry<V>): bool
  {
    LexLess(lt, x.key, y.key) || (x.key == y.key && x.idx < y.idx)
  }

  lemma BeforeTransitive<V(!new)>(lt: (V, V) -> bool, x: Entry<V>, y: Entry<V>, z: Entry<V>)
    requires StrictTotalOrder(lt)
    requires Before(lt, x, y) && Before(lt, y, z)
    ensures Before(lt, x, z)
  {
    if LexLess(lt, x.key, y.key) && LexLess(lt, y.key, z.key) {
      LexTransitive(lt, x.key, y.key, z.key);
    }
  }

  lemma BeforeTotal<V(!new)>(lt: (V, V) -> bool, x: Entry<V>, y: Entry<V>)
    requires StrictTotalOrder(lt)
    requires x.idx != y.idx
    ensures Before(lt, x, y) || Before(lt, y, x)
  {
    LexTotal(lt, x.key, y.key);
  }

  /** Insert `e` into `s` before every entry it is `Before`, scanning from the end. */
  function Insert<V(==,!new)>(lt: (V, V) -> bool, e: Entry<V>, s: seq<Entry<V>>): (r: seq<Entry<V>>)
    ensures |r| == |s| + 1
    ensures multiset(r) == multiset(s) + multiset{e}
  {
    if s == [] then [e]
    else
      var p, last := s[..|s| - 1], s[|s| - 1];
      assert s == p + [last];
      if Before(lt, e, last) then Insert(lt, e, p) + [last] else s + [e]
  }

  /** Insertion sort of a sequence of entries. */
  function ISort<V(==,!new)>(lt: (V, V) -> bool, s: seq<Entry<V>>): (r: seq<Entry<V>>)
    ensures |r| == |s|
    ensures multiset(r) == multiset(s)
  {
    if s == [] then []
    else
      var p := s[..|s| - 1];
      assert s == p + [s[|s| - 1]];
      Insert(lt, s[|s| - 1], ISort(lt, p))
  }

  ghost predicate Sorted<V(!new)>(lt: (V, V) -> bool, s: seq<Entry<V>>)
  {
    forall i, j | 0 <= i < j < |s| :: Before(lt, s[i], s[j])
  }

  ghost predicate DistinctIdx<V>(s: seq<Entry<V>>)
  {
    forall i, j | 0 <= i < j < |s| :: s[i].idx != s[j].idx
  }

  /** Every entry of `Insert(lt, e, p)` is `Before` an entry that `e` and all of `p` are `Before`. */
  lemma InsertBelow<V(!new)>(lt: (V, V) -> bool, e: Entry<V>, p: seq<Entry<V>>, last: Entry<V>)
    requires forall x | x in p :: Before(lt, x, last)
    requires Before(lt, e, last)
    ensures forall x | x in Insert(lt, e, p) :: Before(lt, x, last)
  {
    forall x | x in Insert(lt, e, p)
      ensures Before(lt, x, last)
    {
      assert x in multiset(Insert(lt, e, p));
    }
  }

  lemma {:induction false} InsertSorted<V(!new)>(lt: (V, V) -> bool, e: Entry<V>, s: seq<Entry<V>>)
    requires StrictTotalOrder(lt)
    requires Sorted(lt, s)
    requires forall x | x in s :: x.idx != e.idx
    ensures Sorted(lt, Insert(lt, e, s))
  {
    if s != [] {
      var n := |s| - 1;
      var p, last := s[..n], s[n];
      if Before(lt, e, last) {
        assert forall x | x in p :: x in s;
        InsertSorted(lt, e, p);
        var q := Insert(lt, e, p);
        InsertBelow(lt, e, p, last);
        assert Insert(lt, e, s) == q + [last];
      } else {
        BeforeTotal(lt, e, last);
        forall i | 0 <= i < n
          ensures Before(lt, s[i], e)
        {
          BeforeTransitive(lt, s[i], last, e);
        }
      }
    }
  }

  lemma {:induction false} ISortSorted<V(!new)>(lt: (V, V) -> bool, s: seq<Entry<V>>)
    requires StrictTotalOrder(lt)
    requires DistinctIdx(s)
    ensures Sorted(lt, ISort(lt, s))
  {
    if s != [] {
      var n := |s| - 1;
      var p := s[..n];
      ISortSorted(lt, p);
      forall x | x in ISort(lt, p)
        ensures x.idx != s[n].idx
      {
        assert x in multiset(ISort(lt, p));
      }
      InsertSorted(lt, s[n], ISort(lt, p));
    }
  }

  /** The entries of an array of elements with their keys. */
  function Entries<V>(keys: seq<seq<V>>, xs: seq<V>): (r: seq<Entry<V>>)
    requires |keys| == |xs|
    ensures |r| == |xs|
    ensures forall i | 0 <= i < |xs| :: r[i] == Entry(keys[i], i, xs[i])
  {
    seq(|xs|, i requires 0 <= i < |xs| => Entry(keys[i], i, xs[i]))
  }

  /** The elements of a sequence of entries. */
  function Vals<V>(es: seq<Entry<V>>): (r: seq<V>)
    ensures |r| == |es|
    ensures forall i | 0 <= i < |es| :: r[i] == es[i].val
  {
    seq(|es|, i requires 0 <= i < |es| => es[i].val)
  }

  lemma ValsSnoc<V>(s: seq<Entry<V>>, e: Entry<V>)
    ensures Vals(s + [e]) == Vals(s) + [e.val]
  {
  }

  lemma {:induction false} ValsInsert<V(!new)>(lt: (V, V) -> bool, e: Entry<V>, s: seq<Entry<V>>)
    ensures multiset(Vals(Insert(lt, e, s))) == multiset(Vals(s)) + multiset{e.val}
  {
    if s == [] {
      assert Vals([e]) == [e.val];
    } else {
      var p, last := s[..|s| - 1], s[|s| - 1];
      assert s == p + [last];
      ValsSnoc(p, last);
      if Before(lt, e, last) {
        var q := Insert(lt, e, p);
        assert Insert(lt, e, s) == q + [last];
        ValsInsert(lt, e, p);
        ValsSnoc(q, last);
      } else {
        assert Insert(lt, e, s) == s + [e];
        ValsSnoc(s, e);
      }
    }
  }

  lemma {:induction false} ValsISort<V(!new)>(lt: (V, V) -> bool, s: seq<Entry<V>>)
    ensures multiset(Vals(ISort(lt, s))) == multiset(Vals(s))
  {
    if s != [] {
      var p, last := s[..|s| - 1], s[|s| - 1];
      assert s == p + [last];
      assert ISort(lt, s) == Insert(lt, last, ISort(lt, p));
      ValsISort(lt, p);
      ValsInsert(lt, last, ISort(lt, p));
      ValsSnoc(p, last);
    }
  }

  /** The outcome of sorting `xs` by `keys`. */
  function SortedByKeys<V(==,!new)>(lt: (V, V) -> bool, keys: seq<seq<V>>, xs: seq<V>): (r: seq<Entry<V>>)
    requires |keys| == |xs|
    ensures |r| == |xs|
  {
    ISort(lt, Entries(keys, xs))
  }

  /** The last entry of a sorted sequence is after every other of its entries. */
  lemma SortedLast<V(!new)>(lt: (V, V) -> bool, s: seq<Entry<V>>, x: Entry<V>)
    requires Sorted(lt, s) && s != []
    requires x in s && x != s[|s| - 1]
    ensures Before(lt, x, s[|s| - 1])
  {
    var i :| 0 <= i < |s| && s[i] == x;
  }

  lemma BeforeAsymmetric<V(!new)>(lt: (V, V) -> bool, x: Entry<V>, y: Entry<V>)
    requires StrictTotalOrder(lt)
    ensures !(Before(lt, x, y) && Before(lt, y, x))
  {
    LexAsymmetric(lt, x.key, y.key);
    LexIrreflexive(lt, x.key);
  }

  lemma DropLast<T>(s: seq<T>, t: seq<T>)
    requires |s| == |t| > 0 && s[|s| - 1] == t[|t| - 1]
    requires multiset(s) == multiset(t)
    ensures multiset(s[..|s| - 1]) == multiset(t[..|t| - 1])
  {
    var n := |s| - 1;
    assert s == s[..n] + [s[n]] && t == t[..n] + [t[n]];
    assert multiset(s[..n]) == multiset(s) - multiset{s[n]};
    assert multiset(t[..n]) == multiset(t) - multiset{t[n]};
  }

  /** Two sorted permutations of the same entries are equal: sorting has one result. */
  lemma {:induction false} SortedUnique<V(!new)>(lt: (V, V) -> bool, s: seq<Entry<V>>, t: seq<Entry<V>>)
    requires StrictTotalOrder(lt)
    requires Sorted(lt, s) && Sorted(lt, t)
    requires multiset(s) == multiset(t)
    ensures s == t
  {
    if s != [] {
      assert |s| == |multiset(s)| == |t|;
      var n := |s| - 1;
      var x, y := s[n], t[n];
      assert x in multiset(t) && y in multiset(s);
      if x != y {
        SortedLast(lt, s, y);
        SortedLast(lt, t, x);
        BeforeAsymmetric(lt, x, y);
        assert false;
      }
      DropLast(s, t);
      SortedUnique(lt, s[..n], t[..n]);
    }
  }

  /** Every sorted entry is an input element with its own key. */
  lemma SortedByKeysOrigin<V(!new)>(lt: (V, V) -> bool, keys: seq<seq<V>>, xs: seq<V>)
    requires |keys| == |xs|
    ensures forall e | e in SortedByKeys(lt, keys, xs) :: e.idx < |xs| && e.val == xs[e.idx] && e.key == keys[e.idx]
  {
    forall e | e in SortedByKeys(lt, keys, xs)
      ensures e.idx < |xs| && e.val == xs[e.idx] && e.key == keys[e.idx]
    {
      assert e in multiset(Entries(keys, xs));
    }
  }

  lemma SortedByKeysSorted<V(!new)>(lt: (V, V) -> bool, keys: seq<seq<V>>, xs: seq<V>)
    requires StrictTotalOrder(lt)
    requires |keys| == |xs|
    ensures Sorted(lt, SortedByKeys(lt, keys, xs))
  {
    ISortSorted(lt, Entries(keys, xs));
  }

  /**
   * Any sorted permutation of the entries is the one `SortedByKeys`
   * computes, so the model agrees with every correct stable sort.
   */
  lemma SortedByKeysUnique<V(!new)>(lt: (V, V) -> bool, keys: seq<seq<V>>, xs: seq<V>, t: seq<Entry<V>>)
    requires StrictTotalOrder(lt)
    requires |keys| == |xs|
    requires Sorted(lt, t) && multiset(t) == multiset(Entries(keys, xs))
    ensures t == SortedByKeys(lt, keys, xs)
  {
    var es := Entries(keys, xs);
    assert DistinctIdx(es);
    ISortSorted(lt, es);
    SortedUnique(lt, t, SortedByKeys(lt, keys, xs));
  }

  /**
   * Sorting by keys is a stable sort: the result is a permutation of the
   * elements, each element keeps its own key, keys never decrease, and
   * elements with equal keys keep their original relative order.
   */
  lemma StableSort<V(!new)>(lt: (V, V) -> bool, keys: seq<seq<V>>, xs: seq<V>)
    requires StrictTotalOrder(lt)
    requires |keys| == |xs|
    ensures var r := SortedByKeys(lt, keys, xs);
      && |r| == |xs|
      && multiset(Vals(r)) == multiset(xs)
      && (forall i | 0 <= i < |r| :: r[i].idx < |xs| && r[i].val == xs[r[i].idx] && r[i].key == keys[r[i].idx])
      && (forall i, j | 0 <= i < j < |r| :: !LexLess(lt, r[j].key, r[i].key))
      && (forall i, j | 0 <= i < j < |r| && r[i].key == r[j].key :: r[i].idx < r[j].idx)
  {
    var es := Entries(keys, xs);
    var r := ISort(lt, es);
    assert |r| == |multiset(r)| == |multiset(es)|;
    ValsISort(lt, es);
    assert Vals(es) == xs;
    forall i | 0 <= i < |r|
      ensures r[i].idx < |xs| && r[i].val == xs[r[i].idx] && r[i].key == keys[r[i].idx]
    {
      assert r[i] in multiset(es);
    }
    ISortSorted(lt, es);
    forall i, j | 0 <= i < j < |r|
      ensures !LexLess(lt, r[j].key, r[i].key)
      ensures r[i].key == r[j].key ==> r[i].idx < r[j].idx
    {
      assert Before(lt, r[i], r[j]);
      LexAsymmetric(lt, r[i].key, r[j].key);
      LexIrreflexive(lt, r[i].key);
    }
  }
  /**
   * `sort_by`: compute the keys, sort the array by them, and report the
   * first key error, if any. The array is sorted even when a key failed
   * (the failed and the later elements then have the empty key), but the
   * operation's result is that error.
   */
  method SortBy<V(==,!new), E>(lt: (V, V) -> bool, f: V -> Result<seq<V>, E>, xs: array<V>) returns (r: Result<(), E>)
    modifies xs
    ensures xs[..] == Vals(SortedByKeys(lt, RunKeys(f, old(xs[..])).keys, old(xs[..])))
    ensures r == if FirstError(f, old(xs[..])).Some? then Err(FirstError(f, old(xs[..])).value) else Ok(())
  {
    var x0 := xs[..];
    var keys, err := ComputeKeys(f, x0);
    RunKeysError(f, x0);
    var vs := Vals(SortedByKeys(lt, keys, x0));
    forall i | 0 <= i < xs.Length {
      xs[i] := vs[i];
    }
    r := if err.Some? then Err(err.value) else Ok(());
  }
}
