/**
 * Binding of parsed definitions (`Ctx::def` in jaq-core/src/mir.rs), stated
 * as a pure function from the binder's state before to its state after.
 *
 * The state is the table of definitions, the error list and the list of
 * recursive definition ids. `BindDef` gives the new definition the next
 * free id, registers it with its parent (the last id of the chain it is
 * given), binds its nested definitions with the chain extended by the new
 * id, and finally replaces its placeholder body by its lowered body.
 */
module MirBind {
  import opened Wrappers
  import opened Syntax
  import opened MirDefs
  import opened MirResolve

  /** The part of the binder's state that binding a definition changes. */
  datatype St = St(defs: Defs, errs: seq<Error>, recs: seq<DefId>)

  /** Every id of the chain is an entry of the table. */
  ghost predicate ChainOk(defs: Defs, anc: seq<DefId>)
  {
    forall k | 0 <= k < |anc| :: anc[k] < |defs.list|
  }

  /** Every recorded recursive id is an entry of the table. */
  ghost predicate RecsOk(st: St)
  {
    forall k | 0 <= k < |st.recs| :: st.recs[k] < |st.defs.list|
  }

  /** The number of definitions that binding `d` creates: `d` and all nested ones. */
  function DefCount(d: HirDef): nat
    decreases d, 1
  {
    1 + DefCountSeq(d.defs)
  }

  function DefCountSeq(ds: seq<HirDef>): nat
    decreases ds, 0
  {
    if ds == [] then 0 else DefCountSeq(ds[..|ds| - 1]) + DefCount(ds[|ds| - 1])
  }

  /**
   * The ids that binding `ds` one after the other, from the free id `base`
   * on, gives to the definitions of `ds` themselves.
   */
  function ChildIds(base: nat, ds: seq<HirDef>): seq<DefId>
  {
    if ds == [] then [] else ChildIds(base, ds[..|ds| - 1]) + [base + DefCountSeq(ds[..|ds| - 1])]
  }

  /**
   * Push the entry of a new definition with the next free id and no
   * children, and add that id to the children of the last id of the chain.
   */
  function Enter(defs: Defs, anc: seq<DefId>, name: string, args: seq<Arg>): (r: Defs)
    requires ChainOk(defs, anc)
    ensures |r.list| == |defs.list| + 1
    ensures r.list[|defs.list|] == Def(name, args, [], anc, false, Placeholder)
    ensures forall i | 0 <= i < |defs.list| ::
      r.list[i] == defs.list[i].(children := defs.list[i].children + (if anc != [] && i == anc[|anc| - 1] then [|defs.list|] else []))
    ensures defs.Closed() ==> r.Closed()
  {
    var id := |defs.list|;
    var l := defs.list + [Def(name, args, [], anc, false, Placeholder)];
    if anc == [] then Defs(l)
    else
      var p := anc[|anc| - 1];
      Defs(l[p := l[p].(children := l[p].children + [id])])
  }

  /** Replace the body of one definition. */
  function SetBody(defs: Defs, id: DefId, body: Mir): (r: Defs)
    requires id < |defs.list|
    ensures |r.list| == |defs.list| && r.list[id] == defs.list[id].(body := body)
    ensures forall i | 0 <= i < |defs.list| && i != id :: r.list[i] == defs.list[i]
    ensures defs.Closed() ==> r.Closed()
  {
    Defs(defs.list[id := defs.list[id].(body := body)])
  }

  /** `Ctx::def`: bind the definition `d` below the chain `anc`. */
  function BindDef(natives: seq<NativeEntry>, st: St, anc: seq<DefId>, d: HirDef): (r: St)
    requires st.defs.Closed() && ChainOk(st.defs, anc)
    ensures r.defs.Closed() && |r.defs.list| == |st.defs.list| + DefCount(d)
    decreases d, 1
  {
    var id := |st.defs.list|;
    var entered := Enter(st.defs, anc, d.name, d.args);
    var inner := BindDefs(natives, St(entered, st.errs, st.recs), anc + [id], d.defs);
    var lo := Lower(Scope(inner.defs, natives, id), [], d.body);
    St(SetBody(inner.defs, id, lo.out), inner.errs + lo.errs, inner.recs + lo.recs)
  }

  /** Bind the definitions `ds` one after the other, all below the chain `anc`. */
  function BindDefs(natives: seq<NativeEntry>, st: St, anc: seq<DefId>, ds: seq<HirDef>): (r: St)
    requires st.defs.Closed() && ChainOk(st.defs, anc)
    ensures r.defs.Closed() && |r.defs.list| == |st.defs.list| + DefCountSeq(ds)
    decreases ds, 0
  {
    if ds == [] then st
    else
      var mid := BindDefs(natives, st, anc, ds[..|ds| - 1]);
      BindDef(natives, mid, anc, ds[|ds| - 1])
  }

  /** Two entries agree on everything but their children. */
  predicate SameBut(a: Def, b: Def)
  {
    a.name == b.name && a.args == b.args && a.ancestors == b.ancestors && a.recursive == b.recursive && a.body == b.body
  }

  /**
   * `b` keeps every entry of `a`, except that `extra` is appended to the
   * children of entry `p` (no entry when `p` is negative).
   */
  ghost predicate Keeps(a: seq<Def>, b: seq<Def>, p: int, extra: seq<DefId>)
  {
    |a| <= |b|
    && forall i | 0 <= i < |a| :: SameBut(b[i], a[i]) && b[i].children == a[i].children + (if i == p then extra else [])
  }

  lemma KeepsCompose(a: seq<Def>, b: seq<Def>, c: seq<Def>, p: int, e1: seq<DefId>, e2: seq<DefId>)
    requires Keeps(a, b, p, e1) && Keeps(b, c, p, e2)
    ensures Keeps(a, c, p, e1 + e2)
  {
    forall i | 0 <= i < |a|
      ensures c[i].children == a[i].children + (if i == p then e1 + e2 else [])
    {
      if i == p {
        assert c[i].children == (a[i].children + e1) + e2;
      }
    }
  }

  /** The last id of a chain, or -1 for the empty chain. */
  function ParentOf(anc: seq<DefId>): int
  {
    if anc == [] then -1 else anc[|anc| - 1]
  }

  /**
   * Binding the definitions `ds` below a chain that ends in an existing
   * definition `p` keeps every existing entry, except that the ids given to
   * the definitions of `ds` are appended to the children of `p`.
   */
  lemma {:induction false} BindDefsKeeps(natives: seq<NativeEntry>, st: St, anc: seq<DefId>, ds: seq<HirDef>)
    requires st.defs.Closed() && ChainOk(st.defs, anc) && anc != []
    ensures Keeps(st.defs.list, BindDefs(natives, st, anc, ds).defs.list, ParentOf(anc), ChildIds(|st.defs.list|, ds))
    decreases ds, 0
  {
    var n := |st.defs.list|;
    if ds == [] {
      assert Keeps(st.defs.list, st.defs.list, ParentOf(anc), []);
    } else {
      var pre := ds[..|ds| - 1];
      var mid := BindDefs(natives, st, anc, pre);
      assert ChainOk(mid.defs, anc);
      var last := BindDef(natives, mid, anc, ds[|ds| - 1]);
      assert BindDefs(natives, st, anc, ds) == last;
      BindDefsKeeps(natives, st, anc, pre);
      BindDefKeeps(natives, mid, anc, ds[|ds| - 1]);
      assert ChildIds(n, ds) == ChildIds(n, pre) + [|mid.defs.list|];
      KeepsCompose(st.defs.list, mid.defs.list, last.defs.list, ParentOf(anc), ChildIds(n, pre), [|mid.defs.list|]);
    }
  }

  /**
   * Binding one definition keeps every existing entry, except that its id
   * is appended to the children of the last id of the chain.
   */
  lemma {:induction false} BindDefKeeps(natives: seq<NativeEntry>, st: St, anc: seq<DefId>, d: HirDef)
    requires st.defs.Closed() && ChainOk(st.defs, anc)
    ensures Keeps(st.defs.list, BindDef(natives, st, anc, d).defs.list, ParentOf(anc), [|st.defs.list|])
    decreases d, 1
  {
    var n := |st.defs.list|;
    var entered := Enter(st.defs, anc, d.name, d.args);
    var st1 := St(entered, st.errs, st.recs);
    var inner := BindDefs(natives, st1, anc + [n], d.defs);
    BindDefsKeeps(natives, st1, anc + [n], d.defs);
    assert ParentOf(anc + [n]) == n;
    var lo := Lower(Scope(inner.defs, natives, n), [], d.body);
    var r := BindDef(natives, st, anc, d).defs.list;
    assert r == SetBody(inner.defs, n, lo.out).list;
    EnterKeeps(st.defs, anc, d.name, d.args);
    KeepsBelow(st.defs.list, entered.list, inner.defs.list, r, ParentOf(anc), [n], n, ChildIds(n + 1, d.defs));
  }

  lemma EnterKeeps(defs: Defs, anc: seq<DefId>, name: string, args: seq<Arg>)
    requires ChainOk(defs, anc)
    ensures Keeps(defs.list, Enter(defs, anc, name, args).list, ParentOf(anc), [|defs.list|])
  {
  }

  /**
   * If `b` keeps `a`, `c` keeps `b` apart from the children of the entry
   * `n` just past `a`, and `d` agrees with `c` below `n`, then `d` keeps `a`.
   */
  lemma KeepsBelow(a: seq<Def>, b: seq<Def>, c: seq<Def>, d: seq<Def>, p: int, e: seq<DefId>, n: nat, e2: seq<DefId>)
    requires |a| == n && Keeps(a, b, p, e) && Keeps(b, c, n, e2)
    requires |d| >= n && forall i | 0 <= i < n :: d[i] == c[i]
    ensures Keeps(a, d, p, e)
  {
  }

  /**
   * The entry of a bound definition: the next free id `n`, its name, its
   * arguments and the chain as ancestors; not marked recursive; the ids of
   * its nested definitions as children; and as body its filter lowered
   * against the final table with that body reset to the placeholder, which
   * is the table at the time the body was lowered.
   */
  lemma BindDefEntry(natives: seq<NativeEntry>, st: St, anc: seq<DefId>, d: HirDef)
    requires st.defs.Closed() && ChainOk(st.defs, anc)
    ensures var r, n := BindDef(natives, st, anc, d).defs, |st.defs.list|;
      && r.list[n].name == d.name && r.list[n].args == d.args
      && r.list[n].ancestors == anc && !r.list[n].recursive
      && r.list[n].children == ChildIds(n + 1, d.defs)
      && SetBody(r, n, Placeholder).Closed()
      && r.list[n].body == Lower(Scope(SetBody(r, n, Placeholder), natives, n), [], d.body).out
  {
    var n := |st.defs.list|;
    var entered := Enter(st.defs, anc, d.name, d.args);
    var st1 := St(entered, st.errs, st.recs);
    var inner := BindDefs(natives, st1, anc + [n], d.defs);
    BindDefsKeeps(natives, st1, anc + [n], d.defs);
    assert SameBut(inner.defs.list[n], entered.list[n]);
    var lo := Lower(Scope(inner.defs, natives, n), [], d.body);
    var r := BindDef(natives, st, anc, d).defs;
    assert r == SetBody(inner.defs, n, lo.out);
    assert SetBody(r, n, Placeholder) == inner.defs by {
      assert SetBody(r, n, Placeholder).list == inner.defs.list;
    }
  }

  /** Errors and recursive ids are only appended to. */
  lemma {:induction false} BindDefsLog(natives: seq<NativeEntry>, st: St, anc: seq<DefId>, ds: seq<HirDef>)
    requires st.defs.Closed() && ChainOk(st.defs, anc)
    ensures var r := BindDefs(natives, st, anc, ds);
      st.errs <= r.errs && st.recs <= r.recs
    decreases ds, 0
  {
    if ds != [] {
      var pre := ds[..|ds| - 1];
      var mid := BindDefs(natives, st, anc, pre);
      BindDefsLog(natives, st, anc, pre);
      BindDefLog(natives, mid, anc, ds[|ds| - 1]);
    }
  }

  lemma {:induction false} BindDefLog(natives: seq<NativeEntry>, st: St, anc: seq<DefId>, d: HirDef)
    requires st.defs.Closed() && ChainOk(st.defs, anc)
    ensures var r := BindDef(natives, st, anc, d);
      st.errs <= r.errs && st.recs <= r.recs
    decreases d, 1
  {
    var n := |st.defs.list|;
    var st1 := St(Enter(st.defs, anc, d.name, d.args), st.errs, st.recs);
    var inner := BindDefs(natives, st1, anc + [n], d.defs);
    BindDefsLog(natives, st1, anc + [n], d.defs);
    var lo := Lower(Scope(inner.defs, natives, n), [], d.body);
    var r := BindDef(natives, st, anc, d);
    assert r.errs == inner.errs + lo.errs && r.recs == inner.recs + lo.recs;
    PrefixAppend(st.errs, inner.errs, lo.errs);
    PrefixAppend(st.recs, inner.recs, lo.recs);
  }

  lemma PrefixAppend<T>(a: seq<T>, b: seq<T>, c: seq<T>)
    requires a <= b
    ensures a <= b + c
  {
    assert (b + c)[..|a|] == b[..|a|];
  }

  /** Every recorded recursive id stays an entry of the table. */
  lemma {:induction false} BindDefsRecs(natives: seq<NativeEntry>, st: St, anc: seq<DefId>, ds: seq<HirDef>)
    requires st.defs.Closed() && ChainOk(st.defs, anc) && RecsOk(st)
    ensures RecsOk(BindDefs(natives, st, anc, ds))
    decreases ds, 0
  {
    if ds != [] {
      var pre := ds[..|ds| - 1];
      var mid := BindDefs(natives, st, anc, pre);
      BindDefsRecs(natives, st, anc, pre);
      BindDefRecs(natives, mid, anc, ds[|ds| - 1]);
    }
  }

  lemma {:induction false} BindDefRecs(natives: seq<NativeEntry>, st: St, anc: seq<DefId>, d: HirDef)
    requires st.defs.Closed() && ChainOk(st.defs, anc) && RecsOk(st)
    ensures RecsOk(BindDef(natives, st, anc, d))
    decreases d, 1
  {
    var n := |st.defs.list|;
    var st1 := St(Enter(st.defs, anc, d.name, d.args), st.errs, st.recs);
    var inner := BindDefs(natives, st1, anc + [n], d.defs);
    BindDefsRecs(natives, st1, anc + [n], d.defs);
    var sc := Scope(inner.defs, natives, n);
    var lo := Lower(sc, [], d.body);
    var r := BindDef(natives, st, anc, d);
    assert r.recs == inner.recs + lo.recs;
    ChainInRange(inner.defs, n);
    RecsInRange(inner.recs, lo.recs, sc.Chain(), |r.defs.list|);
  }

  lemma RecsInRange(a: seq<DefId>, b: seq<DefId>, chain: seq<DefId>, bound: nat)
    requires forall k | 0 <= k < |a| :: a[k] < bound
    requires forall k | 0 <= k < |b| :: b[k] in chain
    requires forall x | x in chain :: x < bound
    ensures forall k | 0 <= k < |a + b| :: (a + b)[k] < bound
  {
    forall k | 0 <= k < |a + b|
      ensures (a + b)[k] < bound
    {
      if k >= |a| {
        assert (a + b)[k] == b[k - |a|];
      }
    }
  }

  /** The ids of a chain are entries of the table, when the table is valid. */
  lemma ChainIsOk(defs: Defs, anc: seq<DefId>)
    requires defs.Valid() && defs.IsChain(anc)
    ensures ChainOk(defs, anc)
  {
    var p := anc[|anc| - 1];
    ValidIsClosed(defs);
    assert anc == defs.list[p].ancestors + [p];
  }

  /** Pushing a new definition below a chain keeps the table valid, and extends the chain. */
  lemma EnterValid(defs: Defs, anc: seq<DefId>, name: string, args: seq<Arg>)
    requires defs.Valid() && defs.IsChain(anc)
    ensures ChainOk(defs, anc)
    ensures var r := Enter(defs, anc, name, args);
      r.Valid() && r.IsChain(anc + [|defs.list|])
  {
    ChainIsOk(defs, anc);
    var n := |defs.list|;
    var r := Enter(defs, anc, name, args);
    EnterAncestorsBefore(defs, anc, name, args);
    EnterChildrenAfter(defs, anc, name, args);
    EnterParentChains(defs, anc, name, args);
    EnterChildrenLinked(defs, anc, name, args);
    assert r.AncestorsAndMe(n) == anc + [n];
  }

  lemma EnterAncestorsBefore(defs: Defs, anc: seq<DefId>, name: string, args: seq<Arg>)
    requires defs.AncestorsBefore() && ChainOk(defs, anc)
    ensures Enter(defs, anc, name, args).AncestorsBefore()
  {
    var r := Enter(defs, anc, name, args);
    assert forall i | 0 <= i < |defs.list| :: r.list[i].ancestors == defs.list[i].ancestors;
  }

  lemma EnterChildrenAfter(defs: Defs, anc: seq<DefId>, name: string, args: seq<Arg>)
    requires defs.ChildrenAfter() && defs.AncestorsBefore() && ChainOk(defs, anc)
    ensures Enter(defs, anc, name, args).ChildrenAfter()
  {
    var n := |defs.list|;
    var r := Enter(defs, anc, name, args);
    forall i, k | 0 <= i < |r.list| && 0 <= k < |r.list[i].children|
      ensures i < r.list[i].children[k] < |r.list|
    {
      if i < n && k < |defs.list[i].children| {
        assert r.list[i].children[k] == defs.list[i].children[k];
      }
    }
  }

  lemma EnterParentChains(defs: Defs, anc: seq<DefId>, name: string, args: seq<Arg>)
    requires defs.ParentChains() && defs.IsChain(anc) && ChainOk(defs, anc)
    ensures Enter(defs, anc, name, args).ParentChains()
  {
    var n := |defs.list|;
    var r := Enter(defs, anc, name, args);
    forall i | 0 < i < |r.list|
      ensures r.IsChain(r.list[i].ancestors)
    {
      var ch := if i < n then defs.list[i].ancestors else anc;
      assert r.list[i].ancestors == ch;
      assert defs.IsChain(ch);
      var last := ch[|ch| - 1];
      assert r.list[last].ancestors == defs.list[last].ancestors;
    }
  }

  lemma EnterChildrenLinked(defs: Defs, anc: seq<DefId>, name: string, args: seq<Arg>)
    requires defs.ChildrenAfter() && defs.ChildrenLinked() && defs.AncestorsBefore()
    requires defs.IsChain(anc) && ChainOk(defs, anc)
    ensures Enter(defs, anc, name, args).ChildrenAfter() ==> Enter(defs, anc, name, args).ChildrenLinked()
  {
    var n := |defs.list|;
    var r := Enter(defs, anc, name, args);
    if r.ChildrenAfter() {
      forall i, k | 0 <= i < |r.list| && 0 <= k < |r.list[i].children|
        ensures r.list[r.list[i].children[k]].ancestors == r.AncestorsAndMe(i)
      {
        if i < n && k < |defs.list[i].children| {
          var c := defs.list[i].children[k];
          assert r.list[i].children[k] == c;
          assert r.list[c].ancestors == defs.list[c].ancestors;
        }
      }
    }
  }

  /** Replacing a body keeps the table valid: validity does not look at bodies. */
  lemma SetBodyValid(defs: Defs, id: DefId, body: Mir)
    requires defs.Valid() && id < |defs.list|
    ensures SetBody(defs, id, body).Valid()
  {
    SameShapeValid(defs, SetBody(defs, id, body));
  }

  /** Two tables of the same length whose entries agree on ancestors and children. */
  ghost predicate SameShape(a: Defs, b: Defs)
  {
    |a.list| == |b.list|
    && forall i | 0 <= i < |a.list| :: a.list[i].ancestors == b.list[i].ancestors && a.list[i].children == b.list[i].children
  }

  /** Validity only looks at ancestors and children. */
  lemma SameShapeValid(a: Defs, b: Defs)
    requires a.Valid() && SameShape(a, b)
    ensures b.Valid()
  {
    forall i | 0 < i < |b.list|
      ensures b.IsChain(b.list[i].ancestors)
    {
      var ch := a.list[i].ancestors;
      assert a.IsChain(ch);
      assert ch[|ch| - 1] < |a.list|;
      assert b.AncestorsAndMe(ch[|ch| - 1]) == a.AncestorsAndMe(ch[|ch| - 1]);
    }
    forall i, k | 0 <= i < |b.list| && 0 <= k < |b.list[i].children|
      ensures b.list[b.list[i].children[k]].ancestors == b.AncestorsAndMe(i)
    {
      assert b.list[i].children[k] == a.list[i].children[k];
    }
  }

  /**
   * Binding a definition below a chain of a valid table yields a valid
   * table: ids stay ordered, every definition's ancestors are its parent's
   * chain, and every child lists its parent's chain as its ancestors.
   */
  lemma {:induction false} BindDefValid(natives: seq<NativeEntry>, st: St, anc: seq<DefId>, d: HirDef)
    requires st.defs.Valid() && st.defs.IsChain(anc)
    ensures ChainOk(st.defs, anc)
    ensures BindDef(natives, st, anc, d).defs.Valid()
    decreases d, 1
  {
    var n := |st.defs.list|;
    EnterValid(st.defs, anc, d.name, d.args);
    var entered := Enter(st.defs, anc, d.name, d.args);
    var st1 := St(entered, st.errs, st.recs);
    ValidIsClosed(entered);
    BindDefsValid(natives, st1, anc + [n], d.defs);
    var inner := BindDefs(natives, st1, anc + [n], d.defs);
    var lo := Lower(Scope(inner.defs, natives, n), [], d.body);
    SetBodyValid(inner.defs, n, lo.out);
  }

  lemma {:induction false} BindDefsValid(natives: seq<NativeEntry>, st: St, anc: seq<DefId>, ds: seq<HirDef>)
    requires st.defs.Valid() && st.defs.IsChain(anc)
    ensures ChainOk(st.defs, anc)
    ensures BindDefs(natives, st, anc, ds).defs.Valid()
    decreases ds, 0
  {
    ChainIsOk(st.defs, anc);
    ValidIsClosed(st.defs);
    if ds != [] {
      var pre := ds[..|ds| - 1];
      BindDefsValid(natives, st, anc, pre);
      var mid := BindDefs(natives, st, anc, pre);
      BindDefsKeeps(natives, st, anc, pre);
      var p := anc[|anc| - 1];
      assert mid.defs.list[p].ancestors == st.defs.list[p].ancestors;
      assert mid.defs.IsChain(anc);
      BindDefValid(natives, mid, anc, ds[|ds| - 1]);
    }
  }

  /** Set the recursive flag of every definition whose id is listed in `recs`. */
  function MarkRecursive(defs: Defs, recs: seq<DefId>): (r: Defs)
    requires forall k | 0 <= k < |recs| :: recs[k] < |defs.list|
    ensures |r.list| == |defs.list|
    ensures forall i | 0 <= i < |defs.list| ::
      r.list[i] == defs.list[i].(recursive := defs.list[i].recursive || i in recs)
  {
    if recs == [] then defs
    else
      var pre := recs[..|recs| - 1];
      assert forall k | 0 <= k < |pre| :: pre[k] == recs[k];
      var m := MarkRecursive(defs, pre);
      var id := recs[|recs| - 1];
      assert forall i :: i in recs <==> i in pre || i == id by {
        assert recs == pre + [id];
      }
      Defs(m.list[id := m.list[id].(recursive := true)])
  }

  /**
   * `Ctx::root_def`: bind `d` below the root, then mark every definition
   * recorded as recursive so far.
   */
  function BindRoot(natives: seq<NativeEntry>, st: St, d: HirDef): (r: St)
    requires st.defs.Closed() && |st.defs.list| > 0 && RecsOk(st)
    ensures r.defs.Closed() && RecsOk(r) && |r.defs.list| == |st.defs.list| + DefCount(d)
  {
    BindDefRecs(natives, st, [RootId], d);
    var b := BindDef(natives, st, [RootId], d);
    var m := MarkRecursive(b.defs, b.recs);
    SameShapeClosed(b.defs, m);
    St(m, b.errs, b.recs)
  }

  /** `BindRoot` as the marking of what `BindDef` returns. */
  lemma BindRootUnfold(natives: seq<NativeEntry>, st: St, d: HirDef)
    requires st.defs.Closed() && |st.defs.list| > 0 && RecsOk(st)
    ensures var b := BindDef(natives, st, [RootId], d);
      RecsOk(b) && BindRoot(natives, st, d) == St(MarkRecursive(b.defs, b.recs), b.errs, b.recs)
  {
    BindDefRecs(natives, st, [RootId], d);
  }

  /** `Ctx::insert_defs`: bind the definitions `ds` below the root, one after the other. */
  function BindRoots(natives: seq<NativeEntry>, st: St, ds: seq<HirDef>): (r: St)
    requires st.defs.Closed() && |st.defs.list| > 0 && RecsOk(st)
    ensures r.defs.Closed() && RecsOk(r) && |r.defs.list| >= |st.defs.list|
  {
    if ds == [] then st
    else BindRoot(natives, BindRoots(natives, st, ds[..|ds| - 1]), ds[|ds| - 1])
  }

  /** Binding definitions below the root one after the other keeps the table valid. */
  lemma {:induction false} BindRootsValid(natives: seq<NativeEntry>, st: St, ds: seq<HirDef>)
    requires st.defs.Valid() && RecsOk(st)
    ensures st.defs.Closed() && |st.defs.list| > 0
    ensures BindRoots(natives, st, ds).defs.Valid()
  {
    ValidIsClosed(st.defs);
    if ds != [] {
      BindRootsValid(natives, st, ds[..|ds| - 1]);
      BindRootValid(natives, BindRoots(natives, st, ds[..|ds| - 1]), ds[|ds| - 1]);
    }
  }

  lemma SameShapeClosed(a: Defs, b: Defs)
    requires a.Closed() && SameShape(a, b)
    ensures b.Closed()
  {
  }

  /** In a valid table, the root alone is a chain. */
  lemma RootIsChain(defs: Defs)
    requires defs.Valid()
    ensures defs.IsChain([RootId]) && defs.Closed()
  {
    ValidIsClosed(defs);
    assert defs.AncestorsAndMe(RootId) == [RootId];
  }

  lemma MarkRecursiveMarks(defs: Defs, recs: seq<DefId>)
    requires forall k | 0 <= k < |recs| :: recs[k] < |defs.list|
    ensures SameShape(defs, MarkRecursive(defs, recs))
    ensures forall k | 0 <= k < |recs| :: MarkRecursive(defs, recs).list[recs[k]].recursive
  {
    var m := MarkRecursive(defs, recs);
    forall k | 0 <= k < |recs|
      ensures m.list[recs[k]].recursive
    {
      assert recs[k] in recs;
    }
  }

  /**
   * After binding a root definition the table is still valid, and every
   * definition recorded as recursive carries the recursive flag.
   */
  lemma BindRootValid(natives: seq<NativeEntry>, st: St, d: HirDef)
    requires st.defs.Valid() && RecsOk(st)
    ensures st.defs.Closed() && |st.defs.list| > 0
    ensures var r := BindRoot(natives, st, d);
      r.defs.Valid() && forall k | 0 <= k < |r.recs| :: r.defs.list[r.recs[k]].recursive
  {
    RootIsChain(st.defs);
    BindDefValid(natives, st, [RootId], d);
    BindDefRecs(natives, st, [RootId], d);
    var b := BindDef(natives, st, [RootId], d);
    MarkRecursiveMarks(b.defs, b.recs);
    SameShapeValid(b.defs, MarkRecursive(b.defs, b.recs));
  }
}
