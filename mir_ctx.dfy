/**
 * The binder's context (`Ctx` in jaq-core/src/mir.rs): the errors found so
 * far, the ids of recursively called definitions, the table of definitions
 * and the registered native filters. Its methods update these fields in
 * place and are proved against the pure functions of `MirBind` and
 * `MirResolve`.
 */
module MirCtx {
  import opened Wrappers
  import opened Syntax
  import opened MirNum
  import opened MirDefs
  import opened MirResolve
  import opened MirBind
  import opened Seqs

  class Ctx {
    var errs: seq<Error>
    var recs: seq<DefId>
    var defs: Defs
    var native: seq<NativeEntry>

    /** The table is valid and every recorded recursive id is one of its entries. */
    ghost predicate Valid()
      reads this
    {
      defs.Valid() && RecsOk(St(defs, errs, recs))
    }

    function State(): St
      reads this
    {
      St(defs, errs, recs)
    }

    /** `Ctx::new`: no errors, no natives, and the root definition binding the global variables. */
    constructor (vars: seq<string>)
      ensures errs == [] && recs == [] && native == [] && defs == Defs.New(vars)
      ensures Valid()
    {
      errs := [];
      recs := [];
      native := [];
      defs := Defs.New(vars);
    }

    /** `Ctx::insert_native`: register a native filter after all earlier ones. */
    method InsertNative(name: string, arity: nat, f: Native)
      modifies this
      ensures native == old(native) + [NativeEntry(name, arity, f)]
      ensures State() == old(State())
    {
      native := native + [NativeEntry(name, arity, f)];
    }

    /** `Ctx::insert_natives`: register native filters in order. */
    method InsertNatives(natives: seq<NativeEntry>)
      modifies this
      ensures native == old(native) + natives
      ensures State() == old(State())
    {
      var k := 0;
      while k < |natives|
        invariant k <= |natives|
        invariant native == old(native) + natives[..k]
        invariant State() == old(State())
      {
        var e := natives[k];
        InsertNative(e.name, e.arity, e.native);
        TakeSnoc(natives, k);
        k := k + 1;
      }
    }

    /** `Ctx::insert_defs`: bind parsed definitions below the root, one after the other. */
    method InsertDefs(ds: seq<HirDef>)
      requires Valid()
      modifies this`defs, this`errs, this`recs
      ensures Valid()
      ensures State() == BindRoots(native, old(State()), ds)
    {
      ValidIsClosed(defs);
      ghost var st0 := State();
      var k := 0;
      while k < |ds|
        invariant k <= |ds|
        invariant st0.defs.Closed() && |st0.defs.list| > 0 && RecsOk(st0)
        invariant State() == BindRoots(native, st0, ds[..k])
      {
        RootDef(ds[k]);
        TakeSnoc(ds, k);
        k := k + 1;
      }
      TakeAll(ds);
      BindRootsValid(native, st0, ds);
    }

    /**
     * `Ctx::root_def`: bind `d` below the root, then set the recursive flag
     * of every definition recorded as recursively called.
     */
    method RootDef(d: HirDef)
      requires defs.Closed() && |defs.list| > 0 && RecsOk(State())
      modifies this`defs, this`errs, this`recs
      ensures State() == BindRoot(native, old(State()), d)
    {
      ghost var st0 := State();
      Def([RootId], d);
      BindRootUnfold(native, st0, d);
      MarkRecs();
    }

    /** The loop of `Ctx::root_def` that sets the recursive flag of every recorded id. */
    method MarkRecs()
      requires forall j | 0 <= j < |recs| :: recs[j] < |defs.list|
      modifies this`defs
      ensures defs == MarkRecursive(old(defs), recs)
    {
      var k := 0;
      while k < |recs|
        invariant k <= |recs|
        invariant defs == MarkRecursive(old(defs), recs[..k])
      {
        var i := recs[k];
        defs := Defs(defs.list[i := defs.list[i].(recursive := true)]);
        TakeSnoc(recs, k);
        k := k + 1;
      }
      TakeAll(recs);
    }

    /** `Ctx::root_filter`: lower the main filter and make it the body of the root. */
    method RootFilter(f: Hir)
      requires defs.Closed() && |defs.list| > 0
      modifies this
      ensures var lo := Lower(Scope(old(defs), native, RootId), [], f);
        defs == SetBody(old(defs), RootId, lo.out) && errs == old(errs) + lo.errs && recs == old(recs) + lo.recs
      ensures native == old(native)
    {
      var body := Filter(RootId, [], f);
      defs := Defs(defs.list[RootId := defs.list[RootId].(body := body)]);
    }

    /**
     * `Ctx::def`: give `d` the next free id, register it with the last id of
     * `ancestors`, bind its nested definitions, then lower its body.
     */
    method Def(ancestors: seq<DefId>, d: HirDef)
      requires defs.Closed() && ChainOk(defs, ancestors)
      modifies this`defs, this`errs, this`recs
      ensures State() == BindDef(native, old(State()), ancestors, d)
      decreases d, 1
    {
      var id := |defs.list|;
      EnterDef(ancestors, d.name, d.args);
      var anc := ancestors + [id];
      DefAll(anc, d.defs);
      ghost var inner := State();
      var body := Filter(id, [], d.body);
      defs := Defs(defs.list[id := defs.list[id].(body := body)]);
      assert defs == SetBody(inner.defs, id, body);
    }

    /** The first half of `Ctx::def`: push a fresh entry for `d` and register it with its parent. */
    method EnterDef(ancestors: seq<DefId>, name: string, args: seq<Arg>)
      requires defs.Closed() && ChainOk(defs, ancestors)
      modifies this`defs
      ensures defs == Enter(old(defs), ancestors, name, args)
    {
      var id := |defs.list|;
      defs := Defs(defs.list + [MirDefs.Def(name, args, [], ancestors, false, Placeholder)]);
      if |ancestors| > 0 {
        var parent := ancestors[|ancestors| - 1];
        defs := Defs(defs.list[parent := defs.list[parent].(children := defs.list[parent].children + [id])]);
      }
    }

    /** The loop of `Ctx::def` over the nested definitions, in order. */
    method DefAll(anc: seq<DefId>, ds: seq<HirDef>)
      requires defs.Closed() && ChainOk(defs, anc)
      modifies this`defs, this`errs, this`recs
      ensures State() == BindDefs(native, old(State()), anc, ds)
      decreases ds, 0
    {
      ghost var st0 := State();
      var k := 0;
      while k < |ds|
        invariant k <= |ds|
        invariant State() == BindDefs(native, st0, anc, ds[..k])
      {
        assert ds[k] in ds;
        TakeSnoc(ds, k);
        Def(anc, ds[k]);
        k := k + 1;
      }
      TakeAll(ds);
    }

    /**
     * `Ctx::filter`: lower the filter `f` of definition `id` with the local
     * bindings `vars`, appending errors and recursive calls as it goes.
     */
    method Filter(id: DefId, vars: seq<string>, f: Hir) returns (r: Mir)
      requires defs.Closed() && id < |defs.list|
      modifies this`errs, this`recs
      ensures var lo := Lower(Scope(defs, native, id), vars, f);
        r == lo.out && errs == old(errs) + lo.errs && recs == old(recs) + lo.recs
      decreases f, 1
    {
      match f.f {
        case Call(_, _) =>
          r := FilterCallCase(id, vars, f);
        case Var(_) =>
          r := FilterVar(id, vars, f);
        case Binary(_, Pipe(Some(_)), _) =>
          r := FilterPipe(id, vars, f);
        case Fold(_, _, _, _, _) =>
          r := FilterFold(id, vars, f);
        case Binary(_, _, _) =>
          r := FilterBinary(id, vars, f);
        case Ite(_, _) =>
          r := FilterIte(id, vars, f);
        case Path(_, _) =>
          r := FilterPathCase(id, vars, f);
        case _ =>
          r := FilterSimple(id, vars, f);
      }
    }

    /** The cases of `Ctx::filter` with at most one sub-filter or collection. */
    method FilterSimple(id: DefId, vars: seq<string>, f: Hir) returns (r: Mir)
      requires defs.Closed() && id < |defs.list|
      requires f.f.Id? || f.f.Num? || f.f.Str? || f.f.Array? || f.f.Object? || f.f.Try? || f.f.Neg? || f.f.Recurse?
      modifies this`errs, this`recs
      ensures var lo := Lower(Scope(defs, native, id), vars, f);
        r == lo.out && errs == old(errs) + lo.errs && recs == old(recs) + lo.recs
      decreases f, 0
    {
      match f.f {
        case Id =>
          r := Spanned(Id, f.span);
        case Num(_) =>
          r := FilterNum(id, vars, f);
        case Str(s) =>
          r := Spanned(Str(s), f.span);
        case Array(e) =>
          var eo := FilterOpt(id, vars, e);
          r := Spanned(Array(eo), f.span);
        case Object(kvs) =>
          var ko := FilterKvs(id, vars, kvs);
          r := Spanned(Object(ko), f.span);
        case Try(b) =>
          var bo := Filter(id, vars, b);
          r := Spanned(Try(bo), f.span);
        case Neg(b) =>
          var bo := Filter(id, vars, b);
          r := Spanned(Neg(bo), f.span);
        case Recurse =>
          r := Spanned(Recurse, f.span);
      }
    }

    /** A call: its arguments from left to right, then the call itself. */
    method FilterCallCase(id: DefId, vars: seq<string>, f: Hir) returns (r: Mir)
      requires defs.Closed() && id < |defs.list| && f.f.Call?
      modifies this`errs, this`recs
      ensures var lo := LowerCallOf(Scope(defs, native, id), vars, f);
        r == lo.out && errs == old(errs) + lo.errs && recs == old(recs) + lo.recs
      decreases f, 0
    {
      ghost var sc := Scope(defs, native, id);
      var a := FilterSeq(id, vars, f.f.args);
      ghost var ao := LowerSeq(sc, vars, f.f.args);
      r := FilterCall(id, f.span, f.f.callee, a);
      ghost var c := ResolveCall(sc, f.span, f.f.callee, a);
      Assoc(old(errs), ao.errs, c.errs);
      Assoc(old(recs), ao.recs, c.recs);
    }

    /** A variable: its last occurrence among the variables in scope, else an error. */
    method FilterVar(id: DefId, vars: seq<string>, f: Hir) returns (r: Mir)
      requires defs.Closed() && id < |defs.list| && f.f.Var?
      modifies this`errs, this`recs
      ensures var lo := LowerVar(Scope(defs, native, id), vars, f);
        r == lo.out && errs == old(errs) + lo.errs && recs == old(recs) + lo.recs
    {
      var names := VarsInScope(Scope(defs, native, id), vars);
      match RPosition(names, f.f.v) {
        case Some(i) =>
          r := Spanned(Syntax.Filter.Var(i), f.span);
        case None =>
          errs := errs + [Error(f.span, UndefinedVariable)];
          r := Spanned(Syntax.Filter.Var(0), f.span);
      }
    }

    /** `l as $x | r`: `$x` is bound in `r` only. */
    method FilterPipe(id: DefId, vars: seq<string>, f: Hir) returns (r: Mir)
      requires defs.Closed() && id < |defs.list| && f.f.Binary? && f.f.op.Pipe? && f.f.op.bind.Some?
      modifies this`errs, this`recs
      ensures var lo := LowerPipe(Scope(defs, native, id), vars, f);
        r == lo.out && errs == old(errs) + lo.errs && recs == old(recs) + lo.recs
      decreases f, 0
    {
      ghost var sc := Scope(defs, native, id);
      var x := f.f.op.bind.value;
      var lo := Filter(id, vars, f.f.l);
      var ro := Filter(id, vars + [x], f.f.r);
      r := Spanned(Binary(lo, Pipe(Some(x)), ro), f.span);
      Assoc(old(errs), Lower(sc, vars, f.f.l).errs, Lower(sc, vars + [x], f.f.r).errs);
      Assoc(old(recs), Lower(sc, vars, f.f.l).recs, Lower(sc, vars + [x], f.f.r).recs);
    }

    /** Any other binary operator: both sides with the same bindings. */
    method FilterBinary(id: DefId, vars: seq<string>, f: Hir) returns (r: Mir)
      requires defs.Closed() && id < |defs.list| && f.f.Binary? && !(f.f.op.Pipe? && f.f.op.bind.Some?)
      modifies this`errs, this`recs
      ensures var lo := LowerBinary(Scope(defs, native, id), vars, f);
        r == lo.out && errs == old(errs) + lo.errs && recs == old(recs) + lo.recs
      decreases f, 0
    {
      ghost var sc := Scope(defs, native, id);
      var lo := Filter(id, vars, f.f.l);
      var ro := Filter(id, vars, f.f.r);
      r := Spanned(Binary(lo, f.f.op, ro), f.span);
      Assoc(old(errs), Lower(sc, vars, f.f.l).errs, Lower(sc, vars, f.f.r).errs);
      Assoc(old(recs), Lower(sc, vars, f.f.l).recs, Lower(sc, vars, f.f.r).recs);
    }

    /** A fold: the source and the initial value outside, the update inside the binding of `$x`. */
    method FilterFold(id: DefId, vars: seq<string>, f: Hir) returns (r: Mir)
      requires defs.Closed() && id < |defs.list| && f.f.Fold?
      modifies this`errs, this`recs
      ensures var lo := LowerFold(Scope(defs, native, id), vars, f);
        r == lo.out && errs == old(errs) + lo.errs && recs == old(recs) + lo.recs
      decreases f, 0
    {
      ghost var sc := Scope(defs, native, id);
      var x := f.f.x;
      var xo := Filter(id, vars, f.f.xs);
      var io := Filter(id, vars, f.f.init);
      var uo := Filter(id, vars + [x], f.f.update);
      r := Spanned(Fold(f.f.typ, xo, x, io, uo), f.span);
      ghost var a, b, c := Lower(sc, vars, f.f.xs), Lower(sc, vars, f.f.init), Lower(sc, vars + [x], f.f.update);
      Assoc(old(errs), a.errs, b.errs);
      Assoc(old(errs), a.errs + b.errs, c.errs);
      Assoc(old(recs), a.recs, b.recs);
      Assoc(old(recs), a.recs + b.recs, c.recs);
    }

    /** A number literal, with an error when an integer literal does not fit. */
    method FilterNum(id: DefId, vars: seq<string>, f: Hir) returns (r: Mir)
      requires defs.Closed() && id < |defs.list| && f.f.Num?
      modifies this`errs, this`recs
      ensures var lo := LowerNum(f);
        r == lo.out && errs == old(errs) + lo.errs && recs == old(recs) + lo.recs
    {
      match ParseNum(f.f.n) {
        case Ok(v) =>
          r := Spanned(Syntax.Filter.Num(v), f.span);
        case Err(v) =>
          errs := errs + [Error(f.span, NotMachineInt)];
          r := Spanned(Syntax.Filter.Num(v), f.span);
      }
    }

    /** `if`-`elif`-`else`: the branches in order, then the `else` branch. */
    method FilterIte(id: DefId, vars: seq<string>, f: Hir) returns (r: Mir)
      requires defs.Closed() && id < |defs.list| && f.f.Ite?
      modifies this`errs, this`recs
      ensures var lo := LowerIte(Scope(defs, native, id), vars, f);
        r == lo.out && errs == old(errs) + lo.errs && recs == old(recs) + lo.recs
      decreases f, 0
    {
      ghost var sc := Scope(defs, native, id);
      var po := FilterPairs(id, vars, f.f.ifThens);
      var eo := Filter(id, vars, f.f.els);
      r := Spanned(Ite(po, eo), f.span);
      Assoc(old(errs), LowerPairs(sc, vars, f.f.ifThens).errs, Lower(sc, vars, f.f.els).errs);
      Assoc(old(recs), LowerPairs(sc, vars, f.f.ifThens).recs, Lower(sc, vars, f.f.els).recs);
    }

    /** A path: its target, then its parts in order. */
    method FilterPathCase(id: DefId, vars: seq<string>, f: Hir) returns (r: Mir)
      requires defs.Closed() && id < |defs.list| && f.f.Path?
      modifies this`errs, this`recs
      ensures var lo := LowerPathOf(Scope(defs, native, id), vars, f);
        r == lo.out && errs == old(errs) + lo.errs && recs == old(recs) + lo.recs
      decreases f, 0
    {
      ghost var sc := Scope(defs, native, id);
      var to := Filter(id, vars, f.f.target);
      var po := FilterPath(id, vars, f.f.path);
      r := Spanned(Path(to, po), f.span);
      Assoc(old(errs), Lower(sc, vars, f.f.target).errs, LowerPath(sc, vars, f.f.path).errs);
      Assoc(old(recs), Lower(sc, vars, f.f.target).recs, LowerPath(sc, vars, f.f.path).recs);
    }

    /**
     * The call case of `Ctx::filter`, once the arguments are lowered:
     * resolve the callee; record a call of a definition of the chain as
     * recursive, with an error when that definition has a non-variable
     * argument; report a callee that is not found.
     */
    method FilterCall(id: DefId, span: Span, name: string, args: seq<Mir>) returns (r: Mir)
      requires defs.Closed() && id < |defs.list|
      modifies this`errs, this`recs
      ensures var c := ResolveCall(Scope(defs, native, id), span, name, args);
        r == c.out && errs == old(errs) + c.errs && recs == old(recs) + c.recs
    {
      var callee := FindCall(id, name, |args|);
      match callee {
        case None =>
          errs := errs + [Error(span, FunctionNotFound)];
          r := Spanned(Id, span);
        case Some(c) =>
          if c.DefCall? && c.id in defs.AncestorsAndMe(id) {
            if HasNonVarArg(defs.list[c.id].args) {
              errs := errs + [Error(span, RecursiveNonVarArg)];
            }
            recs := recs + [c.id];
          }
          r := Spanned(Call(c, args), span);
      }
    }

    /**
     * The search loop of `Ctx::filter` for a call with `arity` arguments:
     * over the chain of `id`, root first; within a definition, over its
     * children, latest first; then over the natives, first first.
     */
    method FindCall(id: DefId, name: string, arity: nat) returns (c: Option<Callee>)
      requires defs.Closed() && id < |defs.list|
      ensures c == Resolve(Scope(defs, native, id), name, arity)
    {
      var chain := defs.AncestorsAndMe(id);
      ChainInRange(defs, id);
      var k := 0;
      while k < |chain|
        invariant k <= |chain|
        invariant SearchChain(defs, native, chain, name, arity) == SearchChain(defs, native, chain[k..], name, arity)
      {
        c := FindLocal(chain[k], name, arity);
        if c.Some? {
          return;
        }
        assert chain[k..][1..] == chain[k + 1..];
        k := k + 1;
      }
      c := FindNative(name, arity);
    }

    /** The search of one definition of the chain: its children, latest first, then its non-variable arguments. */
    method FindLocal(a: DefId, name: string, arity: nat) returns (c: Option<Callee>)
      requires defs.Closed() && a < |defs.list|
      ensures c == LocalCallee(defs, a, name, arity)
    {
      var kids := defs.list[a].children;
      assert forall t | 0 <= t < |kids| :: kids[t] < |defs.list|;
      var j := |kids|;
      while j > 0
        invariant 0 <= j <= |kids|
        invariant forall t | j <= t < |kids| :: !Matches(defs, kids[t], name, arity)
      {
        var child := kids[j - 1];
        if defs.list[child].name == name && |defs.list[child].args| == arity {
          assert LatestChildPos(defs, kids, name, arity) == Some(j - 1);
          return Some(DefCall(child));
        }
        j := j - 1;
      }
      c := None;
      if arity == 0 {
        var p := defs.NonvarArgPosition(a, name);
        if p.Some? {
          c := Some(ArgCall(p.value));
        }
      }
    }

    /** The search of the registered natives, first first. */
    method FindNative(name: string, arity: nat) returns (c: Option<Callee>)
      ensures c == NativeCallee(native, name, arity)
    {
      var i := 0;
      while i < |native|
        invariant i <= |native|
        invariant forall t | 0 <= t < i :: !NativeMatches(native[t], name, arity)
      {
        if native[i].name == name && native[i].arity == arity {
          return Some(NativeCall(native[i].native));
        }
        i := i + 1;
      }
      return None;
    }

    /** Lower filters from left to right. */
    method FilterSeq(id: DefId, vars: seq<string>, fs: seq<Hir>) returns (out: seq<Mir>)
      requires defs.Closed() && id < |defs.list|
      modifies this`errs, this`recs
      ensures var lo := LowerSeq(Scope(defs, native, id), vars, fs);
        out == lo.out && errs == old(errs) + lo.errs && recs == old(recs) + lo.recs
      decreases fs, 0
    {
      ghost var sc := Scope(defs, native, id);
      out := [];
      var k := 0;
      while k < |fs|
        invariant k <= |fs|
        invariant var lo := LowerSeq(sc, vars, fs[..k]);
          out == lo.out && errs == old(errs) + lo.errs && recs == old(recs) + lo.recs
      {
        assert fs[k] in fs;
        ghost var p := LowerSeq(sc, vars, fs[..k]);
        var m := Filter(id, vars, fs[k]);
        out := out + [m];
        TakeSnoc(fs, k);
        Assoc(old(errs), p.errs, Lower(sc, vars, fs[k]).errs);
        Assoc(old(recs), p.recs, Lower(sc, vars, fs[k]).recs);
        k := k + 1;
      }
      TakeAll(fs);
    }

    method FilterOpt(id: DefId, vars: seq<string>, o: Option<Hir>) returns (out: Option<Mir>)
      requires defs.Closed() && id < |defs.list|
      modifies this`errs, this`recs
      ensures var lo := LowerOpt(Scope(defs, native, id), vars, o);
        out == lo.out && errs == old(errs) + lo.errs && recs == old(recs) + lo.recs
      decreases o, 0
    {
      match o {
        case None =>
          out := None;
        case Some(g) =>
          var m := Filter(id, vars, g);
          out := Some(m);
      }
    }

    method FilterKvs(id: DefId, vars: seq<string>, kvs: seq<KeyVal<Hir>>) returns (out: seq<KeyVal<Mir>>)
      requires defs.Closed() && id < |defs.list|
      modifies this`errs, this`recs
      ensures var lo := LowerKvs(Scope(defs, native, id), vars, kvs);
        out == lo.out && errs == old(errs) + lo.errs && recs == old(recs) + lo.recs
      decreases kvs, 0
    {
      ghost var sc := Scope(defs, native, id);
      out := [];
      var k := 0;
      while k < |kvs|
        invariant k <= |kvs|
        invariant var lo := LowerKvs(sc, vars, kvs[..k]);
          out == lo.out && errs == old(errs) + lo.errs && recs == old(recs) + lo.recs
      {
        var kv := kvs[k];
        assert kv in kvs;
        ghost var p := LowerKvs(sc, vars, kvs[..k]);
        var parts := FilterSeq(id, vars, kv.parts);
        out := out + [KeyVal(kv.form, parts)];
        TakeSnoc(kvs, k);
        Assoc(old(errs), p.errs, LowerSeq(sc, vars, kv.parts).errs);
        Assoc(old(recs), p.recs, LowerSeq(sc, vars, kv.parts).recs);
        k := k + 1;
      }
      TakeAll(kvs);
    }

    method FilterPairs(id: DefId, vars: seq<string>, ps: seq<(Hir, Hir)>) returns (out: seq<(Mir, Mir)>)
      requires defs.Closed() && id < |defs.list|
      modifies this`errs, this`recs
      ensures var lo := LowerPairs(Scope(defs, native, id), vars, ps);
        out == lo.out && errs == old(errs) + lo.errs && recs == old(recs) + lo.recs
      decreases ps, 0
    {
      ghost var sc := Scope(defs, native, id);
      out := [];
      var k := 0;
      while k < |ps|
        invariant k <= |ps|
        invariant var lo := LowerPairs(sc, vars, ps[..k]);
          out == lo.out && errs == old(errs) + lo.errs && recs == old(recs) + lo.recs
      {
        assert ps[k] in ps;
        ghost var p := LowerPairs(sc, vars, ps[..k]);
        var q := FilterPair(id, vars, ps[k]);
        out := out + [q];
        TakeSnoc(ps, k);
        Assoc(old(errs), p.errs, LowerPair(sc, vars, ps[k]).errs);
        Assoc(old(recs), p.recs, LowerPair(sc, vars, ps[k]).recs);
        k := k + 1;
      }
      TakeAll(ps);
    }

    method FilterPair(id: DefId, vars: seq<string>, pr: (Hir, Hir)) returns (out: (Mir, Mir))
      requires defs.Closed() && id < |defs.list|
      modifies this`errs, this`recs
      ensures var lo := LowerPair(Scope(defs, native, id), vars, pr);
        out == lo.out && errs == old(errs) + lo.errs && recs == old(recs) + lo.recs
      decreases pr, 0
    {
      ghost var sc, e0, r0 := Scope(defs, native, id), errs, recs;
      var i := Filter(id, vars, pr.0);
      var t := Filter(id, vars, pr.1);
      out := (i, t);
      Assoc(e0, Lower(sc, vars, pr.0).errs, Lower(sc, vars, pr.1).errs);
      Assoc(r0, Lower(sc, vars, pr.0).recs, Lower(sc, vars, pr.1).recs);
    }

    method FilterPart(id: DefId, vars: seq<string>, p: Part<Hir>) returns (out: Part<Mir>)
      requires defs.Closed() && id < |defs.list|
      modifies this`errs, this`recs
      ensures var lo := LowerPart(Scope(defs, native, id), vars, p);
        out == lo.out && errs == old(errs) + lo.errs && recs == old(recs) + lo.recs
      decreases p, 0
    {
      match p {
        case Index(i) =>
          var m := Filter(id, vars, i);
          out := Index(m);
        case Range(from, upto) =>
          var fo := FilterOpt(id, vars, from);
          var uo := FilterOpt(id, vars, upto);
          out := Range(fo, uo);
      }
    }

    method FilterPath(id: DefId, vars: seq<string>, path: seq<(Part<Hir>, bool)>) returns (out: seq<(Part<Mir>, bool)>)
      requires defs.Closed() && id < |defs.list|
      modifies this`errs, this`recs
      ensures var lo := LowerPath(Scope(defs, native, id), vars, path);
        out == lo.out && errs == old(errs) + lo.errs && recs == old(recs) + lo.recs
      decreases path, 0
    {
      ghost var sc := Scope(defs, native, id);
      out := [];
      var k := 0;
      while k < |path|
        invariant k <= |path|
        invariant var lo := LowerPath(sc, vars, path[..k]);
          out == lo.out && errs == old(errs) + lo.errs && recs == old(recs) + lo.recs
      {
        var pt := path[k];
        assert pt in path;
        ghost var p := LowerPath(sc, vars, path[..k]);
        var q := FilterPathEntry(id, vars, pt);
        out := out + [q];
        TakeSnoc(path, k);
        Assoc(old(errs), p.errs, LowerPathEntry(sc, vars, pt).errs);
        Assoc(old(recs), p.recs, LowerPathEntry(sc, vars, pt).recs);
        k := k + 1;
      }
      TakeAll(path);
    }

    method FilterPathEntry(id: DefId, vars: seq<string>, pt: (Part<Hir>, bool)) returns (out: (Part<Mir>, bool))
      requires defs.Closed() && id < |defs.list|
      modifies this`errs, this`recs
      ensures var lo := LowerPathEntry(Scope(defs, native, id), vars, pt);
        out == lo.out && errs == old(errs) + lo.errs && recs == old(recs) + lo.recs
      decreases pt, 0
    {
      var q := FilterPart(id, vars, pt.0);
      out := (q, pt.1);
    }
  }
}
