/**
 * What lowering does with names: which binding a variable refers to, where
 * `as` and `reduce`/`foreach` bind their variable, and which definition a
 * call resolves to in small programs.
 */
module MirScoping {
  import opened Wrappers
  import opened Syntax
  import opened MirNum
  import opened MirDefs
  import opened MirResolve
  import opened MirBind

  /**
   * `$v` refers to the rightmost occurrence of `v` among the variables in
   * scope, with no error; an undefined variable is reported and becomes
   * the variable 0.
   */
  lemma VarResolution(sc: Scope, vars: seq<string>, v: string, span: Span)
    requires sc.Ok()
    ensures var names, lo := VarsInScope(sc, vars), Lower(sc, vars, Spanned(Filter.Var(v), span));
      && lo.recs == [] && lo.out.span == span && lo.out.f.Var?
      && (v in names ==>
            lo.errs == [] && lo.out.f.v < |names| && names[lo.out.f.v] == v
            && forall j | lo.out.f.v < j < |names| :: names[j] != v)
      && (v !in names ==> lo.out.f.v == 0 && lo.errs == [Error(span, UndefinedVariable)])
  {
  }

  /** The variables in scope of the right-hand side of `l as $x | r`: those of the left, then `x`. */
  lemma BindingExtendsScope(sc: Scope, vars: seq<string>, x: string)
    requires sc.Ok()
    ensures VarsInScope(sc, vars + [x]) == VarsInScope(sc, vars) + [x]
  {
    assert VarNames(sc.defs.Args(sc.id)) + (vars + [x]) == (VarNames(sc.defs.Args(sc.id)) + vars) + [x];
  }

  /**
   * In `l as $x | $x`, the `$x` on the right refers to the binding made by
   * `as`, which is the newest variable in scope, whatever `l` is and
   * whatever other bindings of `x` exist.
   */
  lemma AsBindingShadows(sc: Scope, vars: seq<string>, l: Hir, x: string, span: Span, rspan: Span)
    requires sc.Ok()
    ensures var lo := Lower(sc, vars, Spanned(Binary(l, Pipe(Some(x)), Spanned(Filter.Var(x), rspan)), span));
      && lo.out.f.Binary? && lo.out.f.l == Lower(sc, vars, l).out
      && lo.out.f.r == Spanned(Filter.Var(|VarsInScope(sc, vars)|), rspan)
      && lo.errs == Lower(sc, vars, l).errs
  {
    BindingExtendsScope(sc, vars, x);
    var names := VarsInScope(sc, vars) + [x];
    assert RPosition(names, x) == Some(|names| - 1);
    var rv := Spanned(Filter.Var(x), rspan);
    assert Lower(sc, vars + [x], rv) == LowerVar(sc, vars + [x], rv);
  }

  /**
   * In `$x as $x | r` with no `x` in scope, the `$x` on the left is an
   * undefined variable: `as` binds its variable on the right only.
   */
  lemma AsDoesNotBindLeft(sc: Scope, vars: seq<string>, x: string, r: Hir, span: Span, lspan: Span)
    requires sc.Ok() && x !in VarsInScope(sc, vars)
    ensures var lo := Lower(sc, vars, Spanned(Binary(Spanned(Filter.Var(x), lspan), Pipe(Some(x)), r), span));
      && lo.out.f.Binary? && lo.out.f.l == Spanned(Filter.Var(0), lspan)
      && |lo.errs| > 0 && lo.errs[0] == Error(lspan, UndefinedVariable)
  {
    var lv := Spanned(Filter.Var(x), lspan);
    assert Lower(sc, vars, lv) == LowerVar(sc, vars, lv);
  }

  /**
   * In a fold over `$x` with source `$x`, initial value `$x` and update
   * `$x`, and no `x` in scope: the source and the initial value are
   * undefined variables, in that order, and the update refers to the
   * fold's own binding, the newest variable in scope.
   */
  lemma FoldBindsUpdateOnly(sc: Scope, vars: seq<string>, typ: FoldType, x: string, span: Span, s1: Span, s2: Span, s3: Span)
    requires sc.Ok() && x !in VarsInScope(sc, vars)
    ensures var lo := Lower(sc, vars, Spanned(Fold(typ, Spanned(Filter.Var(x), s1), x, Spanned(Filter.Var(x), s2), Spanned(Filter.Var(x), s3)), span));
      && lo.out == Spanned(Fold(typ, Spanned(Filter.Var(0), s1), x, Spanned(Filter.Var(0), s2), Spanned(Filter.Var(|VarsInScope(sc, vars)|), s3)), span)
      && lo.errs == [Error(s1, UndefinedVariable), Error(s2, UndefinedVariable)]
      && lo.recs == []
  {
    BindingExtendsScope(sc, vars, x);
    var names := VarsInScope(sc, vars) + [x];
    assert RPosition(names, x) == Some(|names| - 1);
    var v1, v2, v3 := Spanned(Filter.Var(x), s1), Spanned(Filter.Var(x), s2), Spanned(Filter.Var(x), s3);
    assert Lower(sc, vars, v1) == LowerVar(sc, vars, v1);
    assert Lower(sc, vars, v2) == LowerVar(sc, vars, v2);
    assert Lower(sc, vars + [x], v3) == LowerVar(sc, vars + [x], v3);
  }

  /**
   * The table at the moment the body of `g` is lowered in
   * `def f: 1; def g(f): f;`: the root (id 0), `f` (id 1) with its body
   * lowered, and `g` (id 2) with its argument `f` and no body yet.
   */
  function ShadowTable(): Defs
  {
    Defs([
      Def("", [], [1, 2], [], false, Placeholder),
      Def("f", [], [], [0], false, Spanned(Num(Int(1)), Span(7, 8))),
      Def("g", [NonVar("f")], [], [0], false, Placeholder)])
  }

  lemma ShadowTableClosed()
    ensures ShadowTable().Closed()
  {
    var t := ShadowTable();
    assert t.list[0].children == [1, 2];
  }

  /** The call `f` without arguments, in the body of `g`, resolves to the definition `f`. */
  lemma ShadowResolve()
    ensures ShadowTable().Closed()
    ensures Resolve(Scope(ShadowTable(), [], 2), "f", 0) == Some(DefCall(1))
  {
    ShadowTableClosed();
    var t := ShadowTable();
    assert Scope(t, [], 2).Chain() == [0, 2];
    assert LatestChildPos(t, [1, 2], "f", 0) == Some(0) by {
      assert !Matches(t, 2, "f", 0);
      assert LatestChildPos(t, [1, 2][..1], "f", 0) == Some(0);
    }
    assert LocalCallee(t, 0, "f", 0) == Some(DefCall(1));
  }

  /**
   * In `def f: 1; def g(f): f;` the call `f` in the body of `g` is lowered
   * to a call of the root-level definition `f`, not of the argument `f` of
   * `g`: the chain is searched root first, so an outer definition shadows
   * an inner argument of the same name.
   */
  lemma OuterDefShadowsArgument(span: Span)
    ensures ShadowTable().Closed()
    ensures var lo := Lower(Scope(ShadowTable(), [], 2), [], Spanned(Call("f", []), span));
      lo.out == Spanned(Call(DefCall(1), []), span) && lo.errs == [] && lo.recs == []
  {
    ShadowResolve();
    var sc := Scope(ShadowTable(), [], 2);
    assert sc.Chain() == [0, 2];
    var c := ResolveCall(sc, span, "f", []);
    assert c == Outs(Spanned(Call(DefCall(1), []), span), [], []);
    var call := Spanned(Call("f", []), span);
    assert Lower(sc, [], call) == LowerCallOf(sc, [], call);
    assert LowerSeq(sc, [], []) == Outs([], [], []);
    assert LowerCall(sc, span, "f", Outs([], [], [])) == Outs(c.out, [] + c.errs, [] + c.recs);
  }

  /** `def f: 1;` as parsed: no arguments, no nested definitions, the body `1`. */
  function ShadowF(): HirDef
  {
    HirDef("f", [], [], Spanned(Num("1"), Span(7, 8)))
  }

  /** `def g(f): f;` as parsed, with the body `f` at `span`. */
  function ShadowG(span: Span): HirDef
  {
    HirDef("g", [NonVar("f")], [], Spanned(Call("f", []), span))
  }

  /** The table after binding `def f: 1;` at the root of a fresh table. */
  function ShadowTableF(): Defs
  {
    Defs([
      Def("", [], [1], [], false, Placeholder),
      Def("f", [], [], [0], false, Spanned(Num(Int(1)), Span(7, 8)))])
  }

  /** Binding `def f: 1;` at the root of a fresh table gives `ShadowTableF`, with no reports. */
  lemma ShadowBindF()
    ensures Defs.New([]).Valid()
    ensures BindRoot([], St(Defs.New([]), [], []), ShadowF()) == St(ShadowTableF(), [], [])
  {
    var t0 := Defs.New([]);
    var st0 := St(t0, [], []);
    ValidIsClosed(t0);
    assert t0 == Defs([Def("", [], [], [], false, Placeholder)]);
    var e1 := Enter(t0, [RootId], "f", []);
    assert e1.list[0] == Def("", [], [1], [], false, Placeholder);
    assert e1.list[1] == Def("f", [], [], [0], false, Placeholder);
    assert e1 == Defs([Def("", [], [1], [], false, Placeholder), Def("f", [], [], [0], false, Placeholder)]);
    assert BindDefs([], St(e1, [], []), [RootId, 1], []) == St(e1, [], []);
    assert Digits(1) == "1";
    IntLiteralRoundTrip(1);
    var body := Spanned(Num("1"), Span(7, 8));
    assert Lower(Scope(e1, [], 1), [], body) == Outs(Spanned(Num(Int(1)), Span(7, 8)), [], []);
    var b1 := BindDef([], st0, [RootId], ShadowF());
    assert b1 == St(SetBody(e1, 1, Spanned(Num(Int(1)), Span(7, 8))), [], []);
    BindRootUnfold([], st0, ShadowF());
    assert MarkRecursive(b1.defs, []) == b1.defs;
    assert b1.defs.list == ShadowTableF().list;
  }

  /**
   * `ShadowTable` is what the binder builds: binding `def f: 1;` at the
   * root of a fresh table, then entering `g(f)`, gives exactly that table,
   * and binding `f` reports nothing.
   */
  lemma ShadowTableDerived()
    ensures Defs.New([]).Valid()
    ensures var st := BindRoot([], St(Defs.New([]), [], []), ShadowF());
      && st.errs == [] && st.recs == []
      && Enter(st.defs, [RootId], "g", [NonVar("f")]) == ShadowTable()
  {
    ShadowBindF();
    ShadowEnterG();
  }

  /** Entering `g(f)` below the root of `ShadowTableF` gives `ShadowTable`. */
  lemma ShadowEnterG()
    ensures ShadowTableF().Closed()
    ensures Enter(ShadowTableF(), [RootId], "g", [NonVar("f")]) == ShadowTable()
  {
    var d1 := ShadowTableF();
    assert d1.list[0].children == [1];
    var e2 := Enter(d1, [RootId], "g", [NonVar("f")]);
    assert e2.list[0] == Def("", [], [1, 2], [], false, Placeholder);
    assert e2.list[1] == d1.list[1];
    assert e2.list[2] == Def("g", [NonVar("f")], [], [0], false, Placeholder);
    assert e2.list == ShadowTable().list;
  }

  /** `Ctx::def` on `def g(f): f;` below the root of `ShadowTableF` gives `g` the body calling definition 1. */
  lemma ShadowDefG(span: Span)
    ensures ShadowTableF().Closed()
    ensures BindDef([], St(ShadowTableF(), [], []), [RootId], ShadowG(span)) == St(SetBody(ShadowTable(), 2, Spanned(Call(DefCall(1), []), span)), [], [])
  {
    ShadowEnterG();
    OuterDefShadowsArgument(span);
    var t := ShadowTable();
    assert BindDefs([], St(t, [], []), [RootId, 2], []) == St(t, [], []);
  }

  /** Binding `def g(f): f;` after `def f: 1;` sets the body of `g` to the call of definition 1, with no reports. */
  lemma ShadowBindG(span: Span)
    ensures ShadowTableF().Closed()
    ensures BindRoot([], St(ShadowTableF(), [], []), ShadowG(span)) == St(SetBody(ShadowTable(), 2, Spanned(Call(DefCall(1), []), span)), [], [])
  {
    ShadowDefG(span);
    var st1 := St(ShadowTableF(), [], []);
    var b2 := BindDef([], st1, [RootId], ShadowG(span));
    BindRootUnfold([], st1, ShadowG(span));
    assert MarkRecursive(b2.defs, []) == b2.defs;
  }

  /**
   * The whole program `def f: 1; def g(f): f;`, bound at the root of a
   * fresh table: no errors and no recursive calls, and the body of `g`
   * calls the root-level definition `f` (id 1), not its own argument.
   */
  lemma ShadowProgram(span: Span)
    ensures Defs.New([]).Valid()
    ensures var st := BindRoots([], St(Defs.New([]), [], []), [ShadowF(), ShadowG(span)]);
      && st.errs == [] && st.recs == [] && |st.defs.list| == 3
      && st.defs.list[2].name == "g" && st.defs.list[2].body == Spanned(Call(DefCall(1), []), span)
  {
    ShadowBindF();
    ShadowBindG(span);
    ValidIsClosed(Defs.New([]));
    var st0 := St(Defs.New([]), [], []);
    var ds := [ShadowF(), ShadowG(span)];
    assert ds[..1] == [ShadowF()] && ds[..1][..0] == [];
    assert BindRoots([], st0, ds[..1]) == St(ShadowTableF(), [], []);
  }
}
