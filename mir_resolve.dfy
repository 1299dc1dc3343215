/**
 * Name resolution of one filter (`Ctx::filter` in jaq-core/src/mir.rs),
 * stated as a pure function of the definitions table.
 *
 * Lowering one filter never adds or removes definitions; it only reads the
 * table and appends to the error list and to the list of recursive calls.
 * `Lower` therefore takes the table as a value and returns the lowered
 * filter together with the errors and the recursive definition ids that the
 * source appends, in the order in which it appends them.
 */
module MirResolve {
  import opened Wrappers
  import opened Syntax
  import opened MirNum
  import opened MirDefs
  import Seqs

  /** Which error condition fired; the message text is not modelled. */
  datatype ErrorKind =
    | UndefinedVariable
    | FunctionNotFound
    | RecursiveNonVarArg
    | NotMachineInt

  datatype Error = Error(span: Span, kind: ErrorKind)

  /** A registered native filter: its name, its arity and its implementation. */
  datatype NativeEntry = NativeEntry(name: string, arity: nat, native: Native)

  /** What a lowering step produces, besides its output. */
  datatype Outs<T> = Outs(out: T, errs: seq<Error>, recs: seq<DefId>)

  /** What lowering a filter of definition `id` can see. */
  datatype Scope = Scope(defs: Defs, natives: seq<NativeEntry>, id: DefId)
  {
    ghost predicate Ok() { defs.Closed() && id < |defs.list| }

    function Chain(): seq<DefId>
      requires id < |defs.list|
    {
      defs.AncestorsAndMe(id)
    }
  }

  /** Every id of a chain of a closed table is an entry of the table. */
  lemma ChainInRange(defs: Defs, id: DefId)
    requires defs.Closed() && id < |defs.list|
    ensures forall k | 0 <= k < |defs.AncestorsAndMe(id)| :: defs.AncestorsAndMe(id)[k] < |defs.list|
    ensures forall x | x in defs.AncestorsAndMe(id) :: x < |defs.list|
  {
  }

  // ---------------------------------------------------------------------
  // Call resolution
  // ---------------------------------------------------------------------

  /** A definition matches a call when its name and its argument count agree. */
  predicate Matches(defs: Defs, c: DefId, name: string, arity: nat)
    requires c < |defs.list|
  {
    defs.list[c].name == name && |defs.list[c].args| == arity
  }

  /** The position of the last matching definition among `kids`. */
  function LatestChildPos(defs: Defs, kids: seq<DefId>, name: string, arity: nat): (r: Option<nat>)
    requires forall k | 0 <= k < |kids| :: kids[k] < |defs.list|
    ensures r.None? <==> forall k | 0 <= k < |kids| :: !Matches(defs, kids[k], name, arity)
    ensures r.Some? ==>
      r.value < |kids| && Matches(defs, kids[r.value], name, arity)
      && forall j | r.value < j < |kids| :: !Matches(defs, kids[j], name, arity)
  {
    if kids == [] then None
    else if Matches(defs, kids[|kids| - 1], name, arity) then Some(|kids| - 1)
    else LatestChildPos(defs, kids[..|kids| - 1], name, arity)
  }

  predicate NativeMatches(e: NativeEntry, name: string, arity: nat)
  {
    e.name == name && e.arity == arity
  }

  /** The position of the first registered native with the given name and arity. */
  function FirstNativePos(natives: seq<NativeEntry>, name: string, arity: nat): (r: Option<nat>)
    ensures r.None? <==> forall k | 0 <= k < |natives| :: !NativeMatches(natives[k], name, arity)
    ensures r.Some? ==>
      r.value < |natives| && NativeMatches(natives[r.value], name, arity)
      && forall j | 0 <= j < r.value :: !NativeMatches(natives[j], name, arity)
  {
    if natives == [] then None
    else
      var n := |natives| - 1;
      var p := FirstNativePos(natives[..n], name, arity);
      assert forall k | 0 <= k < n :: natives[..n][k] == natives[k];
      if p.Some? then p
      else if NativeMatches(natives[n], name, arity) then Some(n)
      else None
  }

  /**
   * A call `name` with `arity` arguments is found at definition `a` of the
   * chain when a child of `a` matches, or when the call has no arguments
   * and `a` has a non-variable argument of that name.
   */
  ghost predicate Hit(defs: Defs, a: DefId, name: string, arity: nat)
    requires defs.Closed() && a < |defs.list|
  {
    || (exists k | 0 <= k < |defs.list[a].children| :: Matches(defs, defs.list[a].children[k], name, arity))
    || (arity == 0 && name in NonVarNames(defs.list[a].args))
  }

  /**
   * What the call resolves to at definition `a`: the latest matching child,
   * else (for a call without arguments) the non-variable argument.
   */
  function LocalCallee(defs: Defs, a: DefId, name: string, arity: nat): (r: Option<Callee>)
    requires defs.Closed() && a < |defs.list|
    ensures r.Some? <==> Hit(defs, a, name, arity)
    ensures r.Some? && r.value.DefCall? ==>
      var kids := defs.list[a].children;
      exists k | 0 <= k < |kids| :: kids[k] == r.value.id && Matches(defs, kids[k], name, arity)
        && forall j | k < j < |kids| :: !Matches(defs, kids[j], name, arity)
    ensures r.Some? && r.value.ArgCall? ==>
      arity == 0 && (forall k | 0 <= k < |defs.list[a].children| :: !Matches(defs, defs.list[a].children[k], name, arity))
      && Some(r.value.idx) == defs.NonvarArgPosition(a, name)
    ensures r.Some? ==> !r.value.NativeCall?
  {
    var kids := defs.list[a].children;
    match LatestChildPos(defs, kids, name, arity)
    case Some(k) => Some(DefCall(kids[k]))
    case None =>
      if arity == 0 then
        match defs.NonvarArgPosition(a, name)
        case Some(i) => Some(ArgCall(i))
        case None => None
      else None
  }

  /** The first registered native with that name and arity, if any. */
  function NativeCallee(natives: seq<NativeEntry>, name: string, arity: nat): Option<Callee>
  {
    match FirstNativePos(natives, name, arity)
    case Some(i) => Some(NativeCall(natives[i].native))
    case None => None
  }

  /**
   * The search of `Ctx::filter` for a call: the definitions of the chain
   * are visited in chain order, root first, and the first one where the
   * call is found decides; if none does, the first matching native.
   */
  function SearchChain(defs: Defs, natives: seq<NativeEntry>, chain: seq<DefId>, name: string, arity: nat): (r: Option<Callee>)
    requires defs.Closed() && forall k | 0 <= k < |chain| :: chain[k] < |defs.list|
    ensures r.Some? && r.value.DefCall? ==> r.value.id < |defs.list|
  {
    if chain == [] then NativeCallee(natives, name, arity)
    else
      match LocalCallee(defs, chain[0], name, arity)
      case Some(c) => Some(c)
      case None => SearchChain(defs, natives, chain[1..], name, arity)
  }

  /**
   * The first definition of the chain where the call is found decides it,
   * whatever the later (inner) definitions of the chain hold.
   */
  lemma {:induction false} SearchChainFirstHit(defs: Defs, natives: seq<NativeEntry>, chain: seq<DefId>, name: string, arity: nat, k: nat)
    requires defs.Closed() && forall i | 0 <= i < |chain| :: chain[i] < |defs.list|
    requires k < |chain| && Hit(defs, chain[k], name, arity)
    requires forall j | 0 <= j < k :: !Hit(defs, chain[j], name, arity)
    ensures SearchChain(defs, natives, chain, name, arity) == LocalCallee(defs, chain[k], name, arity)
    decreases k
  {
    if k > 0 {
      var rest := chain[1..];
      assert !Hit(defs, chain[0], name, arity);
      assert forall j | 0 <= j < |rest| :: rest[j] == chain[j + 1];
      SearchChainFirstHit(defs, natives, rest, name, arity, k - 1);
    }
  }

  /** When no definition of the chain has the call, the first matching native decides. */
  lemma {:induction false} SearchChainNoHit(defs: Defs, natives: seq<NativeEntry>, chain: seq<DefId>, name: string, arity: nat)
    requires defs.Closed() && forall i | 0 <= i < |chain| :: chain[i] < |defs.list|
    requires forall j | 0 <= j < |chain| :: !Hit(defs, chain[j], name, arity)
    ensures SearchChain(defs, natives, chain, name, arity) == NativeCallee(natives, name, arity)
    decreases |chain|
  {
    if chain != [] {
      var rest := chain[1..];
      assert !Hit(defs, chain[0], name, arity);
      assert forall j | 0 <= j < |rest| :: rest[j] == chain[j + 1];
      SearchChainNoHit(defs, natives, rest, name, arity);
    }
  }

  /** The callee of a call `name` with `arity` arguments in definition `sc.id`. */
  function Resolve(sc: Scope, name: string, arity: nat): (r: Option<Callee>)
    requires sc.Ok()
    ensures r.Some? && r.value.DefCall? ==> r.value.id < |sc.defs.list|
  {
    ChainInRange(sc.defs, sc.id);
    SearchChain(sc.defs, sc.natives, sc.Chain(), name, arity)
  }

  // ---------------------------------------------------------------------
  // Variable resolution
  // ---------------------------------------------------------------------

  /**
   * The variables in scope in definition `sc.id` with the local bindings
   * `vars`: the variable arguments of the chain, outermost first, then the
   * local bindings, innermost last.
   */
  function VarsInScope(sc: Scope, vars: seq<string>): seq<string>
    requires sc.Ok()
  {
    VarNames(sc.defs.Args(sc.id)) + vars
  }

  // ---------------------------------------------------------------------
  // Lowering
  // ---------------------------------------------------------------------

  /** Every recorded recursive call targets a definition of the chain. */
  ghost predicate RecsInChain(sc: Scope, recs: seq<DefId>)
    requires sc.Ok()
  {
    forall k | 0 <= k < |recs| :: recs[k] in sc.Chain()
  }

  /**
   * `Ctx::filter`: lower the parsed filter `f` of definition `sc.id` with
   * the local variable bindings `vars`. Lowering never fails: every
   * problem becomes an entry of `errs`, and the output keeps the span of
   * its input.
   */
  function Lower(sc: Scope, vars: seq<string>, f: Hir): (r: Outs<Mir>)
    requires sc.Ok()
    ensures r.out.span == f.span
    ensures RecsInChain(sc, r.recs)
    decreases f, 1
  {
    match f.f
    case Call(_, _) => LowerCallOf(sc, vars, f)
    case Var(_) => LowerVar(sc, vars, f)
    case Binary(_, Pipe(Some(_)), _) => LowerPipe(sc, vars, f)
    case Fold(_, _, _, _, _) => LowerFold(sc, vars, f)
    case Id => Outs(Spanned(Id, f.span), [], [])
    case Num(_) => LowerNum(f)
    case Str(s) => Outs(Spanned(Str(s), f.span), [], [])
    case Array(e) =>
      var eo := LowerOpt(sc, vars, e);
      Outs(Spanned(Array(eo.out), f.span), eo.errs, eo.recs)
    case Object(kvs) =>
      var ko := LowerKvs(sc, vars, kvs);
      Outs(Spanned(Object(ko.out), f.span), ko.errs, ko.recs)
    case Try(b) =>
      var bo := Lower(sc, vars, b);
      Outs(Spanned(Try(bo.out), f.span), bo.errs, bo.recs)
    case Neg(b) =>
      var bo := Lower(sc, vars, b);
      Outs(Spanned(Neg(bo.out), f.span), bo.errs, bo.recs)
    case Recurse => Outs(Spanned(Recurse, f.span), [], [])
    case Binary(_, _, _) => LowerBinary(sc, vars, f)
    case Ite(_, _) => LowerIte(sc, vars, f)
    case Path(_, _) => LowerPathOf(sc, vars, f)
  }

  /** A call: its arguments from left to right, then the call itself. */
  function LowerCallOf(sc: Scope, vars: seq<string>, f: Hir): (r: Outs<Mir>)
    requires sc.Ok() && f.f.Call?
    ensures r.out.span == f.span
    ensures RecsInChain(sc, r.recs)
    decreases f, 0
  {
    LowerCall(sc, f.span, f.f.callee, LowerSeq(sc, vars, f.f.args))
  }

  /**
   * A variable refers to its last occurrence among the variables in scope;
   * an undefined variable is an error and becomes the variable 0.
   */
  function LowerVar(sc: Scope, vars: seq<string>, f: Hir): (r: Outs<Mir>)
    requires sc.Ok() && f.f.Var?
    ensures r.out.span == f.span && r.recs == []
  {
    match RPosition(VarsInScope(sc, vars), f.f.v)
    case Some(i) => Outs(Spanned(Filter.Var(i), f.span), [], [])
    case None => Outs(Spanned(Filter.Var(0), f.span), [Error(f.span, UndefinedVariable)], [])
  }

  /** `l as $x | r`: `$x` is bound in `r` only. */
  function LowerPipe(sc: Scope, vars: seq<string>, f: Hir): (r: Outs<Mir>)
    requires sc.Ok() && f.f.Binary? && f.f.op.Pipe? && f.f.op.bind.Some?
    ensures r.out.span == f.span
    ensures RecsInChain(sc, r.recs)
    decreases f, 0
  {
    var x := f.f.op.bind.value;
    var lo := Lower(sc, vars, f.f.l);
    var ro := Lower(sc, vars + [x], f.f.r);
    Outs(Spanned(Binary(lo.out, Pipe(Some(x)), ro.out), f.span), lo.errs + ro.errs, lo.recs + ro.recs)
  }

  /** A fold: the source and the initial value outside the binding of `$x`, the update inside it. */
  function LowerFold(sc: Scope, vars: seq<string>, f: Hir): (r: Outs<Mir>)
    requires sc.Ok() && f.f.Fold?
    ensures r.out.span == f.span
    ensures RecsInChain(sc, r.recs)
    decreases f, 0
  {
    var xo := Lower(sc, vars, f.f.xs);
    var io := Lower(sc, vars, f.f.init);
    var uo := Lower(sc, vars + [f.f.x], f.f.update);
    Outs(Spanned(Fold(f.f.typ, xo.out, f.f.x, io.out, uo.out), f.span),
      xo.errs + io.errs + uo.errs, xo.recs + io.recs + uo.recs)
  }

  /** A number literal; an integer literal that `isize` cannot hold is an error. */
  function LowerNum(f: Hir): (r: Outs<Mir>)
    requires f.f.Num?
    ensures r.out.span == f.span && r.recs == []
  {
    match ParseNum(f.f.n)
    case Ok(v) => Outs(Spanned(Filter.Num(v), f.span), [], [])
    case Err(v) => Outs(Spanned(Filter.Num(v), f.span), [Error(f.span, NotMachineInt)], [])
  }

  /** Any other binary operator: both sides with the same bindings. */
  function LowerBinary(sc: Scope, vars: seq<string>, f: Hir): (r: Outs<Mir>)
    requires sc.Ok() && f.f.Binary? && !(f.f.op.Pipe? && f.f.op.bind.Some?)
    ensures r.out.span == f.span
    ensures RecsInChain(sc, r.recs)
    decreases f, 0
  {
    var lo := Lower(sc, vars, f.f.l);
    var ro := Lower(sc, vars, f.f.r);
    Outs(Spanned(Binary(lo.out, f.f.op, ro.out), f.span), lo.errs + ro.errs, lo.recs + ro.recs)
  }

  /** `if`-`elif`-`else`: the branches in order, then the `else` branch. */
  function LowerIte(sc: Scope, vars: seq<string>, f: Hir): (r: Outs<Mir>)
    requires sc.Ok() && f.f.Ite?
    ensures r.out.span == f.span
    ensures RecsInChain(sc, r.recs)
    decreases f, 0
  {
    var po := LowerPairs(sc, vars, f.f.ifThens);
    var eo := Lower(sc, vars, f.f.els);
    Outs(Spanned(Ite(po.out, eo.out), f.span), po.errs + eo.errs, po.recs + eo.recs)
  }

  /** A path: its target, then its parts in order. */
  function LowerPathOf(sc: Scope, vars: seq<string>, f: Hir): (r: Outs<Mir>)
    requires sc.Ok() && f.f.Path?
    ensures r.out.span == f.span
    ensures RecsInChain(sc, r.recs)
    decreases f, 0
  {
    var to := Lower(sc, vars, f.f.target);
    var po := LowerPath(sc, vars, f.f.path);
    Outs(Spanned(Path(to.out, po.out), f.span), to.errs + po.errs, to.recs + po.recs)
  }

  /**
   * The call itself, once its arguments are lowered to `args`: a call of a
   * definition of the chain is recursive and recorded, and it is an error
   * when that definition has a non-variable argument; a call that resolves
   * to nothing is an error and becomes `.`. The result holds only what the
   * call itself adds to the errors and to the recursive ids.
   */
  function ResolveCall(sc: Scope, span: Span, name: string, args: seq<Mir>): (r: Outs<Mir>)
    requires sc.Ok()
    ensures r.out.span == span
    ensures RecsInChain(sc, r.recs)
  {
    match Resolve(sc, name, |args|)
    case None => Outs(Spanned(Id, span), [Error(span, FunctionNotFound)], [])
    case Some(callee) =>
      var m := Spanned(Call(callee, args), span);
      if callee.DefCall? && callee.id in sc.Chain() then
        var e := if HasNonVarArg(sc.defs.list[callee.id].args) then [Error(span, RecursiveNonVarArg)] else [];
        Outs(m, e, [callee.id])
      else Outs(m, [], [])
  }

  /** A call: its arguments from left to right, then the call itself. */
  function LowerCall(sc: Scope, span: Span, name: string, a: Outs<seq<Mir>>): (r: Outs<Mir>)
    requires sc.Ok() && RecsInChain(sc, a.recs)
    ensures r.out.span == span
    ensures RecsInChain(sc, r.recs)
  {
    var c := ResolveCall(sc, span, name, a.out);
    Outs(c.out, a.errs + c.errs, a.recs + c.recs)
  }

  /** Lower a sequence of filters from left to right. */
  function LowerSeq(sc: Scope, vars: seq<string>, fs: seq<Hir>): (r: Outs<seq<Mir>>)
    requires sc.Ok()
    ensures |r.out| == |fs| && forall k | 0 <= k < |fs| :: r.out[k].span == fs[k].span
    ensures RecsInChain(sc, r.recs)
    decreases fs, 0
  {
    if fs == [] then Outs([], [], [])
    else
      var p := LowerSeq(sc, vars, fs[..|fs| - 1]);
      var q := Lower(sc, vars, fs[|fs| - 1]);
      Outs(p.out + [q.out], p.errs + q.errs, p.recs + q.recs)
  }

  function LowerOpt(sc: Scope, vars: seq<string>, o: Option<Hir>): (r: Outs<Option<Mir>>)
    requires sc.Ok()
    ensures r.out.Some? <==> o.Some?
    ensures o.Some? ==> r.out.value.span == o.value.span
    ensures RecsInChain(sc, r.recs)
    decreases o, 0
  {
    match o
    case None => Outs(None, [], [])
    case Some(g) =>
      var go := Lower(sc, vars, g);
      Outs(Some(go.out), go.errs, go.recs)
  }

  /** Lower the entries of an object construction, each entry's filters in order. */
  function LowerKvs(sc: Scope, vars: seq<string>, kvs: seq<KeyVal<Hir>>): (r: Outs<seq<KeyVal<Mir>>>)
    requires sc.Ok()
    ensures |r.out| == |kvs| && forall k | 0 <= k < |kvs| :: r.out[k].form == kvs[k].form && |r.out[k].parts| == |kvs[k].parts|
    ensures RecsInChain(sc, r.recs)
    decreases kvs, 0
  {
    if kvs == [] then Outs([], [], [])
    else
      var kv := kvs[|kvs| - 1];
      var p := LowerKvs(sc, vars, kvs[..|kvs| - 1]);
      var q := LowerSeq(sc, vars, kv.parts);
      Outs(p.out + [KeyVal(kv.form, q.out)], p.errs + q.errs, p.recs + q.recs)
  }

  /** Lower the branches of an `if`-`elif` chain, each condition before its branch. */
  function LowerPairs(sc: Scope, vars: seq<string>, ps: seq<(Hir, Hir)>): (r: Outs<seq<(Mir, Mir)>>)
    requires sc.Ok()
    ensures |r.out| == |ps|
    ensures RecsInChain(sc, r.recs)
    decreases ps, 0
  {
    if ps == [] then Outs([], [], [])
    else
      var p := LowerPairs(sc, vars, ps[..|ps| - 1]);
      var q := LowerPair(sc, vars, ps[|ps| - 1]);
      Outs(p.out + [q.out], p.errs + q.errs, p.recs + q.recs)
  }

  /** One branch of an `if`-`elif` chain: the condition, then the branch. */
  function LowerPair(sc: Scope, vars: seq<string>, pr: (Hir, Hir)): (r: Outs<(Mir, Mir)>)
    requires sc.Ok()
    ensures r.out.0.span == pr.0.span && r.out.1.span == pr.1.span
    ensures RecsInChain(sc, r.recs)
    decreases pr, 0
  {
    var io := Lower(sc, vars, pr.0);
    var to := Lower(sc, vars, pr.1);
    Outs((io.out, to.out), io.errs + to.errs, io.recs + to.recs)
  }

  function LowerPart(sc: Scope, vars: seq<string>, p: Part<Hir>): (r: Outs<Part<Mir>>)
    requires sc.Ok()
    ensures r.out.Index? <==> p.Index?
    ensures RecsInChain(sc, r.recs)
    decreases p, 0
  {
    match p
    case Index(i) =>
      var io := Lower(sc, vars, i);
      Outs(Index(io.out), io.errs, io.recs)
    case Range(from, upto) =>
      var fo := LowerOpt(sc, vars, from);
      var uo := LowerOpt(sc, vars, upto);
      Outs(Range(fo.out, uo.out), fo.errs + uo.errs, fo.recs + uo.recs)
  }

  /** Lower the parts of a path, keeping each part's `?` flag. */
  function LowerPath(sc: Scope, vars: seq<string>, path: seq<(Part<Hir>, bool)>): (r: Outs<seq<(Part<Mir>, bool)>>)
    requires sc.Ok()
    ensures |r.out| == |path| && forall k | 0 <= k < |path| :: r.out[k].1 == path[k].1
    ensures RecsInChain(sc, r.recs)
    decreases path, 0
  {
    if path == [] then Outs([], [], [])
    else
      var p := LowerPath(sc, vars, path[..|path| - 1]);
      var q := LowerPathEntry(sc, vars, path[|path| - 1]);
      Outs(p.out + [q.out], p.errs + q.errs, p.recs + q.recs)
  }

  function LowerPathEntry(sc: Scope, vars: seq<string>, pt: (Part<Hir>, bool)): (r: Outs<(Part<Mir>, bool)>)
    requires sc.Ok()
    ensures r.out.1 == pt.1
    ensures RecsInChain(sc, r.recs)
    decreases pt, 0
  {
    var q := LowerPart(sc, vars, pt.0);
    Outs((q.out, pt.1), q.errs, q.recs)
  }

  // ---------------------------------------------------------------------
  // What lowering a call records
  // ---------------------------------------------------------------------

  /**
   * A call that resolves to a definition of the caller's own chain: its
   * arguments are lowered first, then the definition is recorded as
   * recursive, and the call is an error exactly when that definition has a
   * non-variable argument.
   */
  lemma LowerCallRecursive(sc: Scope, vars: seq<string>, name: string, args: seq<Hir>, span: Span, c: DefId)
    requires sc.Ok()
    requires Resolve(sc, name, |args|) == Some(DefCall(c)) && c in sc.Chain()
    ensures c < |sc.defs.list|
    ensures var r, a := Lower(sc, vars, Spanned(Call(name, args), span)), LowerSeq(sc, vars, args);
      && r.out == Spanned(Call(DefCall(c), a.out), span)
      && r.recs == a.recs + [c]
      && (r.errs == a.errs + [Error(span, RecursiveNonVarArg)] <==> HasNonVarArg(sc.defs.list[c].args))
      && (r.errs == a.errs <==> !HasNonVarArg(sc.defs.list[c].args))
  {
    var call := Spanned(Call(name, args), span);
    assert Lower(sc, vars, call) == LowerCallOf(sc, vars, call);
  }

  /**
   * A call that resolves to anything else (a definition outside the chain,
   * a non-variable argument or a native) records nothing and adds no error.
   */
  lemma LowerCallNonRecursive(sc: Scope, vars: seq<string>, name: string, args: seq<Hir>, span: Span, c: Callee)
    requires sc.Ok()
    requires Resolve(sc, name, |args|) == Some(c) && !(c.DefCall? && c.id in sc.Chain())
    ensures var a := LowerSeq(sc, vars, args);
      Lower(sc, vars, Spanned(Call(name, args), span)) == Outs(Spanned(Call(c, a.out), span), a.errs, a.recs)
  {
    var call := Spanned(Call(name, args), span);
    assert Lower(sc, vars, call) == LowerCallOf(sc, vars, call);
  }

  /**
   * A call that resolves to nothing becomes `.`, with one "could not find
   * function" error after the errors of its arguments.
   */
  lemma LowerCallNotFound(sc: Scope, vars: seq<string>, name: string, args: seq<Hir>, span: Span)
    requires sc.Ok()
    requires Resolve(sc, name, |args|) == None
    ensures var a := LowerSeq(sc, vars, args);
      Lower(sc, vars, Spanned(Call(name, args), span)) == Outs(Spanned(Id, span), a.errs + [Error(span, FunctionNotFound)], a.recs)
  {
    var call := Spanned(Call(name, args), span);
    assert Lower(sc, vars, call) == LowerCallOf(sc, vars, call);
  }

  /**
   * Each filter of `fs` lowered on its own, with the same bindings, and
   * the errors and recursive ids of all of them concatenated in the order
   * of `fs`.
   */
  ghost function LowerEach(sc: Scope, vars: seq<string>, fs: seq<Hir>): Outs<seq<Mir>>
    requires sc.Ok()
    decreases |fs|
  {
    if fs == [] then Outs([], [], [])
    else
      var h := Lower(sc, vars, fs[0]);
      var t := LowerEach(sc, vars, fs[1..]);
      Outs([h.out] + t.out, h.errs + t.errs, h.recs + t.recs)
  }

  lemma {:induction false} LowerEachSnoc(sc: Scope, vars: seq<string>, fs: seq<Hir>, g: Hir)
    requires sc.Ok()
    ensures var e, q := LowerEach(sc, vars, fs), Lower(sc, vars, g);
      LowerEach(sc, vars, fs + [g]) == Outs(e.out + [q.out], e.errs + q.errs, e.recs + q.recs)
    decreases |fs|
  {
    var fg := fs + [g];
    var q := Lower(sc, vars, g);
    if fs == [] {
      assert fg[0] == g && fg[1..] == [];
      assert LowerEach(sc, vars, fg[1..]) == Outs([], [], []);
      assert LowerEach(sc, vars, fg) == Outs([q.out] + [], q.errs + [], q.recs + []);
      assert [q.out] + [] == [] + [q.out] && q.errs + [] == [] + q.errs && q.recs + [] == [] + q.recs;
    } else {
      assert fg[0] == fs[0] && fg[1..] == fs[1..] + [g];
      LowerEachSnoc(sc, vars, fs[1..], g);
      var h := Lower(sc, vars, fs[0]);
      var t := LowerEach(sc, vars, fs[1..]);
      var tg := LowerEach(sc, vars, fg[1..]);
      assert tg == Outs(t.out + [q.out], t.errs + q.errs, t.recs + q.recs);
      assert LowerEach(sc, vars, fg) == Outs([h.out] + tg.out, h.errs + tg.errs, h.recs + tg.recs);
      Seqs.Assoc([h.out], t.out, [q.out]);
      Seqs.Assoc(h.errs, t.errs, q.errs);
      Seqs.Assoc(h.recs, t.recs, q.recs);
    }
  }

  /**
   * The arguments of a call are lowered each on its own, in order: output
   * `k` is argument `k` lowered, and the errors and recursive ids are
   * those of the arguments one after the other.
   */
  lemma {:induction false} LowerSeqPieces(sc: Scope, vars: seq<string>, fs: seq<Hir>)
    requires sc.Ok()
    ensures forall k | 0 <= k < |fs| :: LowerSeq(sc, vars, fs).out[k] == Lower(sc, vars, fs[k]).out
    ensures LowerSeq(sc, vars, fs) == LowerEach(sc, vars, fs)
    decreases |fs|
  {
    if fs != [] {
      var n := |fs| - 1;
      var pre := fs[..n];
      LowerSeqPieces(sc, vars, pre);
      LowerEachSnoc(sc, vars, pre, fs[n]);
      Seqs.SplitLast(fs);
      assert forall k | 0 <= k < n :: pre[k] == fs[k];
    }
  }
}
