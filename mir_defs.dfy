/**
 * Definitions of the mid-level representation (`Def`, `Defs` in
 * jaq-core/src/mir.rs): every definition gets an integer id, the
 * position of its entry in the table, and records its ancestors and its
 * children by id.
 */
module MirDefs {
  import opened Wrappers
  import opened Syntax
  import opened MirNum

  type DefId = nat

  const RootId: DefId := 0

  /** A native (host-implemented) filter, as an opaque token. */
  datatype Native = Native(token: nat)

  /** What a call resolves to: a definition, a filter argument slot, or a native filter. */
  datatype Callee = DefCall(id: DefId) | ArgCall(idx: nat) | NativeCall(native: Native)

  /** A filter after name resolution: variables are indices, numbers are parsed. */
  type Mir = Spanned<Callee, nat, Num>

  /** The bogus body a definition carries until its real body has been lowered. */
  const Placeholder: Mir := Spanned(Id, Span(0, 0))

  datatype Def = Def(name: string, args: seq<Arg>, children: seq<DefId>, ancestors: seq<DefId>, recursive: bool, body: Mir)
  {
    function Arity(): nat { |args| }

    /**
     * The indices of the variable and of the non-variable arguments; for
     * `$f; g; $h; i` these are `[0, 2]` and `[1, 3]`.
     */
    function VarNonvarArgIdxs(): (r: (seq<nat>, seq<nat>))
      ensures Increasing(r.0) && Increasing(r.1)
      ensures (forall k | 0 <= k < |r.0| :: r.0[k] < |args|) && (forall k | 0 <= k < |r.1| :: r.1[k] < |args|)
      ensures forall i | 0 <= i < |args| :: (i in r.0 <==> args[i].IsVar()) && (i in r.1 <==> !args[i].IsVar())
    {
      PartitionArgs(args, |args|)
    }
  }

  predicate Increasing(s: seq<nat>) { forall i, j | 0 <= i < j < |s| :: s[i] < s[j] }

  /** `(0..n).partition(|i| args[i].is_var())`. */
  function PartitionArgs(args: seq<Arg>, n: nat): (r: (seq<nat>, seq<nat>))
    requires n <= |args|
    ensures Increasing(r.0) && Increasing(r.1)
    ensures (forall k | 0 <= k < |r.0| :: r.0[k] < n) && (forall k | 0 <= k < |r.1| :: r.1[k] < n)
    ensures forall i | 0 <= i < n :: (i in r.0 <==> args[i].IsVar()) && (i in r.1 <==> !args[i].IsVar())
  {
    if n == 0 then ([], [])
    else
      var p := PartitionArgs(args, n - 1);
      if args[n - 1].IsVar() then (p.0 + [n - 1], p.1) else (p.0, p.1 + [n - 1])
  }

  /** The names of the variable arguments, in order. */
  function VarNames(args: seq<Arg>): seq<string>
  {
    if args == [] then [] else (if args[0].IsVar() then [args[0].name] else []) + VarNames(args[1..])
  }

  /** The names of the non-variable arguments, in order. */
  function NonVarNames(args: seq<Arg>): seq<string>
  {
    if args == [] then [] else (if args[0].IsVar() then [] else [args[0].name]) + NonVarNames(args[1..])
  }

  predicate HasNonVarArg(args: seq<Arg>) { exists i | 0 <= i < |args| :: !args[i].IsVar() }

  /**
   * The last position of `x` in `s` (`Iterator::rposition`): no later
   * position holds `x`, and there is none exactly when `x` does not occur.
   */
  function RPosition<T(==)>(s: seq<T>, x: T): (r: Option<nat>)
    ensures r.None? <==> x !in s
    ensures r.Some? ==> r.value < |s| && s[r.value] == x && forall j | r.value < j < |s| :: s[j] != x
  {
    if s == [] then None
    else if s[|s| - 1] == x then Some(|s| - 1)
    else
      assert forall y | y in s[..|s| - 1] :: y in s;
      assert forall j | 0 <= j < |s| - 1 :: s[j] == s[..|s| - 1][j];
      RPosition(s[..|s| - 1], x)
  }

  /** The length of the longest common prefix of two sequences. */
  function CommonPrefixLen<T(==)>(a: seq<T>, b: seq<T>): (r: nat)
    ensures r <= |a| && r <= |b| && a[..r] == b[..r]
    ensures r < |a| && r < |b| ==> a[r] != b[r]
  {
    if a == [] || b == [] || a[0] != b[0] then 0
    else
      var r := 1 + CommonPrefixLen(a[1..], b[1..]);
      assert a[..r] == [a[0]] + a[1..][..r - 1];
      assert b[..r] == [b[0]] + b[1..][..r - 1];
      r
  }

  /** The table of definitions; entry `i` is the definition with id `i`. */
  datatype Defs = Defs(list: seq<Def>)
  {
    /**
     * The table that gives access to global variables of the given names: one
     * root definition, with an empty name, the variables as arguments and no
     * ancestors or children.
     */
    static function New(vars: seq<string>): (r: Defs)
      ensures |r.list| == 1
      ensures r.list[RootId].name == "" && r.list[RootId].ancestors == [] && r.list[RootId].children == []
      ensures !r.list[RootId].recursive && r.list[RootId].body.f == Id
      ensures |r.list[RootId].args| == |vars|
      ensures forall i | 0 <= i < |vars| :: r.list[RootId].args[i] == Arg.Var(vars[i])
      ensures r.Valid()
    {
      Defs([Def("", seq(|vars|, i requires 0 <= i < |vars| => Arg.Var(vars[i])), [], [], false, Placeholder)])
    }

    function Get(id: DefId): Def
      requires id < |list|
    {
      list[id]
    }

    /** Every ancestor and every child recorded in the table is an entry of it. */
    ghost predicate Closed()
    {
      forall i | 0 <= i < |list| ::
        (forall k | 0 <= k < |list[i].ancestors| :: list[i].ancestors[k] < |list|)
        && (forall k | 0 <= k < |list[i].children| :: list[i].children[k] < |list|)
    }

    function AncestorsAndMe(id: DefId): seq<DefId>
      requires id < |list|
    {
      list[id].ancestors + [id]
    }

    /** A chain is the ancestors and self of an existing definition. */
    ghost predicate IsChain(chain: seq<DefId>)
    {
      |chain| > 0 && chain[|chain| - 1] < |list| && chain == AncestorsAndMe(chain[|chain| - 1])
    }

    /**
     * The invariant the binder keeps: the root is entry 0; ancestors come
     * before, children after a definition; every definition but the root
     * has a parent, and its ancestors are its parent's chain; a child's
     * ancestors are the chain of the definition that lists it.
     */
    ghost predicate Valid()
    {
      |list| > 0 && list[RootId].ancestors == [] && AncestorsBefore() && ChildrenAfter() && ParentChains() && ChildrenLinked()
    }

    ghost predicate AncestorsBefore()
    {
      forall i, k | 0 <= i < |list| && 0 <= k < |list[i].ancestors| :: list[i].ancestors[k] < i
    }

    ghost predicate ChildrenAfter()
    {
      forall i, k | 0 <= i < |list| && 0 <= k < |list[i].children| :: i < list[i].children[k] < |list|
    }

    ghost predicate ParentChains()
    {
      forall i | 0 < i < |list| :: IsChain(list[i].ancestors)
    }

    ghost predicate ChildrenLinked()
      requires ChildrenAfter()
    {
      forall i, k | 0 <= i < |list| && 0 <= k < |list[i].children| ::
        list[list[i].children[k]].ancestors == AncestorsAndMe(i)
    }

    /** All arguments bound in the definitions of a chain, outermost first. */
    function ArgsOf(chain: seq<DefId>): seq<Arg>
      requires forall k | 0 <= k < |chain| :: chain[k] < |list|
    {
      if chain == [] then [] else list[chain[0]].args + ArgsOf(chain[1..])
    }

    /** All arguments bound in a definition and its ancestors. */
    function Args(id: DefId): seq<Arg>
      requires Closed() && id < |list|
    {
      ArgsOf(AncestorsAndMe(id))
    }

    /**
     * The position of the non-variable argument `name` of definition `id`
     * among all non-variable arguments of its chain: the last such argument
     * of `id` itself, offset by the non-variable arguments of its ancestors.
     */
    function NonvarArgPosition(id: DefId, name: string): (r: Option<nat>)
      requires Closed() && id < |list|
      ensures r.Some? <==> name in NonVarNames(list[id].args)
      ensures r.Some? ==>
        var all := NonVarNames(Args(id));
        |NonVarNames(ArgsOf(list[id].ancestors))| <= r.value < |all| && all[r.value] == name
        && forall j | r.value < j < |all| :: all[j] != name
    {
      var own := NonVarNames(list[id].args);
      var offset := |NonVarNames(ArgsOf(list[id].ancestors))|;
      ArgsOfSnoc(this, list[id].ancestors, id);
      NonVarNamesAppend(ArgsOf(list[id].ancestors), list[id].args);
      match RPosition(own, name)
      case None => None
      case Some(i) => Some(i + offset)
    }

    /**
     * `smallest_common_ancestor`: walk both ancestors-and-self chains in
     * step and keep the last id they agree on; 0 (the root) if they agree
     * on none.
     */
    method SmallestCommonAncestor(id1: DefId, id2: DefId) returns (last: DefId)
      requires id1 < |list| && id2 < |list|
      ensures var a1, a2 := AncestorsAndMe(id1), AncestorsAndMe(id2);
        var p := CommonPrefixLen(a1, a2);
        last == if p == 0 then RootId else a1[p - 1]
    {
      var a1 := AncestorsAndMe(id1);
      var a2 := AncestorsAndMe(id2);
      last := RootId;
      var k := 0;
      while k < |a1| && k < |a2|
        invariant k <= |a1| && k <= |a2|
        invariant a1[..k] == a2[..k]
        invariant last == if k == 0 then RootId else a1[k - 1]
      {
        if a1[k] == a2[k] {
          last := a1[k];
          k := k + 1;
        } else {
          break;
        }
      }
      CommonPrefixMaximal(a1, a2, k);
    }
  }

  lemma CommonPrefixMaximal<T>(a: seq<T>, b: seq<T>, k: nat)
    requires k <= |a| && k <= |b| && a[..k] == b[..k]
    requires k == |a| || k == |b| || a[k] != b[k]
    ensures CommonPrefixLen(a, b) == k
  {
  }

  lemma CommonPrefixAtLeast<T>(a: seq<T>, b: seq<T>, k: nat)
    requires k <= |a| && k <= |b| && a[..k] == b[..k]
    ensures k <= CommonPrefixLen(a, b)
  {
  }

  lemma {:induction false} ArgsOfSnoc(defs: Defs, chain: seq<DefId>, id: DefId)
    requires forall k | 0 <= k < |chain| :: chain[k] < |defs.list|
    requires id < |defs.list|
    ensures defs.ArgsOf(chain + [id]) == defs.ArgsOf(chain) + defs.list[id].args
    decreases |chain|
  {
    if chain == [] {
      assert defs.ArgsOf([id]) == defs.list[id].args + defs.ArgsOf([]);
    } else {
      assert (chain + [id])[1..] == chain[1..] + [id];
      ArgsOfSnoc(defs, chain[1..], id);
    }
  }

  lemma {:induction false} NonVarNamesAppend(a: seq<Arg>, b: seq<Arg>)
    ensures NonVarNames(a + b) == NonVarNames(a) + NonVarNames(b)
    decreases |a|
  {
    if a != [] {
      assert (a + b)[0] == a[0] && (a + b)[1..] == a[1..] + b;
      NonVarNamesAppend(a[1..], b);
      var h := if a[0].IsVar() then [] else [a[0].name];
      calc {
        NonVarNames(a + b);
        h + NonVarNames(a[1..] + b);
        h + (NonVarNames(a[1..]) + NonVarNames(b));
        (h + NonVarNames(a[1..])) + NonVarNames(b);
      }
    } else {
      assert a + b == b;
    }
  }

  lemma {:induction false} VarNamesAppend(a: seq<Arg>, b: seq<Arg>)
    ensures VarNames(a + b) == VarNames(a) + VarNames(b)
    decreases |a|
  {
    if a != [] {
      assert (a + b)[0] == a[0] && (a + b)[1..] == a[1..] + b;
      VarNamesAppend(a[1..], b);
      var h := if a[0].IsVar() then [a[0].name] else [];
      calc {
        VarNames(a + b);
        h + VarNames(a[1..] + b);
        h + (VarNames(a[1..]) + VarNames(b));
        (h + VarNames(a[1..])) + VarNames(b);
      }
    } else {
      assert a + b == b;
    }
  }

  lemma ValidIsClosed(defs: Defs)
    requires defs.Valid()
    ensures defs.Closed()
  {
  }

  /** In a valid table, the last ancestor of a non-root definition is its parent. */
  lemma ValidParent(defs: Defs, id: DefId)
    requires defs.Valid() && 0 < id < |defs.list|
    ensures var anc := defs.list[id].ancestors;
      |anc| > 0 && anc[|anc| - 1] < id && defs.AncestorsAndMe(anc[|anc| - 1]) == anc
  {
    var anc := defs.list[id].ancestors;
    assert defs.IsChain(anc);
  }

  /**
   * Every chain of a valid table starts at the root, and it is closed
   * under taking prefixes: the chain of its `i`-th entry is its first
   * `i + 1` entries.
   */
  lemma {:induction false} ChainShape(defs: Defs, id: DefId)
    requires defs.Valid() && id < |defs.list|
    ensures var ch := defs.AncestorsAndMe(id);
      ch[0] == RootId && forall i | 0 <= i < |ch| :: ch[i] < |defs.list| && defs.AncestorsAndMe(ch[i]) == ch[..i + 1]
    decreases id
  {
    var ch := defs.AncestorsAndMe(id);
    var anc := defs.list[id].ancestors;
    if id != 0 {
      ValidParent(defs, id);
      var p := anc[|anc| - 1];
      ChainShape(defs, p);
      forall i | 0 <= i < |ch|
        ensures ch[i] < |defs.list| && defs.AncestorsAndMe(ch[i]) == ch[..i + 1]
      {
        if i < |anc| {
          assert ch[i] == anc[i];
          assert ch[..i + 1] == anc[..i + 1];
        } else {
          assert ch[..i + 1] == ch;
        }
      }
    }
  }

  /** One entry of a chain, as `ChainShape` describes it. */
  lemma ChainAt(defs: Defs, id: DefId, i: nat)
    requires defs.Valid() && id < |defs.list| && i < |defs.AncestorsAndMe(id)|
    ensures var ch := defs.AncestorsAndMe(id);
      ch[0] == RootId && ch[i] < |defs.list| && defs.AncestorsAndMe(ch[i]) == ch[..i + 1]
  {
    ChainShape(defs, id);
  }

  /** A definition on two chains sits at the same depth in both, inside their common prefix. */
  lemma CommonEntryInPrefix(defs: Defs, id1: DefId, id2: DefId, i: nat, j: nat)
    requires defs.Valid() && id1 < |defs.list| && id2 < |defs.list|
    requires i < |defs.AncestorsAndMe(id1)| && j < |defs.AncestorsAndMe(id2)|
    requires defs.AncestorsAndMe(id1)[i] == defs.AncestorsAndMe(id2)[j]
    ensures i == j && i < CommonPrefixLen(defs.AncestorsAndMe(id1), defs.AncestorsAndMe(id2))
  {
    var a1, a2 := defs.AncestorsAndMe(id1), defs.AncestorsAndMe(id2);
    ChainAt(defs, id1, i);
    ChainAt(defs, id2, j);
    assert |a1[..i + 1]| == |a2[..j + 1]|;
    CommonPrefixAtLeast(a1, a2, i + 1);
  }

  /**
   * The smallest common ancestor of two definitions is an ancestor-or-self
   * of both, and it is the deepest one: every common ancestor-or-self of
   * the two lies on its own chain.
   */
  lemma SmallestCommonAncestorIsDeepest(defs: Defs, id1: DefId, id2: DefId)
    requires defs.Valid() && id1 < |defs.list| && id2 < |defs.list|
    ensures var a1, a2 := defs.AncestorsAndMe(id1), defs.AncestorsAndMe(id2);
      var p := CommonPrefixLen(a1, a2);
      p > 0 && a1[p - 1] in a1 && a1[p - 1] in a2
      && forall x | x in a1 && x in a2 :: x in defs.AncestorsAndMe(a1[p - 1])
  {
    var a1, a2 := defs.AncestorsAndMe(id1), defs.AncestorsAndMe(id2);
    ChainAt(defs, id1, 0);
    ChainAt(defs, id2, 0);
    CommonEntryInPrefix(defs, id1, id2, 0, 0);
    var p := CommonPrefixLen(a1, a2);
    assert a1[p - 1] == a2[p - 1] by { assert a1[..p][p - 1] == a2[..p][p - 1]; }
    ChainAt(defs, id1, p - 1);
    forall x | x in a1 && x in a2
      ensures x in defs.AncestorsAndMe(a1[p - 1])
    {
      var i :| 0 <= i < |a1| && a1[i] == x;
      var j :| 0 <= j < |a2| && a2[j] == x;
      CommonEntryInPrefix(defs, id1, id2, i, j);
      assert x == a1[..p][i];
    }
  }
}
