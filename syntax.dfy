/**
 * The parsed (surface) syntax that the binder consumes, and the shape of
 * the filter tree it produces.
 *
 * The parser's own types are not part of this model; only the constructors
 * that the binder matches on are kept. `Filter<C, V, N>` is generic in the
 * same way as the source's `Filter<Call, VarIdx, Num>`: the parsed tree uses
 * names (`string`) for calls, variables and number literals, and the binder
 * replaces them by resolved targets, variable indices and parsed numbers.
 */
module Syntax {
  import opened Wrappers

  /** Byte range of a source construct. */
  datatype Span = Span(start: nat, end: nat)

  /** An argument of a definition: `$x` is a variable argument, `f` a filter argument. */
  datatype Arg = Var(name: string) | NonVar(name: string)
  {
    predicate IsVar() { Var? }

    function GetVar(): Option<string> { if Var? then Some(name) else None }

    function GetNonVar(): Option<string> { if NonVar? then Some(name) else None }
  }

  /**
   * Binary operators. The binder inspects only `l as $x | r`, the pipe that
   * binds a variable; every other operator (comma, alternative, logic,
   * arithmetic, assignment, ...) is carried through unchanged, as an opaque token.
   */
  datatype BinaryOp = Pipe(bind: Option<string>) | Op(token: nat)

  /** The kind of a fold (`reduce`, `foreach`, ...), carried through unchanged. */
  datatype FoldType = FoldType(token: nat)

  /** One part of a path expression: `.[i]` or `.[from:upto]`. */
  datatype Part<S> = Index(i: S) | Range(from: Option<S>, upto: Option<S>)

  /**
   * One entry of an object construction: its key/value form as an opaque
   * token, and the filters it contains in the order in which they are visited.
   */
  datatype KeyVal<S> = KeyVal(form: nat, parts: seq<S>)

  datatype Filter<C, V, N> =
    | Call(callee: C, args: seq<Spanned<C, V, N>>)
    | Var(v: V)
    | Binary(l: Spanned<C, V, N>, op: BinaryOp, r: Spanned<C, V, N>)
    | Fold(typ: FoldType, xs: Spanned<C, V, N>, x: string, init: Spanned<C, V, N>, update: Spanned<C, V, N>)
    | Id
    | Num(n: N)
    | Str(s: string)
    | Array(elems: Option<Spanned<C, V, N>>)
    | Object(entries: seq<KeyVal<Spanned<C, V, N>>>)
    | Try(body: Spanned<C, V, N>)
    | Neg(operand: Spanned<C, V, N>)
    | Recurse
    | Ite(ifThens: seq<(Spanned<C, V, N>, Spanned<C, V, N>)>, els: Spanned<C, V, N>)
    | Path(target: Spanned<C, V, N>, path: seq<(Part<Spanned<C, V, N>>, bool)>)

  /** A filter together with the span of source text it came from. */
  datatype Spanned<C, V, N> = Spanned(f: Filter<C, V, N>, span: Span)

  /** A parsed filter: calls, variables and numbers are still names and text. */
  type Hir = Spanned<string, string, string>

  /** A parsed definition `def name(args): defs body;`. */
  datatype HirDef = HirDef(name: string, args: seq<Arg>, defs: seq<HirDef>, body: Hir)
}
