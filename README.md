# jaq: name binding and array/stream natives, in Dafny

This project models two parts of jaq, a clone of the JSON processor jq.

**The binder** (`jaq-core/src/mir.rs`) turns parsed definitions and
filters into the mid-level representation, where names are resolved:

- Every definition gets an integer id. Its entry in the definitions table
  records its ancestors and its children by id.
- A call resolves to a child definition of some definition on the caller's
  chain of ancestors, to a non-variable (filter) argument, or to a
  registered native filter.
- A variable resolves to an index among the variables in scope.
- An integer literal is parsed as a 64-bit `isize`.
- Problems are not fatal. Every one is appended to an error list, and
  lowering goes on.
- Calls of a definition of the caller's own chain are recorded as
  recursive. After each root definition, those definitions get their
  recursive flag.

The modules:

- `Defs`/`Def` are value datatypes (`MirDefs`).
- The context `Ctx` is a class whose methods update its fields in place
  (`MirCtx`).
- Each such method is proved equal to a pure specification:
  - `MirResolve.Lower` lowers one filter;
  - `MirBind.BindDef`/`BindRoot`/`BindRoots` give the whole state after
    binding definitions.
- Lemmas about those specifications state what binding guarantees:
  - the table invariant;
  - the children logs;
  - shadowing;
  - which binding a variable refers to.

**Natives** (`jaq-native/src/lib.rs`):

- `sort_by` and `group_by`: a stable sort by the keys a filter computes,
  and the runs of equal keys of that sort.
- `min_by`/`max_by` (`cmp_by`): the first minimal and the last maximal
  element.
- `split`, `ltrimstr`, `rtrimstr`.
- The stream natives `range`, `limit`, `first` and `last`.

The key filter is a function parameter. The order of values is a
parameter `lt` that a `StrictTotalOrder` requires clause constrains. Keys, which
are lists of values, are compared lexicographically.

Three choices of the code decide how names and errors behave:

- **Root-first call search.** A call is searched for along the caller's
  chain root first (`for ancestor in &ancestors`, mir.rs:240). So a
  definition at an outer level shadows an inner definition and even the
  caller's own filter argument of the same name and arity.
  `MirScoping.OuterDefShadowsArgument` shows this for
  `def f: 1; def g(f): f;`.
- **Natives last.** Natives are searched only after every definition of
  the chain (mir.rs:277-286). A user definition therefore shadows a native
  of the same name and arity, rather than native names being reserved.
- **Errors are collected.** An unresolved call or an undefined variable
  does not abort binding. It appends an error, and lowering continues
  with `.` or with the variable 0.

## Model

| member | source | states |
|---|---|---|
| MirNum.ParseIsize | jaq-core/src/mir.rs:39 | an accepted integer literal is non-empty and its value lies within the 64-bit `isize` range |
| MirNum.IntLiteralRoundTrip | jaq-core/src/mir.rs:35-41 | the decimal text of `n` parses back to `Int(n)` when `n` fits `isize`, and to the error carrying `Int(0)` when it does not |
| MirNum.ParseIsizeLiteral | jaq-core/src/mir.rs:39 | an optional `+` or `-`, any number of leading zeros and the decimal digits of `n` read as `n`, negated after `-`, when that fits `isize`, and as an error otherwise |
| MirNum.ParseIsizeNoDigits | jaq-core/src/mir.rs:39 | the empty string and a lone `+` or `-` are errors |
| MirNum.ParseIsizeNonDigit | jaq-core/src/mir.rs:39 | any character that is not a decimal digit, other than a sign in the first position, makes the literal an error |
| MirDefs.Def.VarNonvarArgIdxs | jaq-core/src/mir.rs:68-70 | both index lists are increasing and in range; `i` is in the first exactly when argument `i` is a variable and in the second exactly when it is not |
| MirDefs.Defs.New | jaq-core/src/mir.rs:81-92 | a one-entry valid table whose root has the empty name, the given names as variable arguments in order, no ancestors or children, is not recursive and has body `.` |
| MirDefs.RPosition | jaq-core/src/mir.rs:131 | `None` exactly when the element does not occur; otherwise a position holding it with no later position holding it |
| MirDefs.ArgsOfSnoc | jaq-core/src/mir.rs:118-122 | the arguments bound along a chain followed by one more definition are the chain's arguments followed by that definition's own |
| MirDefs.Defs.NonvarArgPosition | jaq-core/src/mir.rs:128-135 | `Some` exactly when the name is a non-variable argument of the definition itself; the position then names it among all non-variable arguments of the chain, lies past those of the ancestors, and is the last such occurrence |
| MirDefs.Defs.SmallestCommonAncestor | jaq-core/src/mir.rs:98-110 | the loop returns the last id of the longest common prefix of the two ancestors-and-self chains, or the root when they share none |
| MirDefs.SmallestCommonAncestorIsDeepest | jaq-core/src/mir.rs:98-110 | in a valid table that id lies on both chains, and every definition on both chains lies on its chain: it is the deepest common ancestor-or-self |
| MirDefs.ChainShape | jaq-core/src/mir.rs:113-116 | in a valid table every ancestors-and-self chain starts at the root, and the chain of its `i`-th entry is its first `i + 1` entries |
| MirResolve.LatestChildPos | jaq-core/src/mir.rs:244-248 | `None` exactly when no child has the call's name and arity; otherwise a matching child with no later matching child (later definitions shadow earlier ones) |
| MirResolve.FirstNativePos | jaq-core/src/mir.rs:277-279 | `None` exactly when no native has the name and arity; otherwise the first one that does |
| MirResolve.LocalCallee | jaq-core/src/mir.rs:244-274 | a definition resolves the call exactly when a child matches or, for a call without arguments, it has a non-variable argument of that name; a child found is the latest matching one; an argument is chosen only when no child matches, at the position `nonvar_arg_position` gives |
| MirResolve.SearchChainFirstHit | jaq-core/src/mir.rs:240-275 | the first definition of the chain, root first, that resolves the call decides it, whatever later definitions hold |
| MirResolve.SearchChainNoHit | jaq-core/src/mir.rs:240-286 | when no definition of the chain resolves the call, the first matching native does |
| MirResolve.Lower | jaq-core/src/mir.rs:229-344 | lowering keeps the span of every filter and records as recursive only definitions on the current chain |
| MirResolve.LowerSeq | jaq-core/src/mir.rs:236 | the lowered arguments are as many as the parsed ones, span for span |
| MirResolve.LowerSeqPieces | jaq-core/src/mir.rs:236 | each lowered argument is that argument lowered on its own, and the errors and recursive ids are those of the arguments concatenated in argument order |
| MirResolve.LowerCallRecursive | jaq-core/src/mir.rs:250-262 | a call resolving to a definition on the caller's chain lowers to a call of it after its arguments, records its id after the arguments' ids, and adds one "recursive call with non-variable argument" error exactly when that definition has a non-variable argument, none otherwise |
| MirResolve.LowerCallNonRecursive | jaq-core/src/mir.rs:238-281 | a call resolving to a definition off the chain, to an argument or to a native lowers to that call, adding no error and no recursive id beyond its arguments' |
| MirResolve.LowerCallNotFound | jaq-core/src/mir.rs:282-286 | a call resolving to nothing lowers to `.` with one "could not find function" error after its arguments' errors |
| MirScoping.VarResolution | jaq-core/src/mir.rs:288-297 | `$v` becomes the index of the rightmost `v` among the variable arguments of the chain (outermost first) followed by the local bindings, with no error; an undefined variable becomes 0 with exactly one "undefined variable" error |
| MirScoping.BindingExtendsScope | jaq-core/src/mir.rs:298-303 | in a pipe from `l as $x` into `r`, `r` sees the variables of the left side followed by `x` |
| MirScoping.AsBindingShadows | jaq-core/src/mir.rs:298-303 | in a pipe from `l as $x` into `$x`, that `$x` is the newest variable in scope, and the left side is lowered as on its own |
| MirScoping.AsDoesNotBindLeft | jaq-core/src/mir.rs:298-303 | in a pipe from `$x as $x` into `r`, with no `x` in scope, the first `$x` is an undefined variable: `as` binds on the right only |
| MirScoping.FoldBindsUpdateOnly | jaq-core/src/mir.rs:304-309 | a fold's source and initial value do not see the fold variable, and its update refers to it as the newest variable |
| MirScoping.ShadowResolve | jaq-core/src/mir.rs:240-275 | in `def f: 1; def g(f): f;` the call `f` in `g` resolves to the definition `f`, not to `g`'s argument |
| MirScoping.OuterDefShadowsArgument | jaq-core/src/mir.rs:234-287 | lowering that call gives a call of definition 1 with no error and no recursive call recorded |
| MirScoping.ShadowTableDerived | jaq-core/src/mir.rs:189-218 | that table is what the binder builds: binding `def f: 1;` at the root of a fresh table reports nothing, and entering `g(f)` then gives exactly the table |
| MirScoping.ShadowBindF | jaq-core/src/mir.rs:189-227 | binding `def f: 1;` at the root of a fresh table gives the root with child 1 and `f` with body `1`, with no errors or recursive ids |
| MirScoping.ShadowDefG | jaq-core/src/mir.rs:201-227 | defining `g(f)` with body `f` after `f` gives `g` the body calling definition 1, with no reports |
| MirScoping.ShadowBindG | jaq-core/src/mir.rs:189-194 | binding that root definition marks nothing recursive |
| MirScoping.ShadowProgram | jaq-core/src/mir.rs:184-186 | binding the whole program `def f: 1; def g(f): f;` gives three entries, no errors, no recursive ids, and a `g` whose body calls the root-level `f` |
| MirBind.Enter | jaq-core/src/mir.rs:203-218 | the table grows by the new entry (name, arguments, no children, the chain as ancestors, not recursive, placeholder body) at the next free id; that id is appended to the children of the chain's last id, and every other entry is unchanged |
| MirBind.SetBody | jaq-core/src/mir.rs:226 | only the body of the given definition changes |
| MirBind.BindDef | jaq-core/src/mir.rs:201-227 | binding a definition adds exactly one entry per definition it contains, nested ones included, and keeps the table closed |
| MirBind.BindDefEntry | jaq-core/src/mir.rs:201-227 | the new entry has the definition's name and arguments, the chain as ancestors, is not recursive, has the ids of its nested definitions as children, and as body its filter lowered against the table at the time the body is lowered |
| MirBind.BindDefKeeps | jaq-core/src/mir.rs:216-224 | binding a definition changes no existing entry except that its id is appended to its parent's children |
| MirBind.BindDefsKeeps | jaq-core/src/mir.rs:222-224 | binding nested definitions in order appends exactly their ids, in order, to the parent's children |
| MirBind.BindDefLog | jaq-core/src/mir.rs:201-227 | errors and recursive ids are only ever appended to |
| MirBind.BindDefRecs | jaq-core/src/mir.rs:252-261 | every recorded recursive id stays an entry of the table |
| MirBind.EnterValid | jaq-core/src/mir.rs:203-220 | pushing a definition below a chain of a valid table keeps it valid, and the chain extended by the new id is a chain of the new table |
| MirBind.BindDefValid | jaq-core/src/mir.rs:201-227 | binding a definition keeps the table valid: ancestors precede and children follow a definition, each definition's ancestors are its parent's chain, and each child lists its parent's chain |
| MirBind.MarkRecursive | jaq-core/src/mir.rs:191-193 | exactly the listed definitions get the recursive flag, and nothing else changes |
| MirBind.MarkRecursiveMarks | jaq-core/src/mir.rs:191-193 | marking leaves ancestors and children alone and flags every listed id |
| MirBind.BindRoot | jaq-core/src/mir.rs:189-194 | binding a root definition keeps the table closed, every recorded id in range, and grows it by the definition's count |
| MirBind.BindRootValid | jaq-core/src/mir.rs:189-194 | after a root definition the table is valid and every definition recorded as recursive carries the recursive flag |
| MirBind.BindRootsValid | jaq-core/src/mir.rs:184-186 | binding any sequence of root definitions keeps the table valid |
| MirCtx.Ctx.constructor | jaq-core/src/mir.rs:157-164 | no errors, no recursive ids, no natives, the table `Defs::new(vars)`, and a valid context |
| MirCtx.Ctx.InsertNative | jaq-core/src/mir.rs:167-169 | the native is appended after all earlier ones; nothing else changes |
| MirCtx.Ctx.InsertNatives | jaq-core/src/mir.rs:172-179 | the natives are appended in order; nothing else changes |
| MirCtx.Ctx.InsertDefs | jaq-core/src/mir.rs:184-186 | the new state is `BindRoots` of the old one, and the context stays valid |
| MirCtx.Ctx.RootDef | jaq-core/src/mir.rs:189-194 | the new state is `BindRoot` of the old one |
| MirCtx.Ctx.MarkRecs | jaq-core/src/mir.rs:191-193 | the loop leaves the table as `MarkRecursive` of the old table and the recorded ids |
| MirCtx.Ctx.RootFilter | jaq-core/src/mir.rs:197-199 | the root's body becomes the lowered filter, its errors and recursive ids are appended, and natives are unchanged |
| MirCtx.Ctx.Def | jaq-core/src/mir.rs:201-227 | the new state is `BindDef` of the old one |
| MirCtx.Ctx.EnterDef | jaq-core/src/mir.rs:203-218 | the table becomes `Enter` of the old one |
| MirCtx.Ctx.DefAll | jaq-core/src/mir.rs:222-224 | the loop over nested definitions yields `BindDefs` of the old state |
| MirCtx.Ctx.Filter | jaq-core/src/mir.rs:229-344 | the result is `Lower`'s output, and exactly `Lower`'s errors and recursive ids are appended |
| MirCtx.Ctx.FilterSimple | jaq-core/src/mir.rs:310-326 | the same for `.`, numbers, strings, arrays, objects, `?`, negation and `..` |
| MirCtx.Ctx.FilterCallCase | jaq-core/src/mir.rs:234-287 | the same for a call: arguments first, then the call itself |
| MirCtx.Ctx.FilterCall | jaq-core/src/mir.rs:238-286 | the result and the appended errors and recursive ids are those of `ResolveCall` |
| MirCtx.Ctx.FindCall | jaq-core/src/mir.rs:238-286 | the search loops return exactly `Resolve`'s callee |
| MirCtx.Ctx.FindLocal | jaq-core/src/mir.rs:244-274 | the loop over one definition's children, latest first, then its arguments, returns `LocalCallee` |
| MirCtx.Ctx.FindNative | jaq-core/src/mir.rs:277-279 | the loop over the natives returns the first match |
| MirCtx.Ctx.FilterVar | jaq-core/src/mir.rs:288-297 | a variable is lowered as `LowerVar` says |
| MirCtx.Ctx.FilterPipe | jaq-core/src/mir.rs:298-303 | an `as` pipe is lowered as `LowerPipe` says |
| MirCtx.Ctx.FilterFold | jaq-core/src/mir.rs:304-309 | a fold is lowered as `LowerFold` says |
| MirCtx.Ctx.FilterNum | jaq-core/src/mir.rs:311-318 | a number literal is lowered as `LowerNum` says |
| MirCtx.Ctx.FilterBinary | jaq-core/src/mir.rs:328 | any other binary operator is lowered as `LowerBinary` says |
| MirCtx.Ctx.FilterIte | jaq-core/src/mir.rs:329-334 | `if`-`elif`-`else` is lowered as `LowerIte` says |
| MirCtx.Ctx.FilterPathCase | jaq-core/src/mir.rs:335-341 | a path is lowered as `LowerPathOf` says |
| MirCtx.Ctx.FilterSeq | jaq-core/src/mir.rs:236 | the loop over arguments gives `LowerSeq`'s outputs and appends its errors and recursive ids |
| NativeOrder.LexStrictTotalOrder | jaq-native/src/lib.rs:81 | the lexicographic order of keys is a strict total order when the order of values is |
| NativeKeys.ComputeKeys | jaq-native/src/lib.rs:64-67 | the loop that computes keys as `run_if_ok` does gives `RunKeys` |
| NativeKeys.FirstErrorNone | jaq-native/src/lib.rs:73-79 | there is no key error exactly when every key succeeds |
| NativeKeys.FirstErrorSome | jaq-native/src/lib.rs:73-79 | a key error is the error of some element, and every earlier element's key succeeds |
| NativeKeys.RunKeysError | jaq-native/src/lib.rs:64-68 | the error that stops computing keys is the first key error |
| NativeKeys.RunKeysValues | jaq-native/src/lib.rs:73-77 | without an error, every key is the key filter's output for its element |
| NativeSort.SortBy | jaq-native/src/lib.rs:63-69 | the array becomes its elements sorted by their computed keys; the result is the first key error, or success |
| NativeSort.StableSort | jaq-native/src/lib.rs:67 | the sort is a permutation of the elements, each keeps its own key, keys never decrease, and elements with equal keys keep their input order |
| NativeSort.SortedUnique | jaq-native/src/lib.rs:67 | two sorted permutations of the same entries are equal |
| NativeSort.SortedByKeysUnique | jaq-native/src/lib.rs:67 | every sorted permutation of the keyed elements is the model's sort, so any correct stable sort agrees with it |
| NativeGroup.GroupBy | jaq-native/src/lib.rs:71-92 | the first key error, if any; otherwise the elements of the runs of equal keys of the stable sort |
| NativeGroup.GroupByGroups | jaq-native/src/lib.rs:81-91 | without a key error, the groups are non-empty, concatenate to the stable sort, share one key within a group, ascend strictly by key, and no key occurs in two groups |
| NativeGroup.GroupRunsFlatten | jaq-native/src/lib.rs:84-90 | the runs concatenate to their input |
| NativeGroup.GroupRunsKeys | jaq-native/src/lib.rs:84-90 | every entry of a run has the run's key, and the last run has the input's last key |
| NativeGroup.GroupRunsMaximal | jaq-native/src/lib.rs:84-90 | neighbouring runs have different keys, so runs are maximal |
| NativeGroup.GroupRunsAscend | jaq-native/src/lib.rs:81-90 | the runs of a sorted input have strictly ascending keys |
| NativeGroup.GroupMembersKey | jaq-native/src/lib.rs:73-90 | every element of a group is mapped by the key filter to its group's key |
| NativeGroup.GroupKeysAscend | jaq-native/src/lib.rs:81-90 | group keys ascend strictly, and no key occurs in two groups |
| NativeCmp.CmpPos | jaq-native/src/lib.rs:94-113 | `null` exactly for the empty array; a chosen position is in range and its key succeeded |
| NativeCmp.CmpBy | jaq-native/src/lib.rs:94-113 | the loop returns the element at the position `CmpPos` chooses, or its error |
| NativeCmp.CmpPosError | jaq-native/src/lib.rs:100-108 | `cmp_by` fails exactly when some key fails, and then with the first key error |
| NativeCmp.MinByFirstMinimal | jaq-native/src/lib.rs:172-177 | with all keys successful, `min_by` chooses an element whose key no other key is below, and every earlier element's key is strictly above it |
| NativeCmp.MaxByLastMaximal | jaq-native/src/lib.rs:178-183 | with all keys successful, `max_by` chooses an element whose key no other key is above, and every later element's key is strictly below it |
| NativeCmp.MinBy | jaq-native/src/lib.rs:172-177 | `null` for an empty array, the first key error if a key fails, otherwise the first element with a minimal key |
| NativeCmp.MaxBy | jaq-native/src/lib.rs:178-183 | `null` for an empty array, the first key error if a key fails, otherwise the last element with a maximal key |
| NativeStr.SplitJoin | jaq-native/src/lib.rs:115-125 | joining the pieces with the separator gives the string back; a non-empty separator gives one piece more than its non-overlapping occurrences, the empty one one piece per character |
| NativeStr.SplitCommas | jaq-native/src/lib.rs:123 | `"a,b,,c"` split by `","` is `["a","b","","c"]` |
| NativeStr.SplitEmpty | jaq-native/src/lib.rs:116-122 | the empty string is one empty piece, and the empty separator gives the characters without empty ends |
| NativeStr.SplitNoOverlap | jaq-native/src/lib.rs:123 | occurrences are found left to right without overlap: `"aaa"` split by `"aa"` is `["","a"]` |
| NativeStr.LTrimStr | jaq-native/src/lib.rs:235-241 | with the prefix present, the prefix followed by the result is the input; otherwise the input is unchanged |
| NativeStr.RTrimStr | jaq-native/src/lib.rs:242-248 | with the suffix present, the result followed by the suffix is the input; otherwise the input is unchanged |
| NativeStr.TrimRoundTrip | jaq-native/src/lib.rs:127-132 | trimming removes exactly a prefix or suffix that was added |
| NativeStream.RangeValues | jaq-native/src/lib.rs:215-220 | `range(l; u)` yields `u - l` integers counting up from `l`, or none when `l >= u` |
| NativeStream.RangeMembers | jaq-native/src/lib.rs:207-220 | its outputs are exactly the integers `n` with `l <= n < u`, strictly increasing |
| NativeStream.RangeStreamSingle | jaq-native/src/lib.rs:215-220 | a single pair of bounds yields exactly its interval |
| NativeStream.LimitSingle | jaq-native/src/lib.rs:201-206 | for one count `n`, `limit` yields the first `n` outputs, all of them when there are fewer, and none when `n <= 0` |
| NativeStream.FirstOutput | jaq-native/src/lib.rs:196 | `first(f)` is the first output of `f`, or nothing |
| NativeStream.LastFoldResult | jaq-native/src/lib.rs:198 | the fold stops at the first error; without one it ends with the last output, or its start value for no output |
| NativeStream.LastOutput | jaq-native/src/lib.rs:197-200 | `last(f)` is the first error of `f` if it fails, else its final output, else nothing |

## Left out

- Floating-point literals: `Num::parse` keeps a literal containing `.`, `e` or `E` as text. Floating-point parsing is not part of this model, so the "cannot interpret as floating-point number" error is never produced.
- Error messages and spans: an error is modelled as its kind and the span it carries. Spans are passed through, not computed.
- The parser's types are not part of this model. Only the constructors the binder matches on are kept. Other binary operators, fold kinds and the shape of object entries are opaque tokens, and so is a native filter's implementation.
- `Defs::get`, `ancestors_and_me` and `args` are the plain functions `Get`, `AncestorsAndMe` and `Args`. The lemmas above state their properties, and they have no contracts of their own.
- `run_if_ok` lives in `jaq_core::results`, which is not part of this model. Its behaviour is taken from the comment and from its use in `sort_by`: once a key has failed, later elements get the empty key, and the first error is kept.
- The order of values (`Ord for Val`) is not part of this model. It is a parameter that a strict total order requires clause constrains. Values that this order cannot tell apart are treated as equal.
- The key filter is a function from an element to all of its outputs or to their first error. Running a filter, its context and its laziness are not modelled.
- NativeSort.SortBy: the library sorting algorithm is not modelled step by step. The sort is a reference insertion sort on sequences. `SortedByKeysUnique` shows that every correct stable sort gives the same result, and key caching is not observable.
- NativeGroup.GroupBy: the input is a sequence (`into_arr` on a non-array is a type error that is not modelled). The run grouping of `itertools` is modelled by `GroupRuns`.
- NativeCmp.MinBy and NativeCmp.MaxBy: the input is a sequence, and the type error for a non-array input is not modelled.
- Type errors from `as_str`, `to_str` and `as_int` in `split`, `ltrimstr`, `rtrimstr`, `limit` and `range` are not modelled as such. For `limit` and `range` they are the `Err` outputs of the count and bound streams. For `split` and trimming, the model takes the strings directly, and it handles one separator at a time rather than a stream of separators.
- `range` takes the cartesian product of its two argument streams. The model takes the resulting stream of bound pairs as its input.
- Streams are finite sequences. An infinite stream and the laziness of `take` are not modelled.
- Strings are sequences of characters. The UTF-8 encoding of Rust's `str` is not modelled, and `chars` yields one piece per character.
- The remaining natives of `CORE_RUN`, the rest of `jaq-native` and `jaq-core`, the parser and the interpreter are outside this model.
