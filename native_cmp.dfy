/**
 * `cmp_by`, the loop behind `min_by` and `max_by`: the first element is the
 * current choice, and each later element replaces it when `replace(key of
 * the current choice, its key)` holds. A key error ends the loop with that
 * error, and an empty array gives `null` (`None` here).
 */
module NativeCmp {
  import opened Wrappers
  import opened NativeOrder
  import opened NativeKeys
  import Seqs

  /** The position `cmp_by` chooses in `xs`, or the error that stops it. */
  function CmpPos<V, E>(f: V -> Result<seq<V>, E>, replace: (seq<V>, seq<V>) -> bool, xs: seq<V>): (r: Result<Option<nat>, E>)
    ensures r.Ok? ==> (r.value.None? <==> xs == [])
    ensures r.Ok? && r.value.Some? ==> r.value.value < |xs| && f(xs[r.value.value]).Ok?
  {
    if xs == [] then Ok(None)
    else
      var n := |xs| - 1;
      match CmpPos(f, replace, xs[..n])
      case Err(e) => Err(e)
      case Ok(None) =>
        (match f(xs[n])
         case Ok(_) => Ok(Some(n))
         case Err(e) => Err(e))
      case Ok(Some(m)) =>
        match f(xs[n])
        case Err(e) => Err(e)
        case Ok(y) => if replace(f(xs[m]).value, y) then Ok(Some(n)) else Ok(Some(m))
  }

  /** The element at the chosen position. */
  function Chosen<V, E>(r: Result<Option<nat>, E>, xs: seq<V>): Result<Option<V>, E>
  {
    match r
    case Err(e) => Err(e)
    case Ok(None) => Ok(None)
    case Ok(Some(i)) => if i < |xs| then Ok(Some(xs[i])) else Ok(None)
  }

  /** Once a prefix has failed, every longer prefix fails with the same error. */
  lemma {:induction false} CmpPosErrPersists<V, E>(f: V -> Result<seq<V>, E>, replace: (seq<V>, seq<V>) -> bool, xs: seq<V>, k: nat)
    requires k <= |xs|
    requires CmpPos(f, replace, xs[..k]).Err?
    ensures CmpPos(f, replace, xs) == CmpPos(f, replace, xs[..k])
    decreases |xs| - k
  {
    if k < |xs| {
      Seqs.TakeSnoc(xs, k);
      CmpPosErrPersists(f, replace, xs, k + 1);
    } else {
      Seqs.TakeAll(xs);
    }
  }

  /** The loop of `cmp_by`, keeping the current choice `mx` and its key `my`. */
  method CmpBy<V, E>(f: V -> Result<seq<V>, E>, replace: (seq<V>, seq<V>) -> bool, xs: seq<V>) returns (r: Result<Option<V>, E>)
    ensures r == Chosen(CmpPos(f, replace, xs), xs)
  {
    if xs == [] {
      return Ok(None);
    }
    assert xs[..1][..0] == [];
    var y0 := f(xs[0]);
    if y0.Err? {
      CmpPosErrPersists(f, replace, xs, 1);
      return Err(y0.error);
    }
    var mx, my := xs[0], y0.value;
    ghost var mi := 0;
    var k := 1;
    while k < |xs|
      invariant 1 <= k <= |xs|
      invariant mi < k && mx == xs[mi] && f(mx) == Ok(my)
      invariant CmpPos(f, replace, xs[..k]) == Ok(Some(mi))
    {
      Seqs.TakeSnoc(xs, k);
      var y := f(xs[k]);
      if y.Err? {
        CmpPosErrPersists(f, replace, xs, k + 1);
        return Err(y.error);
      }
      if replace(my, y.value) {
        mx, my, mi := xs[k], y.value, k;
      }
      k := k + 1;
    }
    Seqs.TakeAll(xs);
    r := Ok(Some(mx));
  }

  /** `cmp_by` fails exactly when some key fails, and then with the first key error. */
  lemma {:induction false} CmpPosError<V, E>(f: V -> Result<seq<V>, E>, replace: (seq<V>, seq<V>) -> bool, xs: seq<V>)
    ensures CmpPos(f, replace, xs).Err? <==> FirstError(f, xs).Some?
    ensures CmpPos(f, replace, xs).Err? ==> CmpPos(f, replace, xs).error == FirstError(f, xs).value
  {
    if xs != [] {
      var n := |xs| - 1;
      CmpPosError(f, replace, xs[..n]);
      FirstErrorSnoc(f, xs[..n], xs[n]);
      assert xs[..n] + [xs[n]] == xs;
    }
  }

  /** `min_by` replaces the current choice only by a strictly smaller key (`y < my`). */
  function MinReplace<V(==,!new)>(lt: (V, V) -> bool): (seq<V>, seq<V>) -> bool
  {
    (my: seq<V>, y: seq<V>) => LexLess(lt, y, my)
  }

  /** `max_by` replaces the current choice by any key at least as large (`y >= my`). */
  function MaxReplace<V(==,!new)>(lt: (V, V) -> bool): (seq<V>, seq<V>) -> bool
  {
    (my: seq<V>, y: seq<V>) => LexLess(lt, my, y) || y == my
  }

  /** `min_by` chooses the first element whose key is minimal. */
  lemma {:induction false} MinByFirstMinimal<V(!new), E>(lt: (V, V) -> bool, f: V -> Result<seq<V>, E>, xs: seq<V>)
    requires StrictTotalOrder(lt)
    requires xs != []
    requires forall j | 0 <= j < |xs| :: f(xs[j]).Ok?
    ensures var r := CmpPos(f, MinReplace(lt), xs);
      && r.Ok? && r.value.Some? && r.value.value < |xs|
      && var i := r.value.value;
      && (forall j | 0 <= j < |xs| :: !LexLess(lt, f(xs[j]).value, f(xs[i]).value))
      && (forall j | 0 <= j < i :: LexLess(lt, f(xs[i]).value, f(xs[j]).value))
  {
    var n := |xs| - 1;
    var p := xs[..n];
    var kn := f(xs[n]).value;
    if n > 0 {
      MinByFirstMinimal(lt, f, p);
      var m := CmpPos(f, MinReplace(lt), p).value.value;
      var km := f(xs[m]).value;
      assert forall j | 0 <= j < n :: xs[j] == p[j];
      assert MinReplace(lt)(km, kn) == LexLess(lt, kn, km);
      if LexLess(lt, kn, km) {
        assert CmpPos(f, MinReplace(lt), xs) == Ok(Some(n));
        forall j | 0 <= j < n
          ensures LexLess(lt, kn, f(xs[j]).value) && !LexLess(lt, f(xs[j]).value, kn)
        {
          LexTotal(lt, km, f(xs[j]).value);
          if km != f(xs[j]).value {
            LexTransitive(lt, kn, km, f(xs[j]).value);
          }
          LexAsymmetric(lt, kn, f(xs[j]).value);
        }
        LexIrreflexive(lt, kn);
      } else {
        assert CmpPos(f, MinReplace(lt), xs) == Ok(Some(m));
      }
    } else {
      LexIrreflexive(lt, kn);
      assert xs[..0] == [];
    }
  }

  /** `max_by` chooses the last element whose key is maximal. */
  lemma {:induction false} MaxByLastMaximal<V(!new), E>(lt: (V, V) -> bool, f: V -> Result<seq<V>, E>, xs: seq<V>)
    requires StrictTotalOrder(lt)
    requires xs != []
    requires forall j | 0 <= j < |xs| :: f(xs[j]).Ok?
    ensures var r := CmpPos(f, MaxReplace(lt), xs);
      && r.Ok? && r.value.Some? && r.value.value < |xs|
      && var i := r.value.value;
      && (forall j | 0 <= j < |xs| :: !LexLess(lt, f(xs[i]).value, f(xs[j]).value))
      && (forall j | i < j < |xs| :: LexLess(lt, f(xs[j]).value, f(xs[i]).value))
  {
    var n := |xs| - 1;
    var p := xs[..n];
    var kn := f(xs[n]).value;
    if n > 0 {
      MaxByLastMaximal(lt, f, p);
      var m := CmpPos(f, MaxReplace(lt), p).value.value;
      var km := f(xs[m]).value;
      assert forall j | 0 <= j < n :: xs[j] == p[j];
      assert MaxReplace(lt)(km, kn) == (LexLess(lt, km, kn) || kn == km);
      if LexLess(lt, km, kn) || kn == km {
        assert CmpPos(f, MaxReplace(lt), xs) == Ok(Some(n));
        forall j | 0 <= j < n
          ensures !LexLess(lt, kn, f(xs[j]).value)
        {
          if LexLess(lt, kn, f(xs[j]).value) && LexLess(lt, km, kn) {
            LexTransitive(lt, km, kn, f(xs[j]).value);
          }
        }
        LexIrreflexive(lt, kn);
      } else {
        assert CmpPos(f, MaxReplace(lt), xs) == Ok(Some(m));
        LexTotal(lt, km, kn);
        LexAsymmetric(lt, km, kn);
      }
    } else {
      LexIrreflexive(lt, kn);
      assert xs[..0] == [];
    }
  }

  /**
   * `min_by`: `null` for an empty array, the first key error if a key
   * fails, and otherwise the first element whose key is minimal.
   */
  method MinBy<V(==,!new), E>(lt: (V, V) -> bool, f: V -> Result<seq<V>, E>, xs: seq<V>) returns (r: Result<Option<V>, E>)
    ensures xs == [] ==> r == Ok(None)
    ensures FirstError(f, xs).Some? ==> r == Err(FirstError(f, xs).value)
    ensures StrictTotalOrder(lt) && FirstError(f, xs).None? && xs != [] ==>
      exists i | 0 <= i < |xs| :: r == Ok(Some(xs[i])) && f(xs[i]).Ok?
        && (forall j | 0 <= j < |xs| :: f(xs[j]).Ok? && !LexLess(lt, f(xs[j]).value, f(xs[i]).value))
        && (forall j | 0 <= j < i :: LexLess(lt, f(xs[i]).value, f(xs[j]).value))
  {
    r := CmpBy(f, MinReplace(lt), xs);
    CmpPosError(f, MinReplace(lt), xs);
    if StrictTotalOrder(lt) && FirstError(f, xs).None? && xs != [] {
      FirstErrorNone(f, xs);
      MinByFirstMinimal(lt, f, xs);
    }
  }

  /**
   * `max_by`: `null` for an empty array, the first key error if a key
   * fails, and otherwise the last element whose key is maximal.
   */
  method MaxBy<V(==,!new), E>(lt: (V, V) -> bool, f: V -> Result<seq<V>, E>, xs: seq<V>) returns (r: Result<Option<V>, E>)
    ensures xs == [] ==> r == Ok(None)
    ensures FirstError(f, xs).Some? ==> r == Err(FirstError(f, xs).value)
    ensures StrictTotalOrder(lt) && FirstError(f, xs).None? && xs != [] ==>
      exists i | 0 <= i < |xs| :: r == Ok(Some(xs[i])) && f(xs[i]).Ok?
        && (forall j | 0 <= j < |xs| :: f(xs[j]).Ok? && !LexLess(lt, f(xs[i]).value, f(xs[j]).value))
        && (forall j | i < j < |xs| :: LexLess(lt, f(xs[j]).value, f(xs[i]).value))
  {
    r := CmpBy(f, MaxReplace(lt), xs);
    CmpPosError(f, MaxReplace(lt), xs);
    if StrictTotalOrder(lt) && FirstError(f, xs).None? && xs != [] {
      FirstErrorNone(f, xs);
      MaxByLastMaximal(lt, f, xs);
    }
  }
}
