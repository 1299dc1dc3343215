/**
 * The order that the native filters sort and compare keys by.
 *
 * A key is the list of values that the key filter yields for an element
 * (`Vec<Val>` in the source), and keys are compared lexicographically with
 * the order of values. The order of values itself is not part of this
 * model: it is a parameter `lt`, assumed to be a strict total order, and two
 * values are treated as equal when that order cannot tell them apart.
 */
module NativeOrder {

  /** `lt` is irreflexive, transitive, and relates any two distinct values. */
  ghost predicate StrictTotalOrder<V(!new)>(lt: (V, V) -> bool)
  {
    && (forall a :: !lt(a, a))
    && (forall a, b, c :: lt(a, b) && lt(b, c) ==> lt(a, c))
    && (forall a, b :: a != b ==> lt(a, b) || lt(b, a))
  }

  /**
   * Lexicographic order on keys, as `Ord` for `Vec`: the first differing
   * position decides, and a proper prefix is smaller than the longer key.
   */
  function LexLess<V(==,!new)>(lt: (V, V) -> bool, a: seq<V>, b: seq<V>): bool
  {
    if a == [] then b != []
    else if b == [] then false
    else lt(a[0], b[0]) || (a[0] == b[0] && LexLess(lt, a[1..], b[1..]))
  }

  lemma {:induction false} LexIrreflexive<V(!new)>(lt: (V, V) -> bool, a: seq<V>)
    requires StrictTotalOrder(lt)
    ensures !LexLess(lt, a, a)
  {
    if a != [] {
      LexIrreflexive(lt, a[1..]);
    }
  }

  lemma {:induction false} LexTransitive<V(!new)>(lt: (V, V) -> bool, a: seq<V>, b: seq<V>, c: seq<V>)
    requires StrictTotalOrder(lt)
    requires LexLess(lt, a, b) && LexLess(lt, b, c)
    ensures LexLess(lt, a, c)
  {
    if a != [] {
      assert b != [] && c != [];
      if a[0] == b[0] && b[0] == c[0] {
        LexTransitive(lt, a[1..], b[1..], c[1..]);
      }
    }
  }

  /** Any two keys are comparable, and equal keys are the only ones neither is below. */
  lemma {:induction false} LexTotal<V(!new)>(lt: (V, V) -> bool, a: seq<V>, b: seq<V>)
    requires StrictTotalOrder(lt)
    ensures a == b || LexLess(lt, a, b) || LexLess(lt, b, a)
  {
    if a != [] && b != [] && a[0] == b[0] {
      LexTotal(lt, a[1..], b[1..]);
      if a[1..] == b[1..] {
        assert a == [a[0]] + a[1..] && b == [b[0]] + b[1..];
      }
    }
  }

  lemma LexAsymmetric<V(!new)>(lt: (V, V) -> bool, a: seq<V>, b: seq<V>)
    requires StrictTotalOrder(lt)
    ensures !(LexLess(lt, a, b) && LexLess(lt, b, a))
  {
    if LexLess(lt, a, b) && LexLess(lt, b, a) {
      LexTransitive(lt, a, b, a);
      LexIrreflexive(lt, a);
    }
  }

  /** `LexLess` is itself a strict total order on keys. */
  lemma LexStrictTotalOrder<V(!new)>(lt: (V, V) -> bool)
    requires StrictTotalOrder(lt)
    ensures StrictTotalOrder((a: seq<V>, b: seq<V>) => LexLess(lt, a, b))
  {
    forall a: seq<V> ensures !LexLess(lt, a, a) {
      LexIrreflexive(lt, a);
    }
    forall a: seq<V>, b: seq<V>, c: seq<V> | LexLess(lt, a, b) && LexLess(lt, b, c)
      ensures LexLess(lt, a, c)
    {
      LexTransitive(lt, a, b, c);
    }
    forall a: seq<V>, b: seq<V> | a != b ensures LexLess(lt, a, b) || LexLess(lt, b, a) {
      LexTotal(lt, a, b);
    }
  }
}
