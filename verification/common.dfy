/**
  Python's `None`-or-value and normal-or-exception results, and small
  sequence predicates shared by the
  ring and the node models.
 */
module Common {

  /** Python's `None` or a value. */
  datatype Option<+T> = None | Some(value: T)

  /** The normal return of an operation, or the exception it raises. */
  datatype Result<+T, +E> = Ok(value: T) | Err(error: E)

  /** No element occurs twice. */
  predicate Distinct<T(==)>(xs: seq<T>) {
    forall i, j :: 0 <= i < j < |xs| ==> xs[i] != xs[j]
  }

  /** `order` lists every element of `keys` exactly once: one iteration
      order of a Python dict whose key set is `keys`. */
  predicate IsEnumeration<T(==)>(order: seq<T>, keys: set<T>) {
    && Distinct(order)
    && (forall i :: 0 <= i < |order| ==> order[i] in keys)
    && (forall k :: k in keys ==> k in order)
  }

  /** An enumeration has one element per key. */
  lemma {:induction false} EnumerationSize<T>(order: seq<T>, keys: set<T>)
    requires IsEnumeration(order, keys)
    ensures |order| == |keys|
    decreases |order|
  {
    if |order| > 0 {
      var x := order[0];
      var rest := order[1..];
      assert forall i :: 0 <= i < |rest| ==> rest[i] == order[i + 1];
      forall k | k in keys - {x} ensures k in rest {
        var i :| 0 <= i < |order| && order[i] == k;
      }
      EnumerationSize(rest, keys - {x});
    }
  }
}
