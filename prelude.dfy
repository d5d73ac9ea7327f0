/** Small shared vocabulary: optional values, error-carrying results, and the
    "first minimal element" rule of Python's built-in `min(iterable, key=...)`. */
module Prelude {

  datatype Option<+T> = None | Some(value: T)

  datatype Result<+R, +E> = Success(value: R) | Failure(error: E)

  /** The index `min(s, key=lambda x: key(c, x))` selects: a minimal element, the first one
      on ties (`min` replaces its candidate only on a strictly smaller key). The key is a
      two-place function with its first argument fixed to `c`, the value the source's key
      closes over. */
  function FirstMin<C, T>(s: seq<T>, key: (C, T) -> real, c: C): (k: nat)
    requires |s| > 0
    ensures k < |s|
    ensures forall j :: 0 <= j < |s| ==> key(c, s[k]) <= key(c, s[j])
    ensures forall j :: 0 <= j < k ==> key(c, s[k]) < key(c, s[j])
    decreases |s|
  {
    if |s| == 1 then 0
    else
      var k' := FirstMin(s[..|s| - 1], key, c);
      if key(c, s[|s| - 1]) < key(c, s[k']) then |s| - 1 else k'
  }

  /** True when no element occurs twice. */
  predicate Distinct<T(==)>(s: seq<T>) {
    forall i, j :: 0 <= i < j < |s| ==> s[i] != s[j]
  }
}
