/** The shared helper of the UI: a backward linear search with a default. */
module Utilis {

  /**
   * `findLastIndex(array, condition, default_return = -1)`: scans from the last
   * index down to 0 and returns the first index it meets whose element satisfies
   * `condition`, i.e. the LAST such index; `defaultReturn` when there is none.
   * The array is only read (no `modifies` clause).
   */
  method FindLastIndex<T>(a: array<T>, condition: T -> bool, defaultReturn: int := -1) returns (r: int)
    ensures (forall i :: 0 <= i < a.Length ==> !condition(a[i])) ==> r == defaultReturn
    ensures (exists i :: 0 <= i < a.Length && condition(a[i])) ==>
      && 0 <= r < a.Length
      && condition(a[r])
      && forall j :: r < j < a.Length ==> !condition(a[j])
  {
    var i := a.Length - 1;
    while i >= 0
      invariant -1 <= i < a.Length
      invariant forall j :: i < j < a.Length ==> !condition(a[j])
    {
      if condition(a[i]) {
        return i;
      }
      i := i - 1;
    }
    return defaultReturn;
  }
}
