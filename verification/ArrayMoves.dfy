/** Moving stretches of fixed arrays, as the page operations do. */
module ArrayMoves {
  import opened Nodes

  /** The first `size` entries shift up from `index` on, and `x` fills the gap. */
  method Insert<T>(a: array<T>, index: nat, size: nat, x: T)
    requires index <= size < a.Length
    modifies a
    ensures a[..size + 1] == InsertAt(old(a[..size]), index, x)
  {
    var i := size;
    while i > index
      invariant index <= i <= size
      invariant forall k :: 0 <= k <= i ==> a[k] == old(a[k])
      invariant forall k :: i < k <= size ==> a[k] == old(a[k - 1])
    {
      a[i] := a[i - 1];
      i := i - 1;
    }
    a[index] := x;
  }

  /** The first `size` entries shift down over the entry at `index`. */
  method Remove<T>(a: array<T>, index: nat, size: nat)
    requires index < size <= a.Length
    modifies a
    ensures a[..size - 1] == RemoveAt(old(a[..size]), index)
  {
    var i := index;
    while i < size - 1
      invariant index <= i <= size - 1
      invariant forall k :: 0 <= k < index ==> a[k] == old(a[k])
      invariant forall k :: index <= k < i ==> a[k] == old(a[k + 1])
      invariant forall k :: i <= k < a.Length ==> a[k] == old(a[k])
    {
      a[i] := a[i + 1];
      i := i + 1;
    }
  }

  /** Entries `start` to `stop` of one array follow the first `at` entries of another. */
  method Append<T>(source: array<T>, start: nat, stop: nat, target: array<T>, at: nat)
    requires source != target && start <= stop <= source.Length && at + stop - start <= target.Length
    modifies target
    ensures target[..at + stop - start] == old(target[..at]) + source[start..stop]
  {
    var i := start;
    while i < stop
      invariant start <= i <= stop
      invariant forall k :: 0 <= k < at ==> target[k] == old(target[k])
      invariant forall k :: at <= k < at + i - start ==> target[k] == source[start + k - at]
    {
      target[at + i - start] := source[i];
      i := i + 1;
    }
  }
}
