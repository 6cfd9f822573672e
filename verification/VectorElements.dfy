// Element storage under absl::InlinedVector (absl/container/internal/inlined_vector.h):
// slots that may or may not hold an object, and the loops that begin and end objects.
module VectorElements {

  /** Memory for one element: no object, an object, or one whose value was moved out. */
  datatype Slot<T> = Raw | Live(value: T) | MovedFrom

  /** An object may be constructed here. Trivial types need no destruction, so for them
      any slot will do; for the others the slot must not already hold an object. */
  ghost predicate Vacant<T>(trivial: bool, s: Slot<T>) {
    trivial || s.Raw?
  }

  /** The slot after ~T(): trivial destructors do nothing. */
  function Destroyed<T>(trivial: bool, s: Slot<T>): Slot<T> {
    if trivial then s else Raw
  }

  /** The slot after its value was moved elsewhere: moving a trivial value copies it. */
  function MovedOut<T>(trivial: bool, s: Slot<T>): Slot<T> {
    if trivial then s else MovedFrom
  }

  ghost predicate AllVacant<T>(trivial: bool, a: array<Slot<T>>, lo: nat, hi: nat)
    requires hi <= a.Length
    reads a
  {
    forall k :: lo <= k < hi ==> Vacant(trivial, a[k])
  }

  ghost predicate AllObjects<T>(a: array<Slot<T>>, lo: nat, hi: nat)
    requires hi <= a.Length
    reads a
  {
    forall k :: lo <= k < hi ==> !a[k].Raw?
  }

  predicate Objects<T>(vs: seq<Slot<T>>) {
    forall k :: 0 <= k < |vs| ==> !vs[k].Raw?
  }

  /** ConstructElements: begins |vs| objects in vacant slots. */
  method ConstructElements<T>(trivial: bool, a: array<Slot<T>>, first: nat, vs: seq<Slot<T>>)
    requires first + |vs| <= a.Length && AllVacant(trivial, a, first, first + |vs|)
    modifies a
    ensures forall k :: 0 <= k < a.Length ==>
              a[k] == if first <= k < first + |vs| then vs[k - first] else old(a[k])
  {
    for i := 0 to |vs|
      invariant forall k :: 0 <= k < a.Length ==> a[k] == if first <= k < first + i then vs[k - first] else old(a[k])
    {
      a[first + i] := vs[i];
    }
  }

  /** AssignElements: gives new values to |vs| objects. */
  method AssignElements<T>(a: array<Slot<T>>, first: nat, vs: seq<Slot<T>>)
    requires first + |vs| <= a.Length && AllObjects(a, first, first + |vs|)
    modifies a
    ensures forall k :: 0 <= k < a.Length ==>
              a[k] == if first <= k < first + |vs| then vs[k - first] else old(a[k])
  {
    for i := 0 to |vs|
      invariant forall k :: 0 <= k < a.Length ==> a[k] == if first <= k < first + i then vs[k - first] else old(a[k])
    {
      a[first + i] := vs[i];
    }
  }

  /** DestroyElements: ends n objects, last first. */
  method DestroyElements<T>(trivial: bool, a: array<Slot<T>>, first: nat, n: nat)
    requires first + n <= a.Length && AllObjects(a, first, first + n)
    modifies a
    ensures forall k :: 0 <= k < a.Length ==>
              a[k] == if first <= k < first + n then Destroyed(trivial, old(a[k])) else old(a[k])
  {
    var i := n;
    while i != 0
      invariant 0 <= i <= n
      invariant forall k :: 0 <= k < a.Length ==>
                  a[k] == if first + i <= k < first + n then Destroyed(trivial, old(a[k])) else old(a[k])
    {
      i := i - 1;
      a[first + i] := Destroyed(trivial, a[first + i]);
    }
  }

  /** ConstructElements over a MoveIterator into another array: n objects begin at the
      front of `dst` with the values moved out of `src`. */
  method MoveConstruct<T>(trivial: bool, dst: array<Slot<T>>, to: nat, src: array<Slot<T>>, from: nat, n: nat)
    requires dst != src && to + n <= dst.Length && from + n <= src.Length
    requires AllVacant(trivial, dst, to, to + n) && AllObjects(src, from, from + n)
    modifies dst, src
    ensures forall k {:trigger dst[k]} :: 0 <= k < dst.Length ==>
              dst[k] == if to <= k < to + n then old(src[k - to + from]) else old(dst[k])
    ensures forall k :: 0 <= k < src.Length ==>
              src[k] == if from <= k < from + n then MovedOut(trivial, old(src[k])) else old(src[k])
  {
    for i := 0 to n
      invariant forall k {:trigger dst[k]} :: 0 <= k < dst.Length ==>
                  dst[k] == if to <= k < to + i then old(src[k - to + from]) else old(dst[k])
      invariant forall k :: 0 <= k < src.Length ==>
                  src[k] == if from <= k < from + i then MovedOut(trivial, old(src[k])) else old(src[k])
    {
      dst[to + i] := src[from + i];
      src[from + i] := MovedOut(trivial, src[from + i]);
    }
  }

  /** ConstructElements over a MoveIterator within one array, to slots past the source. */
  method MoveConstructWithin<T>(trivial: bool, a: array<Slot<T>>, to: nat, from: nat, n: nat)
    requires from + n <= to && to + n <= a.Length
    requires AllVacant(trivial, a, to, to + n) && AllObjects(a, from, from + n)
    modifies a
    ensures forall k {:trigger a[k]} :: 0 <= k < a.Length ==>
              a[k] == if to <= k < to + n then old(a[k - to + from])
                      else if from <= k < from + n then MovedOut(trivial, old(a[k])) else old(a[k])
  {
    for i := 0 to n
      invariant forall k {:trigger a[k]} :: 0 <= k < a.Length ==>
                  a[k] == if to <= k < to + i then old(a[k - to + from])
                          else if from <= k < from + i then MovedOut(trivial, old(a[k])) else old(a[k])
    {
      a[to + i] := a[from + i];
      a[from + i] := MovedOut(trivial, a[from + i]);
    }
  }

  /** The move-assignment loop of Storage::Insert (lines 707-716): back to front, because
      the source may overlap the destination. */
  method MoveAssignBackward<T>(trivial: bool, a: array<Slot<T>>, to: nat, from: nat, n: nat)
    requires from < to && to + n <= a.Length
    requires AllObjects(a, from, from + n) && AllObjects(a, to, to + n)
    modifies a
    ensures forall k {:trigger a[k]} :: 0 <= k < a.Length ==>
              a[k] == if to <= k < to + n then old(a[k - to + from])
                      else if from <= k < from + n then MovedOut(trivial, old(a[k])) else old(a[k])
  {
    var i := n;
    while i > 0
      invariant 0 <= i <= n
      invariant forall k {:trigger a[k]} :: 0 <= k < a.Length ==>
                  a[k] == if to + i <= k < to + n then old(a[k - to + from])
                          else if from + i <= k < from + n then MovedOut(trivial, old(a[k])) else old(a[k])
    {
      i := i - 1;
      a[to + i] := a[from + i];
      a[from + i] := MovedOut(trivial, a[from + i]);
    }
  }

  /** The two moving steps of Storage::Insert (lines 679-716): the last size - at objects
      go up by `count`; those that land past the old end are constructed, the rest assigned. */
  method OpenGap<T>(trivial: bool, a: array<Slot<T>>, size: nat, at: nat, count: nat)
    requires at <= size && size + count <= a.Length && count > 0
    requires AllObjects(a, 0, size) && AllVacant(trivial, a, size, a.Length)
    modifies a
    ensures forall k {:trigger a[k]} :: at + count <= k < size + count ==> a[k] == old(a[k - count])
    ensures forall k {:trigger a[k]} :: at <= k < at + count && k < size ==> !a[k].Raw?
    ensures forall k {:trigger a[k]} ::
              0 <= k < a.Length && !(at <= k < size) && !(at + count <= k < size + count) ==> a[k] == old(a[k])
  {
    var end := at + count;
    var moveTo := if end > size then end else size;
    MoveConstructWithin(trivial, a, moveTo, moveTo - count, size + count - moveTo);
    label constructed:
    MoveAssignBackward(trivial, a, end, at, moveTo - end);
    forall k | end <= k < size + count ensures a[k] == old(a[k - count]) {
      if k < moveTo {
        assert a[k] == old@constructed(a[k - count]) == old(a[k - count]);
      } else {
        assert a[k] == old@constructed(a[k]) == old(a[k - count]);
      }
    }
  }

  /** The in-place half of Storage::Insert (lines 679-724): opens a gap of |vs| slots at
      `at` among the first `size` objects and fills it, assigning where an object was left
      behind and constructing where none was. */
  method InsertInPlace<T>(trivial: bool, a: array<Slot<T>>, size: nat, at: nat, vs: seq<Slot<T>>)
    requires at <= size && size + |vs| <= a.Length && |vs| > 0 && Objects(vs)
    requires AllObjects(a, 0, size) && AllVacant(trivial, a, size, a.Length)
    modifies a
    ensures a[..size + |vs|] == old(a[..at]) + vs + old(a[at..size])
    ensures AllObjects(a, 0, size + |vs|) && AllVacant(trivial, a, size + |vs|, a.Length)
  {
    var count := |vs|;
    var reused := if at + count > size then size - at else count;
    OpenGap(trivial, a, size, at, count);
    AssignElements(a, at, vs[..reused]);
    ConstructElements(trivial, a, at + reused, vs[reused..]);
  }

  /** AssignElements over a MoveIterator, front to back, to slots before the source. */
  method MoveAssignForward<T>(trivial: bool, a: array<Slot<T>>, to: nat, from: nat, n: nat)
    requires to < from && from + n <= a.Length && AllObjects(a, to, from + n)
    modifies a
    ensures forall k {:trigger a[k]} :: 0 <= k < a.Length ==>
              a[k] == if to <= k < to + n then old(a[k - to + from])
                      else if from <= k < from + n then MovedOut(trivial, old(a[k])) else old(a[k])
  {
    for i := 0 to n
      invariant forall k {:trigger a[k]} :: 0 <= k < a.Length ==>
                  a[k] == if to <= k < to + i then old(a[k - to + from])
                          else if from <= k < from + i then MovedOut(trivial, old(a[k])) else old(a[k])
    {
      a[to + i] := a[from + i];
      a[from + i] := MovedOut(trivial, a[from + i]);
    }
  }

  /** Storage::Erase on the elements: the tail moves down over the erased range and the
      objects left over at the end are destroyed. */
  method EraseInPlace<T>(trivial: bool, a: array<Slot<T>>, size: nat, from: nat, to: nat)
    requires from < to <= size <= a.Length
    requires AllObjects(a, 0, size) && AllVacant(trivial, a, size, a.Length)
    modifies a
    ensures a[..size - (to - from)] == old(a[..from]) + old(a[to..size])
    ensures AllObjects(a, 0, size - (to - from)) && AllVacant(trivial, a, size - (to - from), a.Length)
  {
    var kept := size - (to - from);
    MoveAssignForward(trivial, a, from, to, size - to);
    assert forall k {:trigger a[k]} :: 0 <= k < size ==> !a[k].Raw?;
    ghost var left := old(a[..from]) + old(a[to..size]);
    forall k | 0 <= k < kept ensures a[k] == left[k] {
      if k >= from {
        assert a[k] == old(a[k - from + to]);
      }
    }
    assert a[..kept] == left;
    label moved:
    DestroyElements(trivial, a, kept, to - from);
    assert a[..kept] == old@moved(a[..kept]);
  }

  /** The reallocating half of Storage::Insert (lines 661-669) and of EmplaceBackSlow: the new
      elements are constructed in the new block, the old ones moved around them and destroyed. */
  method Relocate<T>(trivial: bool, next: array<Slot<T>>, data: array<Slot<T>>, size: nat, at: nat, vs: seq<Slot<T>>)
    requires next != data && at <= size <= data.Length && size + |vs| <= next.Length
    requires AllVacant(trivial, next, 0, next.Length) && Objects(vs)
    requires AllObjects(data, 0, size) && AllVacant(trivial, data, size, data.Length)
    modifies next, data
    ensures next[..size + |vs|] == old(data[..at]) + vs + old(data[at..size])
    ensures AllObjects(next, 0, size + |vs|) && AllVacant(trivial, next, size + |vs|, next.Length)
    ensures AllVacant(trivial, data, 0, data.Length)
  {
    ConstructElements(trivial, next, at, vs);
    MoveConstruct(trivial, next, 0, data, 0, at);
    MoveConstruct(trivial, next, at + |vs|, data, at, size - at);
    DestroyElements(trivial, data, 0, size);
  }

  /** Storage::Assign when the values fit: assign to the objects there are, then construct
      what is missing or destroy what is left over. */
  method AssignInPlace<T>(trivial: bool, a: array<Slot<T>>, size: nat, vs: seq<Slot<T>>)
    requires size <= a.Length && |vs| <= a.Length && Objects(vs)
    requires AllObjects(a, 0, size) && AllVacant(trivial, a, size, a.Length)
    modifies a
    ensures a[..|vs|] == vs
    ensures AllObjects(a, 0, |vs|) && AllVacant(trivial, a, |vs|, a.Length)
  {
    if |vs| > size {
      AssignElements(a, 0, vs[..size]);
      ConstructElements(trivial, a, size, vs[size..]);
    } else {
      AssignElements(a, 0, vs);
      DestroyElements(trivial, a, |vs|, size - |vs|);
    }
  }

  /** Storage::Assign when they do not. */
  method AssignRelocate<T>(trivial: bool, next: array<Slot<T>>, data: array<Slot<T>>, size: nat, vs: seq<Slot<T>>)
    requires next != data && size <= data.Length && |vs| <= next.Length
    requires AllVacant(trivial, next, 0, next.Length) && Objects(vs)
    requires AllObjects(data, 0, size) && AllVacant(trivial, data, size, data.Length)
    modifies next, data
    ensures next[..|vs|] == vs
    ensures AllObjects(next, 0, |vs|) && AllVacant(trivial, next, |vs|, next.Length)
    ensures AllVacant(trivial, data, 0, data.Length)
  {
    ConstructElements(trivial, next, 0, vs);
    DestroyElements(trivial, data, 0, size);
  }

  /** The element-wise half of Storage::Swap (lines 889-908) for n objects against m >= n:
      the first n are exchanged, the rest move across and are destroyed where they were. */
  method SwapElements<T>(trivial: bool, small: array<Slot<T>>, n: nat, large: array<Slot<T>>, m: nat)
    requires small != large && small.Length == large.Length && n <= m <= small.Length
    requires AllObjects(small, 0, n) && AllVacant(trivial, small, n, small.Length)
    requires AllObjects(large, 0, m) && AllVacant(trivial, large, m, large.Length)
    modifies small, large
    ensures small[..m] == old(large[..m]) && large[..n] == old(small[..n])
    ensures AllObjects(small, 0, m) && AllVacant(trivial, small, m, small.Length)
    ensures AllObjects(large, 0, n) && AllVacant(trivial, large, n, large.Length)
  {
    for i := 0 to n
      invariant forall k :: 0 <= k < small.Length ==> small[k] == if k < i then old(large[k]) else old(small[k])
      invariant forall k :: 0 <= k < large.Length ==> large[k] == if k < i then old(small[k]) else old(large[k])
    {
      small[i], large[i] := large[i], small[i];
    }
    MoveConstruct(trivial, small, n, large, n, m - n);
    DestroyElements(trivial, large, n, m - n);
  }

  /** The copy of data_.inlined that MemcpyFrom makes. */
  method CopySlots<T>(dst: array<Slot<T>>, src: array<Slot<T>>)
    requires dst != src && dst.Length == src.Length
    modifies dst
    ensures dst[..] == src[..]
  {
    for i := 0 to dst.Length
      invariant forall k :: 0 <= k < i ==> dst[k] == src[k]
    {
      dst[i] := src[i];
    }
  }

  /** Moving the values of the first n objects out, as a MoveIterator does to its source. */
  method MoveOut<T>(trivial: bool, a: array<Slot<T>>, n: nat)
    requires n <= a.Length && AllObjects(a, 0, n)
    modifies a
    ensures forall k :: 0 <= k < a.Length ==> a[k] == if k < n then MovedOut(trivial, old(a[k])) else old(a[k])
  {
    for i := 0 to n
      invariant forall k :: 0 <= k < a.Length ==> a[k] == if k < i then MovedOut(trivial, old(a[k])) else old(a[k])
    {
      a[i] := MovedOut(trivial, a[i]);
    }
  }
}

