// absl::InlinedVector over its Storage (absl/container/inlined_vector.h and
// internal/inlined_vector.h): where the elements live and who owns the heap block.
module InlinedVectors {
  import opened VectorElements

  /** The allocator's books: every block ever handed out, those still out, and those given back. */
  class Heap<T> {
    ghost var issued: set<array<Slot<T>>>
    ghost var live: set<array<Slot<T>>>
    ghost var freed: set<array<Slot<T>>>

    ghost predicate Valid() reads this {
      live !! freed && issued == live + freed
    }

    /** What was given back stays so, and what was ever handed out is still on the books. */
    twostate predicate NothingLost() reads this {
      old(freed) <= freed && old(issued) <= issued
    }

    constructor ()
      ensures Valid() && live == {} && freed == {}
    {
      issued, live, freed := {}, {}, {};
    }

    /** MallocAdapter::Allocate */
    method Allocate(capacity: nat) returns (a: array<Slot<T>>)
      requires Valid()
      modifies this
      ensures Valid() && fresh(a) && a.Length == capacity && forall k :: 0 <= k < capacity ==> a[k] == Raw
      ensures issued == old(issued) + {a} && live == old(live) + {a} && freed == old(freed)
      ensures a !in old(issued)
    {
      a := new Slot<T>[capacity](_ => Raw);
      issued, live := issued + {a}, live + {a};
    }

    /** MallocAdapter::Deallocate: only for a block still held, and holding no object. */
    method Deallocate(a: array<Slot<T>>, ghost trivial: bool)
      requires Valid() && a in live && AllVacant(trivial, a, 0, a.Length)
      modifies this
      ensures Valid() && live == old(live) - {a} && freed == old(freed) + {a} && issued == old(issued)
    {
      live := live - {a};
      freed := freed + {a};
    }
  }

  /** A single-pass input range [first, last): reading past an element loses it. */
  class InputRange<T> {
    var rest: seq<Slot<T>>

    constructor (vs: seq<Slot<T>>)
      ensures rest == vs
    {
      rest := vs;
    }

    /** *first */
    function Current(): Slot<T>
      requires rest != []
      reads this
    {
      rest[0]
    }

    /** ++first */
    method Advance()
      requires rest != []
      modifies this
      ensures rest == old(rest[1..]) && (old(Objects(rest)) ==> Objects(rest))
    {
      rest := rest[1..];
    }
  }

  /** What a vector shows: its elements, the room its storage has, and where that is. */
  datatype Shown<T> = Shown(elements: seq<Slot<T>>, room: Room, onHeap: bool)

  type Room = n: nat | 0 < n witness 1

  /** Storage::ComputeCapacity: twice the room there was, or more if more is needed. */
  function Grown(room: Room, needed: nat): (r: Room)
    ensures r >= needed && r >= 2 * room && (r == needed || r == 2 * room)
  {
    if 2 * room > needed then 2 * room else needed
  }

  /** The room after as many doublings as n elements added one at a time need, and no more. */
  function Doubled(room: Room, n: nat): (r: Room)
    ensures r >= n && r >= room && (r == room || r < 2 * n)
    decreases n - room
  {
    if n <= room then room else Doubled(2 * room, n)
  }

  /** Given xs at once: the storage stays if they fit, and is replaced by a block if not. */
  function Holding<T>(s: Shown<T>, xs: seq<Slot<T>>): (r: Shown<T>)
    ensures r.elements == xs && |xs| <= r.room
    ensures if |xs| <= s.room then r.room == s.room && r.onHeap == s.onHeap else r.onHeap
  {
    if |xs| <= s.room then s.(elements := xs) else Shown(xs, Grown(s.room, |xs|), true)
  }

  /** Given them one at a time, starting from some that fit. */
  function HoldingByOne<T>(s: Shown<T>, xs: seq<Slot<T>>): (r: Shown<T>)
    ensures r.elements == xs && |xs| <= r.room
    ensures if |xs| <= s.room then r.room == s.room && r.onHeap == s.onHeap else r.onHeap
  {
    if |xs| <= s.room then s.(elements := xs) else Shown(xs, Doubled(s.room, |xs|), true)
  }

  lemma {:induction false} DoubledNext(room: Room, n: nat)
    requires room <= n
    ensures
      var r := Doubled(room, n);
      Doubled(room, n + 1) == if n + 1 <= r then r else 2 * r
    decreases n - room
  {
    if room < n {
      if 2 * room <= n {
        DoubledNext(2 * room, n);
      }
    }
  }

  /** One element more is one step more. */
  lemma OneMoreHeld<T>(s: Shown<T>, xs: seq<Slot<T>>, ys: seq<Slot<T>>)
    requires |ys| == |xs| + 1
    ensures Holding(HoldingByOne(s, xs), ys) == HoldingByOne(s, ys)
  {
    if s.room <= |xs| {
      DoubledNext(s.room, |xs|);
    }
  }

  /** A vector copied from one that shows t, with room for n elements inside it. */
  function CopyOf<T>(t: Shown<T>, n: Room): Shown<T> {
    if t.onHeap && t.elements != [] then Shown(t.elements, Grown(n, |t.elements|), true)
    else Shown(t.elements, n, false)
  }

  /** What a move leaves in its source: nothing when the storage changed owner, an object
      whose value is gone in every place otherwise. */
  function Leftover<T>(trivial: bool, onHeap: bool, xs: seq<Slot<T>>): (r: seq<Slot<T>>)
    ensures |r| == if trivial || onHeap then 0 else |xs|
    ensures forall i :: 0 <= i < |r| ==> r[i] == MovedFrom
  {
    if trivial || onHeap then [] else seq(|xs|, i => MovedFrom)
  }

  class InlinedVector<T> {
    const heap: Heap<T>
    const trivial: bool                // IsMemcpyOk: the elements may be copied as bytes
    const inlined: array<Slot<T>>      // data_.inlined
    var block: array?<Slot<T>>         // data_.allocated
    var sizeAndIsAllocated: nat

    function GetSize(): nat reads this {
      sizeAndIsAllocated / 2
    }

    predicate IsAllocated() reads this {
      sizeAndIsAllocated % 2 == 1
    }

    ghost predicate Owning() reads this {
      IsAllocated() ==> block != null && block != inlined
    }

    /** InlinedVector::data */
    function Data(): array<Slot<T>>
      requires Owning()
      reads this
    {
      if IsAllocated() then block else inlined
    }

    /** The heap block this vector must give back, if it has one. */
    ghost function Owned(): set<array<Slot<T>>>
      requires Owning()
      reads this
    {
      if IsAllocated() then {block} else {}
    }

    ghost function Repr(): set<object>
      requires Owning()
      reads this
    {
      {this, inlined, Data()}
    }

    ghost predicate Valid()
      reads this, inlined, heap, if IsAllocated() && block != null then {block} else {}
    {
      && heap.Valid() && Owning() && Owned() <= heap.live && inlined !in heap.live
      && 0 < inlined.Length && 0 < Data().Length && GetSize() <= Data().Length
      && AllObjects(Data(), 0, GetSize()) && AllVacant(trivial, Data(), GetSize(), Data().Length)
      && (IsAllocated() ==> AllVacant(trivial, inlined, 0, inlined.Length))
    }

    ghost function Contents(): (s: seq<Slot<T>>)
      requires Owning() && GetSize() <= Data().Length
      reads this, Data()
    {
      Data()[..GetSize()]
    }

    ghost function Shows(): Shown<T>
      requires Owning() && GetSize() <= Data().Length && 0 < Data().Length
      reads this, Data()
    {
      Shown(Contents(), Data().Length, IsAllocated())
    }

    /** The elements are where they were. */
    twostate predicate InPlace()
      requires old(Owning()) && Owning()
      reads this
    {
      Data() == old(Data()) && IsAllocated() == old(IsAllocated())
    }

    /** An empty vector with room for n elements inside it. */
    constructor (heap: Heap<T>, n: nat, trivial: bool)
      requires heap.Valid() && n > 0
      ensures Valid() && fresh(Repr()) && this.heap == heap && this.trivial == trivial && inlined.Length == n
      ensures Owned() == {} && Contents() == []
    {
      this.heap, this.trivial := heap, trivial;
      inlined := new Slot<T>[n](_ => Raw);
      block := null;
      sizeAndIsAllocated := 0;
    }

    /** The books after the blocks `was` were exchanged for the blocks `now`: what is held
        changed by exactly that, and nothing was given back but those of `was` no longer
        held and blocks handed out in the meantime. */
    twostate predicate Rebooked(was: set<array<Slot<T>>>, new now: set<array<Slot<T>>>)
      reads heap
    {
      && heap.live == old(heap.live) - was + now
      && old(heap.freed) + (was - now) <= heap.freed
      && fresh(heap.freed - old(heap.freed) - was)
    }

    method SetInlinedSize(n: nat)
      modifies this`sizeAndIsAllocated
      ensures GetSize() == n && !IsAllocated()
    {
      sizeAndIsAllocated := n * 2;
    }

    method SetAllocatedSize(n: nat)
      modifies this`sizeAndIsAllocated
      ensures GetSize() == n && IsAllocated()
    {
      sizeAndIsAllocated := n * 2 + 1;
    }

    /** SetSize, AddSize and SubtractSize: the size changes, the allocated bit does not. */
    method SetSize(n: nat)
      modifies this`sizeAndIsAllocated
      ensures GetSize() == n && IsAllocated() == old(IsAllocated())
    {
      sizeAndIsAllocated := n * 2 + if IsAllocated() then 1 else 0;
    }

    /** The end of every reallocation: the old block is given back, the new one taken on. */
    method Adopt(next: array<Slot<T>>, size: nat)
      requires heap.Valid() && Owning() && Owned() <= heap.live
      requires next in heap.live && next !in Owned() && next != inlined
      requires AllVacant(trivial, Data(), 0, Data().Length)
      modifies this, heap
      ensures heap.Valid() && Owning() && IsAllocated() && block == next && GetSize() == size
      ensures heap.live == old(heap.live) - old(Owned()) && heap.freed == old(heap.freed) + old(Owned())
    {
      if IsAllocated() {
        heap.Deallocate(block, trivial);
      }
      block := next;
      SetAllocatedSize(size);
    }

    /** Storage::ComputeCapacity */
    function GrownCapacity(needed: nat): (r: nat)
      requires Owning() && 0 < Data().Length
      reads this
      ensures r >= needed && r >= 2 * Data().Length && (r == needed || r == 2 * Data().Length)
    {
      Grown(Data().Length, needed)
    }

    /** The reallocating half of Storage::Insert (lines 650-677). */
    method InsertOutgrown(at: nat, vs: seq<Slot<T>>)
      requires Valid() && at <= GetSize() && Objects(vs) && GetSize() + |vs| > Data().Length
      modifies Repr(), heap
      ensures Valid() && Contents() == old(Contents()[..at]) + vs + old(Contents()[at..])
      ensures IsAllocated() && Data().Length == Grown(old(Data().Length), old(GetSize()) + |vs|)
      ensures Rebooked(old(Owned()), Owned()) && fresh(Owned() - old(Owned()))
    {
      var size, data := GetSize(), Data();
      var next := heap.Allocate(GrownCapacity(size + |vs|));
      Relocate(trivial, next, data, size, at, vs);
      Adopt(next, size + |vs|);
    }

    /** Storage::Insert: |vs| objects before position `at`, wherever there is room for them. */
    method Insert(at: nat, vs: seq<Slot<T>>)
      requires Valid() && at <= GetSize() && |vs| > 0 && Objects(vs)
      modifies Repr(), heap
      ensures Valid() && Contents() == old(Contents()[..at]) + vs + old(Contents()[at..])
      ensures if old(GetSize()) + |vs| <= old(Data().Length) then InPlace()
              else IsAllocated() && Data().Length == Grown(old(Data().Length), old(GetSize()) + |vs|)
      ensures Shows() == old(Holding(Shows(), Contents()[..at] + vs + Contents()[at..]))
      ensures Rebooked(old(Owned()), Owned()) && fresh(Owned() - old(Owned()))
    {
      var size, data := GetSize(), Data();
      if size + |vs| > data.Length {
        InsertOutgrown(at, vs);
      } else {
        InsertInPlace(trivial, data, size, at, vs);
        SetSize(size + |vs|);
      }
    }

    /** Storage::EmplaceBack, with EmplaceBackSlow when the storage is full. */
    method EmplaceBack(v: Slot<T>)
      requires Valid() && !v.Raw?
      modifies Repr(), heap
      ensures Valid() && Contents() == old(Contents()) + [v]
      ensures if old(GetSize() < Data().Length) then InPlace()
              else IsAllocated() && Data().Length == 2 * old(Data().Length)
      ensures Rebooked(old(Owned()), Owned()) && fresh(Owned() - old(Owned()))
    {
      var size, data := GetSize(), Data();
      if size != data.Length {
        ConstructElements(trivial, data, size, [v]);
        SetSize(size + 1);
      } else {
        var next := heap.Allocate(data.Length * 2);
        Relocate(trivial, next, data, size, size, [v]);
        Adopt(next, size + 1);
      }
    }

    /** InlinedVector::erase of a range */
    method Erase(from: nat, to: nat)
      requires Valid() && from <= to <= GetSize()
      modifies Repr(), heap
      ensures Valid() && Contents() == old(Contents()[..from]) + old(Contents()[to..])
      ensures InPlace() && Owned() == old(Owned()) && Rebooked({}, {})
    {
      if from != to {
        var size := GetSize();
        EraseInPlace(trivial, Data(), size, from, to);
        SetSize(size - (to - from));
        assert Contents() == old(Contents()[..from]) + old(Contents()[to..]) by {
          assert old(Contents()[to..]) == old(Data()[to..size]);
        }
      } else {
        assert Contents() == Contents()[..from] + Contents()[to..];
      }
    }

    /** Storage::Assign */
    method Assign(vs: seq<Slot<T>>)
      requires Valid() && Objects(vs)
      modifies Repr(), heap
      ensures Valid() && Contents() == vs
      ensures if |vs| <= old(Data().Length) then InPlace()
              else IsAllocated() && Data().Length == Grown(old(Data().Length), |vs|)
      ensures Rebooked(old(Owned()), Owned()) && fresh(Owned() - old(Owned()))
    {
      var size, data, n := GetSize(), Data(), |vs|;
      if n > data.Length {
        var next := heap.Allocate(GrownCapacity(n));
        AssignRelocate(trivial, next, data, size, vs);
        Adopt(next, n);
      } else {
        AssignInPlace(trivial, data, size, vs);
        SetSize(n);
      }
    }

    /** InlinedVector::clear; the destructor does the same to the storage. */
    method Clear()
      requires Valid()
      modifies Repr(), heap
      ensures Valid() && Contents() == [] && Owned() == {}
      ensures heap.live == old(heap.live) - old(Owned()) && heap.freed == old(heap.freed) + old(Owned())
    {
      DestroyElements(trivial, Data(), 0, GetSize());
      if IsAllocated() {
        heap.Deallocate(block, trivial);
      }
      SetInlinedSize(0);
    }

    /** Two vectors that share an allocator and nothing else. */
    ghost predicate Apart(other: InlinedVector<T>)
      requires Owning() && other.Owning()
      reads this, other
    {
      && this != other && heap == other.heap && trivial == other.trivial
      && inlined != other.inlined && inlined.Length == other.inlined.Length
      && inlined != other.Data() && other.inlined != Data() && Owned() !! other.Owned()
    }

    /** Storage::MemcpyFrom: for a while two vectors name the same block. */
    method MemcpyFrom(other: InlinedVector<T>)
      requires inlined != other.inlined && inlined.Length == other.inlined.Length
      modifies this, inlined
      ensures inlined[..] == other.inlined[..]
      ensures block == other.block && sizeAndIsAllocated == other.sizeAndIsAllocated
    {
      sizeAndIsAllocated := other.sizeAndIsAllocated;
      block := other.block;
      CopySlots(inlined, other.inlined);
    }

    /** The copy constructor. */
    constructor Copy(other: InlinedVector<T>)
      requires other.Valid()
      modifies other.heap
      ensures Valid() && other.Valid() && fresh(Repr() - {other.heap}) && Apart(other)
      ensures heap == other.heap && Contents() == other.Contents() == old(other.Contents())
      ensures Shows() == CopyOf(other.Shows(), inlined.Length)
      ensures heap.live == old(other.heap.live) + Owned() && heap.freed == old(other.heap.freed)
    {
      heap, trivial := other.heap, other.trivial;
      inlined := new Slot<T>[other.inlined.Length](_ => Raw);
      block := null;
      sizeAndIsAllocated := 0;
      new;
      if other.GetSize() == 0 {
      } else if trivial && !other.IsAllocated() {
        MemcpyFrom(other);
      } else {
        InitFrom(other);
      }
    }

    /** Storage::InitFrom, called on storage just constructed. */
    method InitFrom(other: InlinedVector<T>)
      requires other.Valid() && Valid() && Apart(other) && sizeAndIsAllocated == 0
      modifies this, inlined, heap
      ensures Valid() && Contents() == other.Contents() == old(other.Contents())
      ensures IsAllocated() == other.IsAllocated()
      ensures IsAllocated() ==> Data().Length == Grown(inlined.Length, GetSize())
      ensures heap.live == old(heap.live) + Owned() && heap.freed == old(heap.freed) && fresh(Owned())
    {
      var n := other.GetSize();
      if !other.IsAllocated() {
        ConstructElements(trivial, inlined, 0, other.inlined[..n]);
      } else {
        var next := heap.Allocate(GrownCapacity(n));
        ConstructElements(trivial, next, 0, other.Data()[..n]);
        block := next;
      }
      sizeAndIsAllocated := other.sizeAndIsAllocated;
    }

    /** The move constructor. */
    constructor Move(other: InlinedVector<T>)
      requires other.Valid()
      modifies other.Repr()
      ensures Valid() && other.Valid() && Apart(other) && heap == other.heap && fresh(inlined)
      ensures Contents() == old(other.Contents())
      ensures Owned() == old(other.Owned()) && other.Owned() == {}
      ensures other.Contents() == Leftover(other.trivial, old(other.IsAllocated()), old(other.Contents()))
      ensures Shows() == old(other.Shows())
    {
      heap, trivial := other.heap, other.trivial;
      inlined := new Slot<T>[other.inlined.Length](_ => Raw);
      block := null;
      sizeAndIsAllocated := 0;
      new;
      MoveFrom(other);
    }

    /** The body of the move constructor, on storage just constructed. */
    method MoveFrom(other: InlinedVector<T>)
      requires other.Valid() && Valid() && Apart(other) && sizeAndIsAllocated == 0
      modifies this, inlined, other`sizeAndIsAllocated, other.inlined
      ensures Valid() && other.Valid() && Apart(other)
      ensures Contents() == old(other.Contents())
      ensures Owned() == old(other.Owned()) && other.Owned() == {}
      ensures other.Contents() == Leftover(other.trivial, old(other.IsAllocated()), old(other.Contents()))
      ensures Shows() == old(other.Shows())
    {
      if trivial {
        MemcpyFrom(other);
        other.SetInlinedSize(0);
      } else if other.IsAllocated() {
        block := other.block;
        SetAllocatedSize(other.GetSize());
        other.SetInlinedSize(0);
      } else {
        MoveConstruct(trivial, inlined, 0, other.inlined, 0, other.GetSize());
        SetInlinedSize(other.GetSize());
      }
    }

    /** Move assignment by taking the storage over (lines 488-493). */
    method TakeStorage(other: InlinedVector<T>)
      requires Valid() && other.Valid() && Apart(other) && (trivial || other.IsAllocated())
      modifies Repr(), other`sizeAndIsAllocated, heap
      ensures Valid() && other.Valid() && Apart(other)
      ensures Contents() == old(other.Contents()) && other.Contents() == []
      ensures Owned() == old(other.Owned()) && other.Owned() == {}
      ensures heap.live == old(heap.live) - old(Owned()) && heap.freed == old(heap.freed) + old(Owned())
    {
      Clear();
      MemcpyFrom(other);
      other.SetInlinedSize(0);
    }

    /** Move assignment element by element (lines 495-497). */
    method TakeElements(other: InlinedVector<T>)
      requires Valid() && other.Valid() && Apart(other) && !other.IsAllocated()
      modifies Repr(), other.inlined, heap
      ensures Valid() && other.Valid() && Apart(other)
      ensures Contents() == old(other.Contents())
      ensures Shows() == Holding(old(Shows()), old(other.Contents()))
      ensures other.Contents() ==
              if trivial then old(other.Contents()) else Leftover(false, false, old(other.Contents()))
      ensures other.Owned() == {} && Rebooked(old(Owned()), Owned()) && fresh(Owned() - old(Owned()))
    {
      Assign(other.inlined[..other.GetSize()]);
      MoveOut(trivial, other.inlined, other.GetSize());
    }

    /** Move assignment. */
    method MoveAssign(other: InlinedVector<T>)
      requires Valid() && other.Valid() && (this == other || Apart(other))
      modifies Repr(), other.Repr(), heap
      ensures Valid() && other.Valid() && (this == other || Apart(other))
      ensures Contents() == old(other.Contents())
      ensures heap.live == old(heap.live) - old(Owned() + other.Owned()) + (Owned() + other.Owned())
      ensures fresh(Owned() + other.Owned() - old(Owned() + other.Owned())) && heap.NothingLost()
      ensures this != other ==> other.Owned() == {}
      ensures this != other ==> other.Contents() == Leftover(trivial, old(other.IsAllocated()), old(other.Contents()))
      ensures this != other && (trivial || old(other.IsAllocated())) ==> Owned() == old(other.Owned())
      ensures this == other ==> Owned() == old(Owned())
      ensures this != other ==>
                Shows() == if trivial || old(other.IsAllocated()) then old(other.Shows())
                           else Holding(old(Shows()), old(other.Contents()))
    {
      if this != other {
        if trivial || other.IsAllocated() {
          TakeStorage(other);
        } else {
          TakeElements(other);
        }
      }
    }

    /** InlinedVector::swap, with Storage::Swap. */
    method Swap(other: InlinedVector<T>)
      requires Valid() && other.Valid() && (this == other || Apart(other))
      modifies Repr(), other.Repr()
      ensures Valid() && other.Valid() && (this == other || Apart(other))
      ensures Contents() == old(other.Contents()) && other.Contents() == old(Contents())
      ensures Owned() == old(other.Owned()) && other.Owned() == old(Owned())
    {
      if this != other {
        if IsAllocated() && other.IsAllocated() {
          block, other.block := other.block, block;
        } else if !IsAllocated() && !other.IsAllocated() {
          if GetSize() > other.GetSize() {
            SwapElements(trivial, other.inlined, other.GetSize(), inlined, GetSize());
          } else {
            SwapElements(trivial, inlined, GetSize(), other.inlined, other.GetSize());
          }
        } else if IsAllocated() {
          HandOver(other);
        } else {
          other.HandOver(this);
        }
        sizeAndIsAllocated, other.sizeAndIsAllocated := other.sizeAndIsAllocated, sizeAndIsAllocated;
      }
    }

    /** The mixed half of Storage::Swap (lines 910-937), before the sizes are exchanged:
        `other`'s inlined elements move in here and this vector's block goes to `other`. */
    method HandOver(other: InlinedVector<T>)
      requires Valid() && other.Valid() && Apart(other) && IsAllocated() && !other.IsAllocated()
      modifies this`block, inlined, other`block, other.inlined
      ensures other.block == old(block)
      ensures inlined[..other.GetSize()] == old(other.Contents())
      ensures AllObjects(inlined, 0, other.GetSize()) && AllVacant(trivial, inlined, other.GetSize(), inlined.Length)
      ensures AllVacant(trivial, other.inlined, 0, other.inlined.Length)
    {
      var n := other.GetSize();
      MoveConstruct(trivial, inlined, 0, other.inlined, 0, n);
      DestroyElements(trivial, other.inlined, 0, n);
      other.block := block;
    }

    // ---- Single-pass input ---------------------------------------------------------

    lemma FirstGoesOver(done: seq<Slot<T>>, rest: seq<Slot<T>>)
      requires rest != []
      ensures (done + [rest[0]]) + rest[1..] == done + rest
    {}

    /** One turn of std::copy into a back_inserter. */
    method AppendNext(it: InputRange<T>)
      requires Valid() && it.rest != [] && Objects(it.rest)
      modifies Repr(), heap, it
      ensures Valid() && Objects(it.rest) && it.rest == old(it.rest[1..])
      ensures Shows() == Holding(old(Shows()), old(Contents() + [it.rest[0]]))
      ensures Rebooked(old(Owned()), Owned()) && fresh(Owned() - old(Owned()))
    {
      EmplaceBack(it.Current());
      it.Advance();
    }

    /** std::copy into a back_inserter. */
    method AppendInput(it: InputRange<T>)
      requires Valid() && Objects(it.rest)
      modifies Repr(), heap, it
      ensures Valid() && it.rest == [] && Contents() == old(Contents()) + old(it.rest)
      ensures Shows() == HoldingByOne(old(Shows()), old(Contents()) + old(it.rest))
      ensures Rebooked(old(Owned()), Owned()) && fresh(Owned() - old(Owned()))
    {
      ghost var before := Shows();
      while it.rest != []
        invariant Valid() && fresh(Owned() - old(Owned())) && Rebooked(old(Owned()), Owned())
        invariant Objects(it.rest) && Contents() + it.rest == old(Contents()) + old(it.rest)
        invariant Shows() == HoldingByOne(before, Contents())
        decreases |it.rest|
      {
        ghost var now, rest := Contents(), it.rest;
        OneMoreHeld(before, now, now + [rest[0]]);
        FirstGoesOver(now, rest);
        AppendNext(it);
        assert Contents() == now + [rest[0]];
      }
      assert Contents() + [] == Contents();
    }

    /** The first loop of `assign` from input iterators: overwrite while both last. */
    method OverwriteInput(it: InputRange<T>) returns (i: nat)
      requires Valid() && Objects(it.rest)
      modifies Data(), it
      ensures Valid() && Objects(it.rest) && i <= GetSize() && GetSize() == old(GetSize())
      ensures i == GetSize() || it.rest == []
      ensures old(it.rest) == Contents()[..i] + it.rest
    {
      i := 0;
      var data, size := Data(), GetSize();
      while i < size && it.rest != []
        invariant i <= size && Objects(it.rest) && AllObjects(data, 0, size)
        invariant AllVacant(trivial, data, size, data.Length)
        invariant IsAllocated() ==> AllVacant(trivial, inlined, 0, inlined.Length)
        invariant old(it.rest) == data[..i] + it.rest
        decreases |it.rest|
      {
        ghost var before, rest := data[..i], it.rest;
        FirstGoesOver(before, rest);
        AssignElements(data, i, [it.Current()]);
        it.Advance();
        assert data[..i + 1] == before + [rest[0]];
        i := i + 1;
      }
    }

    /** `assign` from input iterators: overwrite while both last, cut off what is left of
        the vector, append what is left of the input. */
    method AssignInput(it: InputRange<T>)
      requires Valid() && Objects(it.rest)
      modifies Repr(), heap, it
      ensures Valid() && it.rest == [] && Contents() == old(it.rest)
      ensures Shows() == HoldingByOne(old(Shows()), old(it.rest))
      ensures Rebooked(old(Owned()), Owned()) && fresh(Owned() - old(Owned()))
    {
      var i := OverwriteInput(it);
      Erase(i, GetSize());
      AppendInput(it);
    }

    lemma GapFilled(before: seq<Slot<T>>, taken: seq<Slot<T>>, next: Slot<T>, after: seq<Slot<T>>)
      ensures var s, i := before + taken + after, |before + taken|;
              s[..i] + [next] + s[i..] == before + (taken + [next]) + after
    {}

    /** One turn of `insert` from input iterators. */
    method InsertNext(i: nat, it: InputRange<T>)
      requires Valid() && i <= GetSize() && it.rest != [] && Objects(it.rest)
      modifies Repr(), heap, it
      ensures Valid() && Objects(it.rest) && it.rest == old(it.rest[1..])
      ensures Shows() == Holding(old(Shows()), old(Contents()[..i] + [it.rest[0]] + Contents()[i..]))
      ensures Rebooked(old(Owned()), Owned()) && fresh(Owned() - old(Owned()))
    {
      Insert(i, [it.Current()]);
      it.Advance();
    }

    /** `insert` from input iterators: one element at a time, at a position that moves with
        the data even when the block is replaced on the way. */
    method InsertInput(at: nat, it: InputRange<T>) returns (index: nat)
      requires Valid() && at <= GetSize() && Objects(it.rest)
      modifies Repr(), heap, it
      ensures Valid() && it.rest == [] && index == at
      ensures Contents() == old(Contents()[..at]) + old(it.rest) + old(Contents()[at..])
      ensures Shows() == HoldingByOne(old(Shows()), Contents())
      ensures Rebooked(old(Owned()), Owned()) && fresh(Owned() - old(Owned()))
    {
      index := at;
      var i := index;
      ghost var taken := [];
      ghost var before, front, back := Shows(), Contents()[..at], Contents()[at..];
      assert front + [] + back == Contents();
      while it.rest != []
        invariant Valid() && fresh(Owned() - old(Owned())) && Rebooked(old(Owned()), Owned())
        invariant i == |front + taken| && i <= GetSize()
        invariant Objects(it.rest) && old(it.rest) == taken + it.rest
        invariant Contents() == front + taken + back && Shows() == HoldingByOne(before, Contents())
        decreases |it.rest|
      {
        ghost var now, next, rest := Contents(), it.rest[0], it.rest;
        GapFilled(front, taken, next, back);
        OneMoreHeld(before, now, front + (taken + [next]) + back);
        FirstGoesOver(taken, rest);
        InsertNext(i, it);
        taken := taken + [next];
        i := i + 1;
        assert Contents() == front + taken + back;
      }
    }
  }
}
