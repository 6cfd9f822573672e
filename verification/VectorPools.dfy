// Any program over any number of InlinedVectors that share an allocator: who owns which
// heap block after every statement.
module VectorPools {
  import opened VectorElements
  import opened InlinedVectors

  datatype Command<T> =
    | Create(id: int)
    | CopyNew(id: int, src: int)
    | MoveNew(id: int, src: int)
    | CopyInto(id: int, src: int)
    | MoveInto(id: int, src: int)
    | SwapWith(id: int, src: int)
    | InsertAt(id: int, at: nat, vs: seq<Slot<T>>)
    | EmplaceBack(id: int, v: Slot<T>)
    | AssignInput(id: int, vs: seq<Slot<T>>)
    | InsertInput(id: int, at: nat, vs: seq<Slot<T>>)
    | EraseRange(id: int, from: nat, to: nat)
    | ClearAll(id: int)
    | Destroy(id: int)

  // ---- Statements on plain values --------------------------------------------------------

  ghost predicate Allowed<T>(c: Command<T>, view: map<int, Shown<T>>) {
    match c
    case Create(id) => id !in view
    case CopyNew(id, src) => id !in view && src in view
    case MoveNew(id, src) => id !in view && src in view
    case CopyInto(id, src) => id in view && src in view
    case MoveInto(id, src) => id in view && src in view
    case SwapWith(id, src) => id in view && src in view
    case InsertAt(id, at, vs) => id in view && at <= |view[id].elements| && Objects(vs)
    case EmplaceBack(id, v) => id in view && !v.Raw?
    case AssignInput(id, vs) => id in view && Objects(vs)
    case InsertInput(id, at, vs) => id in view && at <= |view[id].elements| && Objects(vs)
    case EraseRange(id, from, to) => id in view && from <= to <= |view[id].elements|
    case ClearAll(id) => id in view
    case Destroy(id) => id in view
  }

  /** What a vector that shows s shows after one that shows t was moved into it. */
  function Taking<T>(trivial: bool, s: Shown<T>, t: Shown<T>): Shown<T> {
    if trivial || t.onHeap then t else Holding(s, t.elements)
  }

  /** What the one that was moved from shows then. */
  function Left<T>(trivial: bool, t: Shown<T>, n: Room): Shown<T> {
    Shown(Leftover(trivial, t.onHeap, t.elements), n, false)
  }

  function Inserted<T>(s: Shown<T>, at: nat, vs: seq<Slot<T>>): seq<Slot<T>>
    requires at <= |s.elements|
  {
    s.elements[..at] + vs + s.elements[at..]
  }

  function Erased<T>(s: Shown<T>, from: nat, to: nat): seq<Slot<T>>
    requires from <= to <= |s.elements|
  {
    s.elements[..from] + s.elements[to..]
  }

  /** Statements that change one vector, or make it. */
  predicate ChangesOne<T>(c: Command<T>) {
    !c.MoveNew? && !c.MoveInto? && !c.SwapWith? && !c.Destroy?
  }

  /** What such a statement makes that vector show; n is the room inside each. */
  ghost function NewValue<T>(c: Command<T>, n: Room, before: map<int, Shown<T>>): Shown<T>
    requires Allowed(c, before) && ChangesOne(c)
  {
    match c
    case Create(id) => Shown([], n, false)
    case CopyNew(id, src) => CopyOf(before[src], n)
    case CopyInto(id, src) => Holding(before[id], before[src].elements)
    case InsertAt(id, at, vs) => Holding(before[id], Inserted(before[id], at, vs))
    case EmplaceBack(id, v) => Holding(before[id], before[id].elements + [v])
    case AssignInput(id, vs) => HoldingByOne(before[id], vs)
    case InsertInput(id, at, vs) => HoldingByOne(before[id], Inserted(before[id], at, vs))
    case EraseRange(id, from, to) => before[id].(elements := Erased(before[id], from, to))
    case ClearAll(id) => Shown([], n, false)
  }

  /** The statement's meaning, where the elements are of a trivial type or not. */
  ghost predicate Meaning<T>(c: Command<T>, n: Room, trivial: bool,
                             before: map<int, Shown<T>>, after: map<int, Shown<T>>)
    requires Allowed(c, before)
  {
    match c
    case MoveNew(id, src) => after == before[id := before[src]][src := Left(trivial, before[src], n)]
    case MoveInto(id, src) =>
      var taken := if id == src then before[id] else Taking(trivial, before[id], before[src]);
      after == before[src := Left(trivial, before[src], n)][id := taken]
    case SwapWith(id, src) => after == before[id := before[src]][src := before[id]]
    case Destroy(id) => after == before - {id}
    case _ => after == before[c.id := NewValue(c, n, before)]
  }

  lemma OneMeans<T>(c: Command<T>, n: Room, trivial: bool, before: map<int, Shown<T>>, after: map<int, Shown<T>>)
    requires Allowed(c, before) && ChangesOne(c) && after == before[c.id := NewValue(c, n, before)]
    ensures Meaning(c, n, trivial, before, after)
  {}

  lemma MoveNewMeans<T>(c: Command<T>, n: Room, trivial: bool, before: map<int, Shown<T>>, after: map<int, Shown<T>>)
    requires Allowed(c, before) && c.MoveNew?
    requires after == before[c.id := before[c.src]][c.src := Left(trivial, before[c.src], n)]
    ensures Meaning(c, n, trivial, before, after)
  {}

  lemma MoveIntoMeans<T>(c: Command<T>, n: Room, trivial: bool, before: map<int, Shown<T>>, after: map<int, Shown<T>>,
                         taken: Shown<T>)
    requires Allowed(c, before) && c.MoveInto?
    requires taken == if c.id == c.src then before[c.id] else Taking(trivial, before[c.id], before[c.src])
    requires after == before[c.src := Left(trivial, before[c.src], n)][c.id := taken]
    ensures Meaning(c, n, trivial, before, after)
  {}

  lemma SwapMeans<T>(c: Command<T>, n: Room, trivial: bool, before: map<int, Shown<T>>, after: map<int, Shown<T>>)
    requires Allowed(c, before) && c.SwapWith?
    requires after == before[c.id := before[c.src]][c.src := before[c.id]]
    ensures Meaning(c, n, trivial, before, after)
  {}

  /** A statement that is not allowed is skipped. */
  ghost predicate Step<T>(c: Command<T>, n: Room, trivial: bool,
                          before: map<int, Shown<T>>, after: map<int, Shown<T>>)
  {
    if Allowed(c, before) then Meaning(c, n, trivial, before, after) else after == before
  }

  /** The trace shows what each statement of the program did in turn. */
  ghost predicate Traces<T>(program: seq<Command<T>>, n: Room, trivial: bool, trace: seq<map<int, Shown<T>>>) {
    && |trace| == |program| + 1
    && forall k :: 0 <= k < |program| ==> Step(program[k], n, trivial, trace[k], trace[k + 1])
  }

  lemma TraceBegins<T>(n: Room, trivial: bool, s: map<int, Shown<T>>)
    ensures Traces([], n, trivial, [s])
  {}

  lemma TraceGoesOn<T>(program: seq<Command<T>>, n: Room, trivial: bool, trace: seq<map<int, Shown<T>>>,
                       c: Command<T>, s: map<int, Shown<T>>)
    requires Traces(program, n, trivial, trace) && |trace| == |program| + 1
    requires Step(c, n, trivial, trace[|program|], s)
    ensures Traces(program + [c], n, trivial, trace + [s]) && (trace + [s])[0] == trace[0]
  {}

  lemma OneChange<V>(m: map<int, V>, m': map<int, V>, id: int)
    requires id in m' && forall j :: j != id ==> (j in m' <==> j in m) && (j in m' ==> m'[j] == m[j])
    ensures m' == m[id := m'[id]]
  {
    var n := m[id := m'[id]];
    assert forall j :: j in m' <==> j in n;
    assert forall j :: j in m' ==> m'[j] == n[j];
  }

  lemma TwoChanges<V>(m: map<int, V>, m': map<int, V>, a: int, b: int)
    requires a in m' && b in m'
    requires forall j :: j != a && j != b ==> (j in m' <==> j in m) && (j in m' ==> m'[j] == m[j])
    ensures m' == m[a := m'[a]][b := m'[b]]
  {
    var n := m[a := m'[a]][b := m'[b]];
    assert forall j :: j in m' <==> j in n;
    assert forall j :: j in m' ==> m'[j] == n[j];
  }

  lemma SameUpdate<V>(m: map<int, V>, a: int, x: V, y: V, b: int, z: V)
    requires a == b || x == y
    ensures m[a := x][b := z] == m[a := y][b := z]
  {}

  lemma OtherOrder<V>(m: map<int, V>, a: int, x: V, b: int, y: V)
    requires a != b
    ensures m[a := x][b := y] == m[b := y][a := x]
  {}

  lemma OneGone<V>(m: map<int, V>, m': map<int, V>, id: int)
    requires id !in m' && forall j :: j != id ==> (j in m' <==> j in m) && (j in m' ==> m'[j] == m[j])
    ensures m' == m - {id}
  {
    var n := m - {id};
    assert forall j :: j in m' <==> j in n;
    assert forall j :: j in m' ==> m'[j] == n[j];
  }

  class Pool<T> {
    const heap: Heap<T>
    const capacity: Room
    const trivial: bool
    var vectors: map<int, InlinedVector<T>>

    ghost predicate Members() reads this, vectors.Values {
      forall i :: i in vectors ==>
        var v := vectors[i];
        v.heap == heap && v.trivial == trivial && v.inlined.Length == capacity && v.Owning()
    }

    ghost function Footprint(): set<object>
      requires Members()
      reads this, vectors.Values
    {
      {this, heap} + set i, o | i in vectors.Keys && o in vectors[i].Repr() :: o
    }

    ghost function OwnedBy(ids: set<int>): set<array<Slot<T>>>
      requires Members()
      reads this, vectors.Values
    {
      set i, b | i in ids && i in vectors && b in vectors[i].Owned() :: b
    }

    /** Every vector is sound, no two share anything, and the blocks the allocator has out
        are exactly the blocks the vectors own. */
    ghost predicate Valid() reads * {
      && heap.Valid() && Members()
      && (forall i :: i in vectors ==> vectors[i].Valid())
      && (forall i, j :: i in vectors && j in vectors && i != j ==> vectors[i].Apart(vectors[j]))
      && heap.live == OwnedBy(vectors.Keys)
    }

    constructor (capacity: Room, trivial: bool)
      ensures Valid() && fresh(Footprint()) && vectors == map[]
    {
      this.capacity, this.trivial := capacity, trivial;
      heap := new Heap<T>();
      vectors := map[];
    }

    // ---- What a statement about some vectors leaves alone ------------------------------

    twostate predicate Untouched(v: InlinedVector<T>)
      reads *
    {
      unchanged(v) && unchanged(v.inlined) && (old(v.Owning()) ==> unchanged(old(v.Data())))
    }

    /** Only vectors named in `ids` were touched, made or destroyed, and the blocks they
        owned were exchanged for the blocks they own, any further ones being new. */
    twostate predicate Only(ids: set<int>)
      requires Members() && old(Members())
      reads *
    {
      && (forall j :: j !in ids ==> (j in vectors <==> j in old(vectors)))
      && (forall j :: j in vectors && j !in ids ==> vectors[j] == old(vectors)[j] && Untouched(old(vectors)[j]))
      && (forall j :: j in vectors && j in ids ==> Kept(j))
      && heap.live == old(heap.live) - old(OwnedBy(ids)) + OwnedBy(ids)
      && fresh(OwnedBy(ids) - old(OwnedBy(ids)))
    }

    /** The vector is the one it was, or a new one. */
    twostate predicate Kept(j: int)
      requires j in vectors
      reads this, vectors[j]
    {
      if j in old(vectors) && vectors[j] == old(vectors)[j] then true
      else fresh(vectors[j]) && fresh(vectors[j].inlined)
    }

    /** The vectors that were touched are sound and share nothing with each other. */
    ghost predicate Sound(ids: set<int>)
      reads *
    {
      && heap.Valid() && Members()
      && (forall i :: i in ids && i in vectors ==> vectors[i].Valid())
      && (forall i, j :: i in ids && j in ids && i in vectors && j in vectors && i != j ==>
            vectors[i].Apart(vectors[j]))
    }

    /** All other vectors are still there, the same ones, and show what they showed. */
    twostate predicate OthersSame(ids: set<int>)
      requires old(Valid()) && Valid()
      reads *
    {
      && (forall j :: j !in ids ==> (j in vectors <==> j in old(vectors)))
      && (forall j :: j in vectors && j !in ids ==>
            vectors[j] == old(vectors)[j] && vectors[j].Shows() == old(vectors[j].Shows()))
    }

    twostate lemma OtherStaysValid(ids: set<int>, new j: int)
      requires old(Valid()) && Sound(ids) && Only(ids) && j in vectors && j !in ids
      ensures j in old(vectors) && vectors[j].Valid() && vectors[j].Shows() == old(vectors[j].Shows())
    {
      var u := vectors[j];
      assert Untouched(u);
      assert old(u.Valid());
      assert u.Owned() == old(u.Owned()) && u.Data() == old(u.Data());
      assert u.Owned() !! old(OwnedBy(ids)) by {
        assert forall i :: i in old(vectors) && i in ids ==> old(vectors[i].Apart(u));
      }
    }

    twostate lemma OtherStaysApart(ids: set<int>, new i: int, new j: int)
      requires old(Valid()) && Sound(ids) && Only(ids) && j in vectors && j !in ids && i in vectors && i in ids
      ensures vectors[j].Apart(vectors[i]) && vectors[i].Apart(vectors[j])
    {
      var u, v := vectors[j], vectors[i];
      OtherStaysValid(ids, j);
      assert Untouched(u) && Kept(i);
      assert u.Owned() == old(u.Owned()) && u.Data() == old(u.Data()) && u.inlined !in heap.live;
      assert v.Owned() <= OwnedBy(ids);
      assert u.Owned() !! old(OwnedBy(ids)) by {
        assert forall k :: k in old(vectors) && k in ids ==> old(vectors[k].Apart(u));
      }
      if i in old(vectors) && v == old(vectors)[i] {
        assert old(v.Apart(u));
      }
    }

    twostate lemma OthersStayApart(ids: set<int>, new i: int, new j: int)
      requires old(Valid()) && Sound(ids) && Only(ids)
      requires j in vectors && j !in ids && i in vectors && i !in ids && i != j
      ensures vectors[i].Apart(vectors[j])
    {
      assert Untouched(vectors[i]) && Untouched(vectors[j]);
      assert old(vectors[i].Apart(vectors[j]));
    }

    twostate lemma BooksStayExact(ids: set<int>)
      requires old(Valid()) && Sound(ids) && Only(ids)
      ensures heap.live == OwnedBy(vectors.Keys)
    {
      forall b ensures b in heap.live <==> b in OwnedBy(vectors.Keys) {
        if b in old(heap.live) && b !in old(OwnedBy(ids)) {
          var i :| i in old(vectors) && b in old(vectors[i].Owned());
          assert i !in ids && Untouched(old(vectors)[i]);
          assert b in vectors[i].Owned();
        }
        if i :| i in vectors && b in vectors[i].Owned() {
          if i !in ids {
            OtherStaysValid(ids, i);
          }
        }
      }
    }

    twostate lemma PartOfFootprint(new i: int, new o: object)
      requires old(Members()) && i in old(vectors) && old(allocated(o)) && o in old(vectors[i].Repr())
      ensures o in old(Footprint())
    {}

    twostate lemma BlockOfFootprint(ids: set<int>, new b: array<Slot<T>>)
      requires old(Members()) && old(allocated(b)) && b in old(OwnedBy(ids))
      ensures b in old(Footprint())
    {
      var k :| k in ids && k in old(vectors) && b in old(vectors[k].Owned());
      PartOfFootprint(k, b);
    }

    twostate lemma FootprintGrows(ids: set<int>)
      requires old(Valid()) && Sound(ids) && Only(ids)
      ensures fresh(Footprint() - old(Footprint()))
    {
      forall i, o | i in vectors && o in vectors[i].Repr() ensures fresh(o) || o in old(Footprint()) {
        if !fresh(o) {
          if i !in ids {
            OwnsTheSame(vectors[i]);
            PartOfFootprint(i, o);
          } else if o in vectors[i].Owned() {
            assert o in OwnedBy(ids);
            BlockOfFootprint(ids, o);
          } else {
            assert Kept(i);
            PartOfFootprint(i, o);
          }
        }
      }
    }

    /** A statement that touches only the named vectors, and leaves those sound, leaves the
        whole pool sound, and every other vector showing what it showed. */
    twostate lemma PoolStaysValid(ids: set<int>)
      requires old(Valid()) && Sound(ids) && Only(ids)
      ensures Valid() && fresh(Footprint() - old(Footprint()))
      ensures OthersSame(ids)
    {
      forall j | j in vectors && j !in ids
        ensures vectors[j].Valid() && j in old(vectors) && vectors[j].Shows() == old(vectors[j].Shows())
      {
        OtherStaysValid(ids, j);
      }
      forall i, j | i in vectors && j in vectors && i != j ensures vectors[i].Apart(vectors[j]) {
        if j !in ids {
          if i in ids {
            OtherStaysApart(ids, i, j);
          } else {
            OthersStayApart(ids, i, j);
          }
        } else if i !in ids {
          OtherStaysApart(ids, j, i);
        }
      }
      BooksStayExact(ids);
      FootprintGrows(ids);
    }

    twostate lemma OwnsTheSame(v: InlinedVector<T>)
      requires old(v.Owning()) && Untouched(v)
      ensures v.Owning() && v.Owned() == old(v.Owned()) && v.Data() == old(v.Data())
    {}

    twostate lemma MembersStay(ids: set<int>)
      requires old(Members()) && vectors == old(vectors)
      requires forall i :: i in ids && i in vectors ==> vectors[i].Owning()
      requires forall j :: j in vectors && j !in ids ==> Untouched(vectors[j])
      ensures Members()
    {
      forall j | j in vectors ensures vectors[j].Owning() {
        if j !in ids {
          OwnsTheSame(vectors[j]);
        }
      }
    }

    /** A statement on one vector. */
    twostate lemma OneStatement(id: int)
      requires old(Valid()) && vectors == old(vectors) && id in vectors
      requires vectors[id].Valid()
      requires forall j :: j in vectors && j != id ==> Untouched(vectors[j])
      requires heap.live == old(heap.live) - old(vectors[id].Owned()) + vectors[id].Owned()
      requires fresh(vectors[id].Owned() - old(vectors[id].Owned()))
      ensures Valid() && fresh(Footprint() - old(Footprint()))
      ensures OthersSame({id})
    {
      MembersStay({id});
      assert heap.Valid();
      hide InlinedVector.Valid, InlinedVector.Apart, Untouched;
      assert OwnedBy({id}) == vectors[id].Owned();
      assert old(OwnedBy({id})) == old(vectors[id].Owned());
      PoolStaysValid({id});
    }

    lemma OwnedByPair(id: int, src: int)
      requires Members() && id in vectors && src in vectors
      ensures OwnedBy({id, src}) == vectors[id].Owned() + vectors[src].Owned()
    {}

    lemma SoundPair(id: int, src: int)
      requires Members() && id in vectors && src in vectors && vectors[id].Valid() && vectors[src].Valid()
      requires vectors[id].Apart(vectors[src]) && vectors[src].Apart(vectors[id])
      ensures Sound({id, src})
    {
      assert heap.Valid();
      hide InlinedVector.Valid, InlinedVector.Apart;
    }

    twostate lemma OnlyPair(id: int, new src: int)
      requires old(Members()) && Members() && vectors == old(vectors) && id in vectors && src in vectors
      requires forall j :: j in vectors && j != id && j != src ==> Untouched(vectors[j])
      requires heap.live == old(heap.live) - old(OwnedBy({id, src})) + OwnedBy({id, src})
      requires fresh(OwnedBy({id, src}) - old(OwnedBy({id, src})))
      ensures Only({id, src})
    {
      hide Untouched, OwnedBy, Members;
    }

    twostate lemma OwnedByPairBefore(id: int, new src: int)
      requires old(Members()) && old(id in vectors && src in vectors)
      ensures old(OwnedBy({id, src})) == old(vectors[id].Owned() + vectors[src].Owned())
    {}

    twostate lemma PairMembers(id: int, new src: int)
      requires old(Valid()) && vectors == old(vectors) && id in vectors && src in vectors
      requires vectors[id].Valid() && vectors[src].Valid() && vectors[id].Apart(vectors[src])
      requires forall j :: j in vectors && j != id && j != src ==> Untouched(vectors[j])
      ensures old(Members()) && old(OwnedBy({id, src})) == old(vectors[id].Owned() + vectors[src].Owned())
      ensures Members() && heap.Valid() && vectors[src].Apart(vectors[id])
    {
      OwnedByPairBefore(id, src);
      hide OwnedBy, Untouched;
      MembersStay({id, src});
    }

    /** A statement on two vectors. */
    twostate lemma TwoStatement(id: int, new src: int)
      requires old(Valid()) && vectors == old(vectors) && id in vectors && src in vectors && id != src
      requires vectors[id].Valid() && vectors[src].Valid()
      requires vectors[id].Apart(vectors[src])
      requires forall j :: j in vectors && j != id && j != src ==> Untouched(vectors[j])
      requires heap.live == old(heap.live) - old(vectors[id].Owned() + vectors[src].Owned())
                              + (vectors[id].Owned() + vectors[src].Owned())
      requires fresh(vectors[id].Owned() + vectors[src].Owned() - old(vectors[id].Owned() + vectors[src].Owned()))
      ensures Valid() && fresh(Footprint() - old(Footprint()))
      ensures OthersSame({id, src})
    {
      hide InlinedVector.Valid, InlinedVector.Apart, Untouched, Members, OwnedBy, Heap.Valid, Valid;
      PairMembers(id, src);
      OwnedByPair(id, src);
      SoundPair(id, src);
      OnlyPair(id, src);
      PoolStaysValid({id, src});
    }

    /** A statement that makes a vector from nothing. */
    twostate lemma MakingStatement(id: int)
      requires old(Valid()) && id in vectors && vectors[id].Valid() && id !in old(vectors)
      requires vectors == old(vectors)[id := vectors[id]] && fresh(vectors[id]) && fresh(vectors[id].inlined)
      requires vectors[id].heap == heap && vectors[id].trivial == trivial && vectors[id].inlined.Length == capacity
      requires forall j :: j in old(vectors) ==> Untouched(old(vectors)[j])
      requires heap.live == old(heap.live) + vectors[id].Owned() && fresh(vectors[id].Owned())
      ensures Valid() && fresh(Footprint() - old(Footprint()))
      ensures OthersSame({id})
    {
      assert vectors - {id} == old(vectors) - {id};
      SameElsewhere(id);
      forall j | j in vectors ensures vectors[j].Owning() {
        if j != id {
          assert Untouched(vectors[j]) && old(vectors[j].Valid());
        }
      }
      assert Members();
      assert OwnedBy({id}) == vectors[id].Owned();
      assert old(OwnedBy({id})) == {};
      PoolStaysValid({id});
    }

    twostate lemma SameElsewhere(id: int)
      requires vectors - {id} == old(vectors) - {id}
      ensures forall j :: j != id ==> (j in vectors <==> j in old(vectors))
      ensures forall j :: j != id && j in vectors ==> vectors[j] == old(vectors)[j]
    {
      forall j | j != id
        ensures (j in vectors <==> j in old(vectors)) && (j in vectors ==> vectors[j] == old(vectors)[j])
      {
        assert j in vectors <==> j in vectors - {id};
        assert j in old(vectors) <==> j in old(vectors) - {id};
        if j in vectors {
          assert vectors[j] == (vectors - {id})[j];
        }
      }
    }

    /** A statement that makes a vector out of another one's elements. */
    twostate lemma TakingStatement(id: int, new src: int)
      requires old(Valid()) && id in vectors && src in vectors && id !in old(vectors)
      requires vectors == old(vectors)[id := vectors[id]] && fresh(vectors[id]) && fresh(vectors[id].inlined)
      requires vectors[id].Valid() && vectors[src].Valid() && vectors[id].Apart(vectors[src])
      requires forall j :: j in old(vectors) && j != src ==> Untouched(old(vectors)[j])
      requires old(src in vectors) && heap.live == old(heap.live)
      requires vectors[id].Owned() + vectors[src].Owned() == old(vectors[src].Owned())
      ensures Valid() && fresh(Footprint() - old(Footprint()))
      ensures OthersSame({id, src})
    {
      assert vectors - {id} == old(vectors) - {id};
      SameElsewhere(id);
      MadeFromMember(id, src);
      hide InlinedVector.Valid, InlinedVector.Apart, Untouched, Members, OwnedBy, Heap.Valid, Valid;
      OwnedByPair(id, src);
      SoundPair(id, src);
      OnlyTaken(id, src);
      PoolStaysValid({id, src});
    }

    twostate lemma OnlyTaken(id: int, new src: int)
      requires old(Members()) && Members() && id in vectors && src in vectors && src in old(vectors)
      requires forall j :: j != id ==> (j in vectors <==> j in old(vectors))
      requires forall j :: j != id && j in vectors ==> vectors[j] == old(vectors)[j]
      requires fresh(vectors[id]) && fresh(vectors[id].inlined)
      requires forall j :: j in old(vectors) && j != src ==> Untouched(old(vectors)[j])
      requires heap.live == old(heap.live) && OwnedBy({id, src}) == old(OwnedBy({id, src})) <= heap.live
      ensures Only({id, src})
    {
      hide Untouched, OwnedBy, Members;
    }

    twostate lemma MadeFromMember(id: int, new src: int)
      requires old(Valid()) && id in vectors && src in vectors && id !in old(vectors) && src in old(vectors)
      requires forall j :: j != id ==> (j in vectors <==> j in old(vectors))
      requires forall j :: j != id && j in vectors ==> vectors[j] == old(vectors)[j]
      requires vectors[id].Valid() && vectors[src].Valid() && vectors[id].Apart(vectors[src])
      requires forall j :: j in old(vectors) && j != src ==> Untouched(old(vectors)[j])
      ensures old(Members()) && old(OwnedBy({id, src})) == old(vectors[src].Owned()) <= old(heap.live)
      ensures Members() && heap.Valid() && vectors[src].Apart(vectors[id])
    {
      forall j | j in vectors ensures vectors[j].Owning() {
        if j != id && j != src {
          OwnsTheSame(vectors[j]);
        }
      }
    }

    /** A statement that ends a vector. */
    twostate lemma EndingStatement(id: int)
      requires old(Valid()) && id in old(vectors) && vectors == old(vectors) - {id} && heap.Valid()
      requires forall j :: j in vectors ==> Untouched(vectors[j])
      requires heap.live == old(heap.live) - old(vectors[id].Owned())
      ensures Valid() && fresh(Footprint() - old(Footprint()))
      ensures OthersSame({id})
    {
      forall j | j in vectors ensures vectors[j].Owning() {
        OwnsTheSame(vectors[j]);
      }
      assert Members();
      assert OwnedBy({id}) == {};
      assert old(OwnedBy({id})) == old(vectors[id].Owned());
      PoolStaysValid({id});
    }

    // ---- The statements ----------------------------------------------------------------

    /** A statement on one vector may touch nothing another one uses. */
    lemma Separate(id: int, j: int)
      requires Valid() && id in vectors && j in vectors && j != id
      ensures {vectors[j], vectors[j].inlined, vectors[j].Data()} !! vectors[id].Repr() + {heap}
    {
      assert vectors[j].Apart(vectors[id]);
    }

    lemma SeparateAll(id: int)
      requires Valid() && id in vectors
      ensures forall j :: j in vectors && j != id ==>
                {vectors[j], vectors[j].inlined, vectors[j].Data()} !! vectors[id].Repr() + {heap}
    {
      forall j | j in vectors && j != id
        ensures {vectors[j], vectors[j].inlined, vectors[j].Data()} !! vectors[id].Repr() + {heap}
      {
        Separate(id, j);
      }
    }

    lemma SeparatePair(id: int, src: int)
      requires Valid() && id in vectors && src in vectors && id != src
      ensures vectors[id].Valid() && vectors[src].Valid() && vectors[id].Apart(vectors[src])
      ensures forall j :: j in vectors && j != id && j != src ==>
                {vectors[j], vectors[j].inlined, vectors[j].Data()} !! vectors[id].Repr() + vectors[src].Repr() + {heap}
    {
      SeparateAll(id);
      SeparateAll(src);
    }

    method Clear(id: int)
      requires Valid() && id in vectors
      modifies vectors[id].Repr(), heap
      ensures Valid() && fresh(Footprint() - old(Footprint())) && heap.NothingLost()
      ensures vectors == old(vectors) && vectors[id].Shows() == Shown([], capacity, false)
      ensures OthersSame({id})
    {
      SeparateAll(id);
      assert vectors[id].Valid();
      hide Valid, Members, OwnedBy, Footprint, View, InlinedVector.Apart, Heap.Valid, OthersSame;
      vectors[id].Clear();
      assert forall j :: j in vectors && j != id ==> Untouched(vectors[j]);
      OneStatement(id);
    }

    method InsertSome(id: int, at: nat, vs: seq<Slot<T>>)
      requires Valid() && id in vectors && at <= vectors[id].GetSize() && Objects(vs) && |vs| > 0
      modifies vectors[id].Repr(), heap
      ensures Valid() && fresh(Footprint() - old(Footprint())) && heap.NothingLost()
      ensures vectors == old(vectors)
      ensures vectors[id].Shows() == old(Holding(vectors[id].Shows(), Inserted(vectors[id].Shows(), at, vs)))
      ensures OthersSame({id})
    {
      SeparateAll(id);
      assert vectors[id].Valid();
      hide Valid, Members, OwnedBy, Footprint, View, InlinedVector.Apart, Heap.Valid, OthersSame, Holding;
      vectors[id].Insert(at, vs);
      assert forall j :: j in vectors && j != id ==> Untouched(vectors[j]);
      OneStatement(id);
    }

    method InsertAt(id: int, at: nat, vs: seq<Slot<T>>)
      requires Valid() && id in vectors && at <= vectors[id].GetSize() && Objects(vs)
      modifies vectors[id].Repr(), heap
      ensures Valid() && fresh(Footprint() - old(Footprint())) && heap.NothingLost()
      ensures vectors == old(vectors)
      ensures vectors[id].Shows() == old(Holding(vectors[id].Shows(), Inserted(vectors[id].Shows(), at, vs)))
      ensures OthersSame({id})
    {
      if vs != [] {
        InsertSome(id, at, vs);
      } else {
        assert vectors[id].Contents() == vectors[id].Contents()[..at] + vs + vectors[id].Contents()[at..];
      }
    }

    method EmplaceBack(id: int, v: Slot<T>)
      requires Valid() && id in vectors && !v.Raw?
      modifies vectors[id].Repr(), heap
      ensures Valid() && fresh(Footprint() - old(Footprint())) && heap.NothingLost()
      ensures vectors == old(vectors)
      ensures vectors[id].Shows() == old(Holding(vectors[id].Shows(), vectors[id].Contents() + [v]))
      ensures OthersSame({id})
    {
      SeparateAll(id);
      assert vectors[id].Valid();
      hide Valid, Members, OwnedBy, Footprint, View, InlinedVector.Apart, Heap.Valid, OthersSame;
      vectors[id].EmplaceBack(v);
      assert forall j :: j in vectors && j != id ==> Untouched(vectors[j]);
      OneStatement(id);
    }

    method AssignInput(id: int, vs: seq<Slot<T>>)
      requires Valid() && id in vectors && Objects(vs)
      modifies vectors[id].Repr(), heap
      ensures Valid() && fresh(Footprint() - old(Footprint())) && heap.NothingLost()
      ensures vectors == old(vectors)
      ensures vectors[id].Shows() == old(HoldingByOne(vectors[id].Shows(), vs))
      ensures OthersSame({id})
    {
      SeparateAll(id);
      assert vectors[id].Valid();
      hide Valid, Members, OwnedBy, Footprint, View, InlinedVector.Apart, Heap.Valid, OthersSame, HoldingByOne;
      var it := new InputRange(vs);
      vectors[id].AssignInput(it);
      assert forall j :: j in vectors && j != id ==> Untouched(vectors[j]);
      OneStatement(id);
    }

    method InsertInput(id: int, at: nat, vs: seq<Slot<T>>)
      requires Valid() && id in vectors && at <= vectors[id].GetSize() && Objects(vs)
      modifies vectors[id].Repr(), heap
      ensures Valid() && fresh(Footprint() - old(Footprint())) && heap.NothingLost()
      ensures vectors == old(vectors)
      ensures vectors[id].Shows() == old(HoldingByOne(vectors[id].Shows(), Inserted(vectors[id].Shows(), at, vs)))
      ensures OthersSame({id})
    {
      SeparateAll(id);
      assert vectors[id].Valid();
      hide Valid, Members, OwnedBy, Footprint, View, InlinedVector.Apart, Heap.Valid, OthersSame, HoldingByOne;
      var it := new InputRange(vs);
      var index := vectors[id].InsertInput(at, it);
      assert forall j :: j in vectors && j != id ==> Untouched(vectors[j]);
      OneStatement(id);
    }

    method EraseRange(id: int, from: nat, to: nat)
      requires Valid() && id in vectors && from <= to <= vectors[id].GetSize()
      modifies vectors[id].Repr(), heap
      ensures Valid() && fresh(Footprint() - old(Footprint())) && heap.NothingLost()
      ensures vectors == old(vectors)
      ensures vectors[id].Shows() == old(vectors[id].Shows().(elements := Erased(vectors[id].Shows(), from, to)))
      ensures OthersSame({id})
    {
      SeparateAll(id);
      assert vectors[id].Valid();
      hide Valid, Members, OwnedBy, Footprint, View, InlinedVector.Apart, Heap.Valid, OthersSame;
      vectors[id].Erase(from, to);
      assert forall j :: j in vectors && j != id ==> Untouched(vectors[j]);
      OneStatement(id);
    }

    /** Assignment of values that are read before anything is overwritten. */
    method AssignValues(id: int, vs: seq<Slot<T>>)
      requires Valid() && id in vectors && Objects(vs)
      modifies vectors[id].Repr(), heap
      ensures Valid() && fresh(Footprint() - old(Footprint())) && heap.NothingLost()
      ensures vectors == old(vectors)
      ensures vectors[id].Shows() == old(Holding(vectors[id].Shows(), vs))
      ensures OthersSame({id})
    {
      SeparateAll(id);
      assert vectors[id].Valid();
      hide Valid, Members, OwnedBy, Footprint, View, InlinedVector.Apart, Heap.Valid, OthersSame;
      vectors[id].Assign(vs);
      assert forall j :: j in vectors && j != id ==> Untouched(vectors[j]);
      OneStatement(id);
    }

    method CopyInto(id: int, src: int)
      requires Valid() && id in vectors && src in vectors
      modifies vectors[id].Repr(), heap
      ensures Valid() && fresh(Footprint() - old(Footprint())) && heap.NothingLost()
      ensures vectors == old(vectors)
      ensures vectors[id].Shows() == old(Holding(vectors[id].Shows(), vectors[src].Contents()))
      ensures OthersSame({id})
    {
      assert vectors[id].Valid() && vectors[src].Valid();
      if id != src {
        AssignValues(id, vectors[src].Data()[..vectors[src].GetSize()]);
      }
    }

    method MoveInto(id: int, src: int)
      requires Valid() && id in vectors && src in vectors
      modifies vectors[id].Repr(), vectors[src].Repr(), heap
      ensures Valid() && fresh(Footprint() - old(Footprint())) && heap.NothingLost()
      ensures vectors == old(vectors)
      ensures vectors[id].Shows() ==
              if id == src then old(vectors[id].Shows())
              else old(Taking(trivial, vectors[id].Shows(), vectors[src].Shows()))
      ensures id != src ==> vectors[src].Shows() == old(Left(trivial, vectors[src].Shows(), capacity))
      ensures OthersSame({id, src})
    {
      if id != src {
        SeparatePair(id, src);
        hide InlinedVector.Apart, Leftover;
        vectors[id].MoveAssign(vectors[src]);
        assert forall j :: j in vectors && j != id && j != src ==> Untouched(vectors[j]);
        TwoStatement(id, src);
      }
    }

    method SwapWith(id: int, src: int)
      requires Valid() && id in vectors && src in vectors
      modifies vectors[id].Repr(), vectors[src].Repr()
      ensures Valid() && fresh(Footprint() - old(Footprint())) && heap.NothingLost()
      ensures vectors == old(vectors)
      ensures vectors[id].Shows() == old(vectors[src].Shows())
      ensures vectors[src].Shows() == old(vectors[id].Shows())
      ensures OthersSame({id, src})
    {
      if id != src {
        SeparatePair(id, src);
        hide Valid, Members, OwnedBy, Footprint, View, Heap.Valid, OthersSame;
        vectors[id].Swap(vectors[src]);
        assert forall j :: j in vectors && j != id && j != src ==> Untouched(vectors[j]);
        TwoStatement(id, src);
      }
    }

    method Create(id: int)
      requires Valid() && id !in vectors
      modifies this
      ensures Valid() && fresh(Footprint() - old(Footprint())) && heap.NothingLost()
      ensures id in vectors && vectors[id].Shows() == Shown([], capacity, false)
      ensures fresh(vectors[id].Repr())
      ensures OthersSame({id})
    {
      hide OthersSame;
      var v := new InlinedVector<T>(heap, capacity, trivial);
      vectors := vectors[id := v];
      MakingStatement(id);
    }

    method CopyNew(id: int, src: int)
      requires Valid() && id !in vectors && src in vectors
      modifies this, heap
      ensures Valid() && fresh(Footprint() - old(Footprint())) && heap.NothingLost()
      ensures id in vectors && vectors[id].Shows() == old(CopyOf(vectors[src].Shows(), capacity))
      ensures OthersSame({id})
    {
      hide OthersSame, CopyOf;
      assert vectors[src].Valid() && vectors[src].Owning();
      hide Valid, Members, OwnedBy, Footprint, View, Heap.Valid;
      var v := new InlinedVector<T>.Copy(vectors[src]);
      hide InlinedVector.Valid, InlinedVector.Apart;
      vectors := vectors[id := v];
      assert forall j :: j in old(vectors) ==> Untouched(old(vectors)[j]);
      MakingStatement(id);
    }

    method MoveNew(id: int, src: int)
      requires Valid() && id !in vectors && src in vectors
      modifies this, vectors[src].Repr()
      ensures Valid() && fresh(Footprint() - old(Footprint())) && heap.NothingLost()
      ensures id in vectors && src in vectors && vectors[id].Shows() == old(vectors[src].Shows())
      ensures vectors[src].Shows() == old(Left(trivial, vectors[src].Shows(), capacity))
      ensures OthersSame({id, src})
    {
      hide OthersSame, Leftover, View, Footprint;
      SeparateAll(src);
      assert vectors[src].Valid();
      hide Valid, Members, OwnedBy, Heap.Valid;
      var v := new InlinedVector<T>.Move(vectors[src]);
      hide InlinedVector.Valid, InlinedVector.Apart, Heap.Valid, Valid, Members, OwnedBy;
      vectors := vectors[id := v];
      assert forall j :: j in old(vectors) && j != src ==> Untouched(old(vectors)[j]);
      TakingStatement(id, src);
    }

    /** Clearing a vector, in terms of what it leaves alone. */
    method EndElements(id: int)
      requires Valid() && id in vectors
      modifies vectors[id].Repr(), heap
      ensures heap.Valid() && heap.NothingLost() && heap.live == old(heap.live) - old(vectors[id].Owned())
      ensures forall j :: j in vectors && j != id ==> Untouched(vectors[j])
    {
      SeparateAll(id);
      assert vectors[id].Valid();
      hide Valid, Members, OwnedBy, Footprint, View, InlinedVector.Apart, Heap.Valid, OthersSame;
      vectors[id].Clear();
    }

    /** ~InlinedVector, which ends the elements and gives the block back as `clear` does. */
    method Destroy(id: int)
      requires Valid() && id in vectors
      modifies this, vectors[id].Repr(), heap
      ensures Valid() && fresh(Footprint() - old(Footprint())) && heap.NothingLost()
      ensures id !in vectors
      ensures OthersSame({id})
    {
      assert Members();
      hide Valid, Members, OwnedBy, Footprint, View, InlinedVector.Valid, Heap.Valid, Heap.NothingLost, OthersSame;
      EndElements(id);
      vectors := vectors - {id};
      assert forall j :: j in vectors ==> Untouched(vectors[j]);
      EndingStatement(id);
    }

    // ---- What the pool shows -----------------------------------------------------------

    /** What a program can see of the pool. */
    ghost function View(): map<int, Shown<T>>
      requires Valid()
      reads *
    {
      map j | j in vectors :: vectors[j].Shows()
    }

    lemma Seen()
      requires Valid()
      ensures View().Keys == vectors.Keys
      ensures forall j :: j in vectors ==> View()[j] == vectors[j].Shows()
    {}

    twostate lemma ShowsOne(id: int, new x: Shown<T>)
      requires old(Valid()) && Valid() && id in vectors && OthersSame({id}) && vectors[id].Shows() == x
      ensures View() == old(View())[id := x]
    {
      hide View, Valid, InlinedVector.Shows;
      ShowsOthers({id});
      Seen();
      hide OthersSame;
      OneChange(old(View()), View(), id);
    }

    twostate lemma ShowsTwo(id: int, new x: Shown<T>, new src: int, new y: Shown<T>)
      requires old(Valid()) && Valid() && id in vectors && src in vectors && OthersSame({id, src})
      requires vectors[id].Shows() == x && vectors[src].Shows() == y
      ensures View() == old(View())[id := x][src := y]
    {
      hide View, Valid, InlinedVector.Shows;
      ShowsOthers({id, src});
      Seen();
      hide OthersSame;
      TwoChanges(old(View()), View(), id, src);
    }

    /** After a move to itself a vector shows what it showed, not what a move leaves. */
    twostate lemma ShowsMoved(id: int, new x: Shown<T>, new src: int, new left: Shown<T>)
      requires old(Valid()) && Valid() && id in vectors && src in vectors && OthersSame({id, src})
      requires vectors[id].Shows() == x && (id != src ==> vectors[src].Shows() == left)
      ensures View() == old(View())[src := left][id := x]
    {
      hide View, Valid, OthersSame, InlinedVector.Shows;
      if id == src {
        ShowsTwo(id, x, id, x);
        SameUpdate(old(View()), id, x, left, id, x);
      } else {
        ShowsTwo(id, x, src, left);
        OtherOrder(old(View()), id, x, src, left);
      }
    }

    twostate lemma ShowsFewer(id: int)
      requires old(Valid()) && Valid() && id !in vectors && OthersSame({id})
      ensures View() == old(View()) - {id}
    {
      hide View, Valid, InlinedVector.Shows;
      ShowsOthers({id});
      Seen();
      hide OthersSame;
      OneGone(old(View()), View(), id);
    }

    twostate lemma ShowsOthers(ids: set<int>)
      requires old(Valid()) && Valid() && OthersSame(ids)
      ensures forall j :: j !in ids ==>
                (j in View() <==> j in old(View())) && (j in View() ==> View()[j] == old(View())[j])
    {
      hide InlinedVector.Shows;
    }

    // ---- Programs ----------------------------------------------------------------------

    /** The statement is one a program may execute here: the vectors it reads exist, the
        one it makes does not, and positions are inside. */
    predicate Legal(c: Command<T>)
      reads this, vectors.Values
    {
      match c
      case Create(id) => id !in vectors
      case CopyNew(id, src) => id !in vectors && src in vectors
      case MoveNew(id, src) => id !in vectors && src in vectors
      case CopyInto(id, src) => id in vectors && src in vectors
      case MoveInto(id, src) => id in vectors && src in vectors
      case SwapWith(id, src) => id in vectors && src in vectors
      case InsertAt(id, at, vs) => id in vectors && at <= vectors[id].GetSize() && Objects(vs)
      case EmplaceBack(id, v) => id in vectors && !v.Raw?
      case AssignInput(id, vs) => id in vectors && Objects(vs)
      case InsertInput(id, at, vs) => id in vectors && at <= vectors[id].GetSize() && Objects(vs)
      case EraseRange(id, from, to) => id in vectors && from <= to <= vectors[id].GetSize()
      case ClearAll(id) => id in vectors
      case Destroy(id) => id in vectors
    }

    /** The statement has done to what the pool shows what it means. */
    twostate predicate Executed(c: Command<T>)
      reads *
    {
      && old(Valid()) && Valid()
      && old(Allowed(c, View())) && Meaning(c, capacity, trivial, old(View()), View())
    }

    method ExecuteCreate(c: Command<T>)
      requires Valid() && Legal(c) && c.Create?
      modifies Footprint()
      ensures Valid() && fresh(Footprint() - old(Footprint())) && heap.NothingLost()
      ensures Executed(c)
    {
      MayExecute(c);
      ghost var before := View();
      ghost var x := NewValue(c, capacity, before);
      hide Valid, Members, Footprint, View, OthersSame, Untouched, Leftover, Meaning, Allowed;
      hide InlinedVector.Valid, InlinedVector.Apart, InlinedVector.Shows, Heap.NothingLost;
      Create(c.id);
      ShowsOne(c.id, x);
      OneMeans(c, capacity, trivial, before, View());
    }

    method ExecuteCopyNew(c: Command<T>)
      requires Valid() && Legal(c) && c.CopyNew?
      modifies Footprint()
      ensures Valid() && fresh(Footprint() - old(Footprint())) && heap.NothingLost()
      ensures Executed(c)
    {
      MayExecute(c);
      ghost var before := View();
      ghost var x := NewValue(c, capacity, before);
      hide Valid, Members, Footprint, View, OthersSame, Untouched, Leftover, Meaning, Allowed;
      hide InlinedVector.Valid, InlinedVector.Apart, InlinedVector.Shows, Heap.NothingLost;
      CopyNew(c.id, c.src);
      ShowsOne(c.id, x);
      OneMeans(c, capacity, trivial, before, View());
    }

    method ExecuteCopyInto(c: Command<T>)
      requires Valid() && Legal(c) && c.CopyInto?
      modifies Footprint()
      ensures Valid() && fresh(Footprint() - old(Footprint())) && heap.NothingLost()
      ensures Executed(c)
    {
      MayExecute(c);
      ghost var before := View();
      ghost var x := NewValue(c, capacity, before);
      hide Valid, Members, Footprint, View, OthersSame, Untouched, Leftover, Meaning, Allowed;
      hide InlinedVector.Valid, InlinedVector.Apart, InlinedVector.Shows, Heap.NothingLost;
      CopyInto(c.id, c.src);
      ShowsOne(c.id, x);
      OneMeans(c, capacity, trivial, before, View());
    }

    method ExecuteInsertAt(c: Command<T>)
      requires Valid() && Legal(c) && c.InsertAt?
      modifies Footprint()
      ensures Valid() && fresh(Footprint() - old(Footprint())) && heap.NothingLost()
      ensures Executed(c)
    {
      MayExecute(c);
      ghost var before := View();
      ghost var x := NewValue(c, capacity, before);
      hide Valid, Members, Footprint, View, OthersSame, Untouched, Leftover, Meaning, Allowed;
      hide InlinedVector.Valid, InlinedVector.Apart, InlinedVector.Shows, Heap.NothingLost;
      InsertAt(c.id, c.at, c.vs);
      ShowsOne(c.id, x);
      OneMeans(c, capacity, trivial, before, View());
    }

    method ExecuteEmplaceBack(c: Command<T>)
      requires Valid() && Legal(c) && c.EmplaceBack?
      modifies Footprint()
      ensures Valid() && fresh(Footprint() - old(Footprint())) && heap.NothingLost()
      ensures Executed(c)
    {
      MayExecute(c);
      ghost var before := View();
      ghost var x := NewValue(c, capacity, before);
      hide Valid, Members, Footprint, View, OthersSame, Untouched, Leftover, Meaning, Allowed;
      hide InlinedVector.Valid, InlinedVector.Apart, InlinedVector.Shows, Heap.NothingLost;
      EmplaceBack(c.id, c.v);
      ShowsOne(c.id, x);
      OneMeans(c, capacity, trivial, before, View());
    }

    method ExecuteAssignInput(c: Command<T>)
      requires Valid() && Legal(c) && c.AssignInput?
      modifies Footprint()
      ensures Valid() && fresh(Footprint() - old(Footprint())) && heap.NothingLost()
      ensures Executed(c)
    {
      MayExecute(c);
      ghost var before := View();
      ghost var x := NewValue(c, capacity, before);
      hide Valid, Members, Footprint, View, OthersSame, Untouched, Leftover, Meaning, Allowed;
      hide InlinedVector.Valid, InlinedVector.Apart, InlinedVector.Shows, Heap.NothingLost;
      AssignInput(c.id, c.vs);
      ShowsOne(c.id, x);
      OneMeans(c, capacity, trivial, before, View());
    }

    method ExecuteInsertInput(c: Command<T>)
      requires Valid() && Legal(c) && c.InsertInput?
      modifies Footprint()
      ensures Valid() && fresh(Footprint() - old(Footprint())) && heap.NothingLost()
      ensures Executed(c)
    {
      MayExecute(c);
      ghost var before := View();
      ghost var x := NewValue(c, capacity, before);
      hide Valid, Members, Footprint, View, OthersSame, Untouched, Leftover, Meaning, Allowed;
      hide InlinedVector.Valid, InlinedVector.Apart, InlinedVector.Shows, Heap.NothingLost;
      InsertInput(c.id, c.at, c.vs);
      ShowsOne(c.id, x);
      OneMeans(c, capacity, trivial, before, View());
    }

    method ExecuteEraseRange(c: Command<T>)
      requires Valid() && Legal(c) && c.EraseRange?
      modifies Footprint()
      ensures Valid() && fresh(Footprint() - old(Footprint())) && heap.NothingLost()
      ensures Executed(c)
    {
      MayExecute(c);
      ghost var before := View();
      ghost var x := NewValue(c, capacity, before);
      hide Valid, Members, Footprint, View, OthersSame, Untouched, Leftover, Meaning, Allowed;
      hide InlinedVector.Valid, InlinedVector.Apart, InlinedVector.Shows, Heap.NothingLost;
      EraseRange(c.id, c.from, c.to);
      ShowsOne(c.id, x);
      OneMeans(c, capacity, trivial, before, View());
    }

    method ExecuteClearAll(c: Command<T>)
      requires Valid() && Legal(c) && c.ClearAll?
      modifies Footprint()
      ensures Valid() && fresh(Footprint() - old(Footprint())) && heap.NothingLost()
      ensures Executed(c)
    {
      MayExecute(c);
      ghost var before := View();
      ghost var x := NewValue(c, capacity, before);
      hide Valid, Members, Footprint, View, OthersSame, Untouched, Leftover, Meaning, Allowed;
      hide InlinedVector.Valid, InlinedVector.Apart, InlinedVector.Shows, Heap.NothingLost;
      Clear(c.id);
      ShowsOne(c.id, x);
      OneMeans(c, capacity, trivial, before, View());
    }

    method ExecuteMoveNew(c: Command<T>)
      requires Valid() && Legal(c) && c.MoveNew?
      modifies Footprint()
      ensures Valid() && fresh(Footprint() - old(Footprint())) && heap.NothingLost()
      ensures Executed(c)
    {
      MayExecute(c);
      ghost var before := View();
      ghost var left := Left(trivial, before[c.src], capacity);
      hide Valid, Members, Footprint, View, OthersSame, Untouched, Leftover, Meaning, Allowed;
      hide InlinedVector.Valid, InlinedVector.Apart, InlinedVector.Shows, Heap.NothingLost;
      MoveNew(c.id, c.src);
      ShowsTwo(c.id, before[c.src], c.src, left);
      MoveNewMeans(c, capacity, trivial, before, View());
    }

    method ExecuteMoveInto(c: Command<T>)
      requires Valid() && Legal(c) && c.MoveInto?
      modifies Footprint()
      ensures Valid() && fresh(Footprint() - old(Footprint())) && heap.NothingLost()
      ensures Executed(c)
    {
      MayExecute(c);
      ghost var before := View();
      ghost var left := Left(trivial, before[c.src], capacity);
      ghost var taken := if c.id == c.src then before[c.id] else Taking(trivial, before[c.id], before[c.src]);
      hide Valid, Members, Footprint, View, OthersSame, Untouched, Leftover, Meaning, Allowed;
      hide InlinedVector.Valid, InlinedVector.Apart, InlinedVector.Shows, Heap.NothingLost;
      MoveInto(c.id, c.src);
      ShowsMoved(c.id, taken, c.src, left);
      MoveIntoMeans(c, capacity, trivial, before, View(), taken);
    }

    method ExecuteSwapWith(c: Command<T>)
      requires Valid() && Legal(c) && c.SwapWith?
      modifies Footprint()
      ensures Valid() && fresh(Footprint() - old(Footprint())) && heap.NothingLost()
      ensures Executed(c)
    {
      MayExecute(c);
      ghost var before := View();
      hide Valid, Members, Footprint, View, OthersSame, Untouched, Leftover, Meaning, Allowed;
      hide InlinedVector.Valid, InlinedVector.Apart, InlinedVector.Shows, Heap.NothingLost;
      SwapWith(c.id, c.src);
      ShowsTwo(c.id, before[c.src], c.src, before[c.id]);
      SwapMeans(c, capacity, trivial, before, View());
    }

    method ExecuteDestroy(c: Command<T>)
      requires Valid() && Legal(c) && c.Destroy?
      modifies Footprint()
      ensures Valid() && fresh(Footprint() - old(Footprint())) && heap.NothingLost()
      ensures Executed(c)
    {
      MayExecute(c);
      ghost var before := View();
      hide Valid, Members, Footprint, View, OthersSame, Untouched, Leftover, Allowed;
      hide InlinedVector.Valid, InlinedVector.Apart, InlinedVector.Shows, Heap.NothingLost;
      Destroy(c.id);
      ShowsFewer(c.id);
    }

    method Execute(c: Command<T>)
      requires Valid() && Legal(c)
      modifies Footprint()
      ensures Valid() && fresh(Footprint() - old(Footprint())) && heap.NothingLost()
      ensures Executed(c)
    {
      hide Valid, Legal, Executed, Footprint, Heap.NothingLost;
      match c
      case Create(_) => ExecuteCreate(c);
      case CopyNew(_, _) => ExecuteCopyNew(c);
      case MoveNew(_, _) => ExecuteMoveNew(c);
      case CopyInto(_, _) => ExecuteCopyInto(c);
      case MoveInto(_, _) => ExecuteMoveInto(c);
      case SwapWith(_, _) => ExecuteSwapWith(c);
      case InsertAt(_, _, _) => ExecuteInsertAt(c);
      case EmplaceBack(_, _) => ExecuteEmplaceBack(c);
      case AssignInput(_, _) => ExecuteAssignInput(c);
      case InsertInput(_, _, _) => ExecuteInsertInput(c);
      case EraseRange(_, _, _) => ExecuteEraseRange(c);
      case ClearAll(_) => ExecuteClearAll(c);
      case Destroy(_) => ExecuteDestroy(c);
    }

    method ExecuteOrSkip(c: Command<T>)
      requires Valid()
      modifies Footprint()
      ensures Valid() && fresh(Footprint() - old(Footprint())) && heap.NothingLost()
      ensures Step(c, capacity, trivial, old(View()), View())
    {
      LegalIsAllowed(c);
      if Legal(c) {
        Execute(c);
      }
    }

    lemma WithinFootprint()
      requires Valid()
      ensures Members() && {this, heap} <= Footprint()
      ensures forall id :: id in vectors ==> vectors[id].Owning() && vectors[id].Repr() <= Footprint()
    {
      forall id | id in vectors ensures vectors[id].Repr() <= Footprint() {
        forall o | o in vectors[id].Repr() ensures o in Footprint() {}
      }
    }

    /** Any program. What its statements show is what they mean on plain sequences; the
        blocks the allocator has out are those the vectors own, each by one vector, and all
        others it ever handed out were given back. */
    method Run(program: seq<Command<T>>) returns (ghost trace: seq<map<int, Shown<T>>>)
      requires Valid()
      modifies Footprint()
      ensures Valid() && fresh(Footprint() - old(Footprint())) && heap.NothingLost()
      ensures Traces(program, capacity, trivial, trace)
      ensures |trace| == |program| + 1 && trace[0] == old(View()) && trace[|program|] == View()
      ensures vectors == map[] ==> heap.live == {} && heap.freed == heap.issued
      decreases |program|
    {
      hide Valid, Members, View, Step, Traces, Footprint;
      ValidMembers();
      if program == [] {
        trace := [View()];
        TraceBegins(capacity, trivial, View());
      } else {
        var last := |program| - 1;
        trace := Run(program[..last]);
        ValidMembers();
        label ran:
        ExecuteOrSkip(program[last]);
        ValidMembers();
        forall o | o in Footprint() && o !in old(Footprint()) ensures fresh(o) {
          if o !in old@ran(Footprint()) {
            assert !old@ran(allocated(o));
          }
        }
        assert program[..last] + [program[last]] == program;
        TraceGoesOn(program[..last], capacity, trivial, trace, program[last], View());
        trace := trace + [View()];
      }
      NothingOut();
    }

    lemma ValidMembers()
      requires Valid()
      ensures Members()
    {}

    lemma NothingOut()
      requires Valid()
      ensures vectors == map[] ==> heap.live == {} && heap.freed == heap.issued
    {}

    /** What a statement may touch and what its vectors show before it. */
    lemma MayExecute(c: Command<T>)
      requires Valid() && Legal(c)
      ensures Allowed(c, View()) && Members() && {this, heap} <= Footprint()
      ensures forall id :: id in vectors ==> vectors[id].Owning() && vectors[id].Repr() <= Footprint()
      ensures View().Keys == vectors.Keys
      ensures forall j :: j in vectors ==> View()[j] == vectors[j].Shows()
    {
      WithinFootprint();
      LegalIsAllowed(c);
      Seen();
    }

    lemma LegalIsAllowed(c: Command<T>)
      requires Valid()
      ensures Legal(c) <==> Allowed(c, View())
    {
      Seen();
      SizesSeen();
      hide Valid, View, InlinedVector.Shows, InlinedVector.Contents, InlinedVector.GetSize, InlinedVector.Owning;
    }

    lemma SizesSeen()
      requires Valid()
      ensures View().Keys == vectors.Keys
      ensures forall j :: j in vectors ==> |View()[j].elements| == vectors[j].GetSize()
    {}
  }
}
