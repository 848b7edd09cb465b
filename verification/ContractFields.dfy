/** Deep-frozen copies of contract data (packages/core/src/contract-fields.ts). */
module ContractFields {
  import opened CopiedHeaps
  import opened GraphCopy
  import opened Heap
  import DeepFrozen

  /** The `memo` of one unit, and the heap its copies are made in. */
  class FrozenCopier {
    var heap: Objects
    var memo: map<Address, Address>
    ghost const graph: Graph

    constructor (heap: Objects)
      requires ValidHeap(heap)
      ensures this.heap == heap && memo == map[] && graph == DataGraph(heap)
      ensures Valid()
    {
      DataGraphIsValid(heap);
      this.heap := heap;
      graph := DataGraph(heap);
      memo := map[];
    }

    ghost predicate Valid()
      reads this
    {
      graph.kind == Frozen && graph.Sound(heap, memo)
    }

    method FrozenCopy(value: Value) returns (out: Value)
      requires Valid() && graph.Known(value, Ir)
      modifies this
      ensures Valid() && graph.Grown(old(heap), old(memo), heap, memo, value)
      ensures graph.IsImage(memo, value, Ir, out)
      ensures memo != old(memo) ==> value.Ref? && Copied(Frozen, graph.original[value.at], Ir)
      decreases graph.Pending(memo), 1
    {
      assert heap[..|heap|] == heap;
      if value.Primitive? { return value; }
      var a := value.at;
      graph.OriginalThere(heap, memo, a);
      if !IsPlain(heap[a]) { return value; }
      if a in memo { return Ref(memo[a]); }
      out := CopyFields(a);
    }

    /** The rest of `frozenCopy` for an object not met yet: register an empty copy, fill it, freeze it. */
    method CopyFields(a: Address) returns (out: Value)
      requires Valid() && a in graph.modes && a < |graph.original| && a !in memo && graph.modes[a] == Ir
      modifies this
      ensures Valid() && graph.Grown(old(heap), old(memo), heap, memo, Ref(a))
      ensures a in memo && out == Ref(memo[a])
      decreases graph.Pending(memo), 0
    {
      hide Graph.Sound, Graph.Underway, Graph.Grown, Graph.Valid;
      graph.OriginalThere(heap, memo, a);
      var o, made := heap[a], |heap|;
      var empty := Object(o.shape, [], [], false);
      graph.Begins(heap, memo, a, empty);
      heap, memo := heap + [empty], memo[a := made];
      graph.UnderwayFacts(old(heap), old(memo), heap, memo, a);
      for k := 0 to |o.items|
        invariant graph.Sound(heap, memo) && graph.Underway(old(heap), old(memo), heap, memo, a)
        invariant a in memo && memo[a] == made < |heap|
        invariant heap[made] == Object(o.shape, heap[made].items, [], false)
        invariant graph.ItemsImage(memo, a, k, heap[made].items)
      {
        ghost var heap1, memo1 := heap, memo;
        graph.UnderwayFacts(old(heap), old(memo), heap, memo, a);
        assert o.items[k] in o.items;
        var item := FrozenCopy(o.items[k]);
        graph.ItemFilled(old(heap), old(memo), heap1, memo1, heap, memo, a, k, item);
        heap := heap[made := heap[made].(items := heap[made].items + [item])];
        graph.UnderwayFacts(old(heap), old(memo), heap, memo, a);
      }
      var entries := EnumerableNamed(o.properties);
      for k := 0 to |entries|
        invariant graph.Sound(heap, memo) && graph.Underway(old(heap), old(memo), heap, memo, a)
        invariant a in memo && memo[a] == made < |heap|
        invariant heap[made] == Object(o.shape, heap[made].items, heap[made].properties, false)
        invariant graph.ItemsImage(memo, a, |o.items|, heap[made].items)
        invariant graph.EntriesImage(memo, a, k, heap[made].properties)
      {
        ghost var heap1, memo1 := heap, memo;
        graph.UnderwayFacts(old(heap), old(memo), heap, memo, a);
        var p := entries[k];
        assert p in entries;
        var item := FrozenCopy(p.slot.value);
        graph.EntryFilled(old(heap), old(memo), heap1, memo1, heap, memo, a, k, item);
        graph.GrownKeepsImages(heap1, memo1, heap, memo, p.slot.value);
        graph.ItemsGrow(memo1, memo, a, |o.items|, heap1[made].items);
        heap := heap[made := heap[made].(properties := heap[made].properties + [Property(p.key, Data(item), true)])];
        graph.UnderwayFacts(old(heap), old(memo), heap, memo, a);
      }
      graph.FillStays(old(heap), old(memo), heap, memo, a, heap[made].(frozen := true));
      heap := heap[made := heap[made].(frozen := true)];
      graph.UnderwayFacts(old(heap), old(memo), heap, memo, a);
      graph.Ends(old(heap), old(memo), heap, memo, a);
      out := Ref(made);
    }
  }

  /** Every plain object is copied. */
  function DataGraph(heap: Objects): Graph {
    Graph(Frozen, heap, map a: nat | a < |heap| && IsPlain(heap[a]) :: Ir)
  }

  lemma DataGraphIsValid(heap: Objects)
    requires ValidHeap(heap)
    ensures DataGraph(heap).Valid()
  {
    var g := DataGraph(heap);
    forall a | a in g.modes
      ensures a < |heap| && g.FieldsKnown(a) && (!heap[a].shape.ArrayShape? ==> heap[a].items == [])
    {
      assert heap[a] in heap && ObjectInHeap(heap, heap[a]);
      EntriesInHeap(heap, heap[a].properties);
    }
  }

  lemma {:induction false} NamedSlotOf(ps: seq<Property>, slot: Slot)
    requires slot in DeepFrozen.NamedSlots(ps)
    ensures exists k :: 0 <= k < |ps| && ps[k].slot == slot
  {
    if ps[0].slot != slot {
      NamedSlotOf(ps[1..], slot);
      var k :| 0 <= k < |ps[1..]| && ps[1..][k].slot == slot;
      assert ps[k + 1].slot == slot;
    }
  }

  /** A finished frozen copy holds data only, and every plain object it holds is itself a copy. */
  lemma CopyHoldsCopies(g: Graph, heap: Objects, memo: map<Address, Address>, a: Address)
    requires g.kind == Frozen && g.Complete(heap, memo) && a in memo
    ensures IsPlain(heap[memo[a]]) && !DeepFrozen.Changeable(heap, memo[a])
    ensures DeepFrozen.HeldIn(heap, memo[a], memo.Values)
  {
    assert g.Finished(heap, memo, a) && Copied(Frozen, g.original[a], g.modes[a]);
    var o := heap[memo[a]];
    forall slot | slot in DeepFrozen.OwnNamed(o)
      ensures slot.Data? &&
        (slot.value.Ref? && slot.value.at < |heap| && IsPlain(heap[slot.value.at]) ==> slot.value.at in memo.Values)
    {
      if slot in DeepFrozen.NamedSlots(o.properties) {
        NamedSlotOf(o.properties, slot);
        var k :| 0 <= k < |o.properties| && o.properties[k].slot == slot;
        var p := Entries(Frozen, g.original[a])[k];
        assert p in Entries(Frozen, g.original[a]);
        ImageIsCopy(g, heap, memo, p.slot.value, ChildMode(Frozen, g.modes[a], p.key), slot.value);
      } else {
        var k :| 0 <= k < |o.items| && slot == Data(o.items[k]);
        assert g.original[a].items[k] in g.original[a].items;
        ImageIsCopy(g, heap, memo, g.original[a].items[k], g.modes[a], slot.value);
      }
    }
  }

  /** The image of a value reached as data is a copy, or no plain object. */
  lemma ImageIsCopy(g: Graph, heap: Objects, memo: map<Address, Address>, v: Value, mode: Mode, w: Value)
    requires g.kind == Frozen && g.Sound(heap, memo) && g.Known(v, mode) && mode != Shared &&
      g.IsImage(memo, v, mode, w)
    ensures w.Ref? && w.at < |heap| && IsPlain(heap[w.at]) ==> w.at in memo.Values
  {
    if v.Ref? {
      g.OriginalThere(heap, memo, v.at);
    }
  }

  /**
   * `frozenData`: the original heap is untouched, the copy is isomorphic to
   * the value, cyclic references included, and it is frozen all the way down
   * in the very sense `isDeepFrozen` tests.
   */
  method FrozenData(heap: Objects, value: Value)
    returns (out: Value, after: Objects, memo: map<Address, Address>)
    requires ValidHeap(heap) && InHeap(heap, value)
    ensures DataGraph(heap).Complete(after, memo) && DataGraph(heap).IsImage(memo, value, Ir, out)
    ensures NewAndApart(heap, after, memo) && Moved(heap, memo, value, false, out)
    ensures forall a <- memo :: FrozenLike(heap, after, memo, a)
    ensures forall a :: a in memo <==>
              value.Ref? && GetsCopy(heap[value.at], false) && Reaches(FreezesOnEdges(heap), value.at, a)
    ensures value.Ref? && IsPlain(heap[value.at]) ==>
              out.Ref? && out.at < |after| && DeepFrozen.DeepFrozen(after, out.at)
  {
    ghost var graph := DataGraph(heap);
    var copier := new FrozenCopier(heap);
    out := copier.FrozenCopy(value);
    after, memo := copier.heap, copier.memo;
    if value.Ref? && IsPlain(heap[value.at]) {
      forall a | Reaches(graph.Edges(), value.at, a) ensures a in memo {
        graph.CopiesEverythingReached(after, memo, value.at, a);
      }
      CompleteIsDeepFrozen(graph, after, memo, value.at);
    }
    SoundIsApart(graph, after, memo);
    ImageIsMoved(graph, memo, value, Ir, out);
    forall a | a in memo ensures FrozenLike(heap, after, memo, a) {
      CopyIsFrozenLike(graph, after, memo, a);
    }
    forall a, b ensures graph.Edges()(a, b) <==> FreezesOnEdges(heap)(a, b) {
      DataFollowsOn(heap, a, b);
    }
    forall a | value.Ref?
      ensures Reaches(graph.Edges(), value.at, a) <==> Reaches(FreezesOnEdges(heap), value.at, a)
    {
      SameReach(graph.Edges(), FreezesOnEdges(heap), value.at, a);
    }
  }

  lemma DataFollowsOn(heap: Objects, a: Address, b: Address)
    ensures DataGraph(heap).Follows(a, b) <==> FreezesOn(heap, a, b)
  {
    if a < |heap| && b < |heap| && IsPlain(heap[a]) && IsPlain(heap[b]) {
      forall p ensures p in EnumerableNamed(heap[a].properties) <==>
        p in heap[a].properties && p.enumerable && p.key.Named?
      {
        EntriesAreProperties(heap[a].properties, p);
      }
    }
  }

  lemma CompleteIsDeepFrozen(g: Graph, heap: Objects, memo: map<Address, Address>, a: Address)
    requires g.kind == Frozen && g.Complete(heap, memo) && a in memo
    ensures DeepFrozen.DeepFrozen(heap, memo[a])
  {
    forall c | c in memo.Values
      ensures c < |heap| && IsPlain(heap[c]) && !DeepFrozen.Changeable(heap, c) &&
        DeepFrozen.HeldIn(heap, c, memo.Values)
    {
      var b :| b in memo && memo[b] == c;
      CopyHoldsCopies(g, heap, memo, b);
    }
    DeepFrozen.MemberIsDeepFrozen(heap, memo.Values, memo[a]);
  }
}
