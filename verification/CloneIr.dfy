/** A private, mutable copy of IR (packages/core/src/clone-ir.ts). */
module CloneIr {
  import opened CopiedHeaps
  import opened GraphCopy
  import opened Heap

  /** One call of `cloneIr`: the heap it copies in, and the memo `copies`. */
  class Cloner {
    var heap: Objects
    var copies: map<Address, Address>
    const nodes: bool
    ghost const graph: Graph

    constructor (heap: Objects, nodes: bool, ghost graph: Graph)
      requires graph.Valid() && graph.original == heap && graph.kind == Clone(nodes)
      ensures this.heap == heap && copies == map[] && this.nodes == nodes && this.graph == graph
      ensures Valid()
    {
      this.heap := heap;
      this.nodes := nodes;
      this.graph := graph;
      copies := map[];
    }

    ghost predicate Valid()
      reads this
    {
      graph.kind == Clone(nodes) && graph.Sound(heap, copies)
    }

    /** `copy`: what `input`, reached in `mode`, is in the copy. */
    method Copy(input: Value, mode: Mode) returns (out: Value)
      requires Valid() && graph.Known(input, mode)
      modifies this
      ensures Valid() && graph.Grown(old(heap), old(copies), heap, copies, input)
      ensures graph.IsImage(copies, input, mode, out)
      ensures copies != old(copies) ==> input.Ref? && Copied(graph.kind, graph.original[input.at], mode)
      decreases graph.Pending(copies), 1
    {
      assert heap[..|heap|] == heap;
      if input.Primitive? { return input; }
      if mode == Shared { return input; }
      var a := input.at;
      if a in copies { return Ref(copies[a]); }
      var o := heap[a];
      assert o == graph.original[a];
      if o.shape.ArrayShape? {
        out := CopyArray(a, mode);
      } else if !o.shape.PlainShape? && (mode != Node || o.shape.BuiltIn?) {
        out := input;
      } else {
        out := CopyObject(a, mode);
      }
    }

    /** The array branch: elements are pushed in order. */
    method CopyArray(a: Address, mode: Mode) returns (out: Value)
      requires Valid() && a in graph.modes && a < |graph.original| && a !in copies && graph.modes[a] == mode
      requires graph.original[a].shape.ArrayShape?
      modifies this
      ensures Valid() && graph.Grown(old(heap), old(copies), heap, copies, Ref(a))
      ensures a in copies && out == Ref(copies[a])
      decreases graph.Pending(copies), 0
    {
      hide Graph.Sound, Graph.Underway, Graph.Grown, Graph.Valid;
      graph.OriginalThere(heap, copies, a);
      var items, made := heap[a].items, |heap|;
      graph.Begins(heap, copies, a, Object(ArrayShape, [], [], false));
      heap, copies := heap + [Object(ArrayShape, [], [], false)], copies[a := made];
      graph.UnderwayFacts(old(heap), old(copies), heap, copies, a);
      for k := 0 to |items|
        invariant graph.Sound(heap, copies) && graph.Underway(old(heap), old(copies), heap, copies, a)
        invariant a in copies && copies[a] == made < |heap|
        invariant heap[made] == Object(ArrayShape, heap[made].items, [], false)
        invariant graph.ItemsImage(copies, a, k, heap[made].items)
      {
        ghost var heap1, copies1 := heap, copies;
        graph.UnderwayFacts(old(heap), old(copies), heap, copies, a);
        assert items[k] in items;
        var item := Copy(items[k], mode);
        graph.ItemFilled(old(heap), old(copies), heap1, copies1, heap, copies, a, k, item);
        heap := heap[made := heap[made].(items := heap[made].items + [item])];
        graph.UnderwayFacts(old(heap), old(copies), heap, copies, a);
      }
      assert Entries(graph.kind, graph.original[a]) == [];
      graph.Ends(old(heap), old(copies), heap, copies, a);
      out := Ref(made);
    }

    /** The object branch: the enumerable properties, in order, into an object of the same prototype. */
    method CopyObject(a: Address, mode: Mode) returns (out: Value)
      requires Valid() && a in graph.modes && a < |graph.original| && a !in copies && graph.modes[a] == mode
      requires !graph.original[a].shape.ArrayShape?
      modifies this
      ensures Valid() && graph.Grown(old(heap), old(copies), heap, copies, Ref(a))
      ensures a in copies && out == Ref(copies[a])
      decreases graph.Pending(copies), 0
    {
      hide Graph.Sound, Graph.Underway, Graph.Grown, Graph.Valid;
      graph.OriginalThere(heap, copies, a);
      var o, made := heap[a], |heap|;
      graph.Begins(heap, copies, a, Object(o.shape, [], [], false));
      heap, copies := heap + [Object(o.shape, [], [], false)], copies[a := made];
      graph.UnderwayFacts(old(heap), old(copies), heap, copies, a);
      var entries := EnumerableNamed(o.properties);
      assert entries == Entries(graph.kind, o);
      for k := 0 to |entries|
        invariant graph.Sound(heap, copies) && graph.Underway(old(heap), old(copies), heap, copies, a)
        invariant a in copies && copies[a] == made < |heap|
        invariant heap[made] == Object(o.shape, [], heap[made].properties, false)
        invariant graph.EntriesImage(copies, a, k, heap[made].properties)
      {
        ghost var heap1, copies1 := heap, copies;
        graph.UnderwayFacts(old(heap), old(copies), heap, copies, a);
        var p := entries[k];
        assert p in entries;
        var isParserNode := mode == Ir && IsParserKey(p.key);
        var child := Copy(p.slot.value, if isParserNode then (if nodes then Node else Shared) else mode);
        graph.EntryFilled(old(heap), old(copies), heap1, copies1, heap, copies, a, k, child);
        heap := heap[made := heap[made].(properties := heap[made].properties + [Property(p.key, Data(child), true)])];
        graph.UnderwayFacts(old(heap), old(copies), heap, copies, a);
      }
      graph.Ends(old(heap), old(copies), heap, copies, a);
      out := Ref(made);
    }
  }

  /** With `nodes` unset every plain object has one mode, whatever the graph: a parser node is never entered. */
  function IrGraph(heap: Objects): Graph {
    Graph(Clone(false), heap, map a: nat | a < |heap| && IsPlain(heap[a]) :: Ir)
  }

  lemma IrGraphIsValid(heap: Objects)
    requires ValidHeap(heap)
    ensures IrGraph(heap).Valid()
  {
    var g := IrGraph(heap);
    forall a | a in g.modes
      ensures a < |heap| && g.FieldsKnown(a) && (!heap[a].shape.ArrayShape? ==> heap[a].items == [])
    {
      assert heap[a] in heap && ObjectInHeap(heap, heap[a]);
      EntriesInHeap(heap, heap[a].properties);
    }
  }

  /**
   * `cloneIr`, for any graph in which no object is reached in two modes. The
   * original heap is a prefix of the new one, so nothing in it has changed;
   * `copies` maps, injectively, each object the copy's fields reach to a new
   * one; and the result is the image of the value.
   */
  method CloneIn(heap: Objects, value: Value, nodes: bool, ghost graph: Graph)
    returns (out: Value, after: Objects, copies: map<Address, Address>)
    requires graph.Valid() && graph.original == heap && graph.kind == Clone(nodes) && graph.Known(value, Ir)
    ensures graph.Complete(after, copies) && graph.IsImage(copies, value, Ir, out)
    ensures NewAndApart(heap, after, copies) && Moved(heap, copies, value, false, out)
    ensures forall a <- copies :: a in graph.modes && Cloned(heap, after, copies, nodes, graph.modes[a] == Node, a)
    ensures forall a :: a in copies <==>
              value.Ref? && value.at < |heap| && Copied(graph.kind, heap[value.at], Ir) &&
                Reaches(graph.Edges(), value.at, a)
  {
    var cloner := new Cloner(heap, nodes, graph);
    out := cloner.Copy(value, Ir);
    after, copies := cloner.heap, cloner.copies;
    SoundIsApart(graph, after, copies);
    ImageIsMoved(graph, copies, value, Ir, out);
    forall a | a in copies
      ensures a in graph.modes && Cloned(heap, after, copies, nodes, graph.modes[a] == Node, a)
    {
      CopyIsCloned(graph, after, copies, a);
    }
    if value.Ref? && Copied(graph.kind, heap[value.at], Ir) {
      forall a | Reaches(graph.Edges(), value.at, a) ensures a in copies {
        graph.CopiesEverythingReached(after, copies, value.at, a);
      }
    }
  }

  /** What the copy of such a graph follows. */
  lemma IrFollowsOn(heap: Objects, a: Address, b: Address)
    requires ValidHeap(heap)
    ensures IrGraph(heap).Follows(a, b) <==> ClonesOn(heap, a, b)
  {
    if a < |heap| && b < |heap| && IsPlain(heap[a]) && IsPlain(heap[b]) {
      assert heap[a] in heap && ObjectInHeap(heap, heap[a]);
      forall p ensures p in EnumerableNamed(heap[a].properties) <==>
        p in heap[a].properties && p.enumerable && p.key.Named?
      {
        EntriesAreProperties(heap[a].properties, p);
      }
      forall p | p in heap[a].properties && p.key.Named?
        ensures ChildMode(Clone(false), Ir, p.key) == if p.key.name in NODE_KEYS then Shared else Ir
      {
        KeysAreNode(p.key);
      }
    }
  }

  /**
   * `cloneIr` without options: it needs nothing of the graph, cycles and sharing
   * included. It copies what is reached past no parser node's key, and each copy
   * has the keys of its original in order, and under each the copy of what stood
   * there, or that very value.
   */
  method CloneIr(heap: Objects, value: Value)
    returns (out: Value, after: Objects, copies: map<Address, Address>)
    requires ValidHeap(heap) && InHeap(heap, value)
    ensures IrGraph(heap).Complete(after, copies) && IrGraph(heap).IsImage(copies, value, Ir, out)
    ensures NewAndApart(heap, after, copies) && Moved(heap, copies, value, false, out)
    ensures forall a <- copies :: Cloned(heap, after, copies, false, false, a)
    ensures forall a :: a in copies <==>
              value.Ref? && GetsCopy(heap[value.at], false) && Reaches(ClonesOnEdges(heap), value.at, a)
  {
    IrGraphIsValid(heap);
    ghost var graph := IrGraph(heap);
    out, after, copies := CloneIn(heap, value, false, graph);
    forall a, b ensures graph.Edges()(a, b) <==> ClonesOnEdges(heap)(a, b) {
      IrFollowsOn(heap, a, b);
    }
    forall a | value.Ref?
      ensures Reaches(graph.Edges(), value.at, a) <==> Reaches(ClonesOnEdges(heap), value.at, a)
    {
      SameReach(graph.Edges(), ClonesOnEdges(heap), value.at, a);
    }
  }
}
