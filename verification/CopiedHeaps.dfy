/**
 * What both copies of an object graph are, told of the two heaps alone: which
 * keys a copy has, and what stands under each (packages/core/src/clone-ir.ts,
 * packages/core/src/contract-fields.ts).
 */
module CopiedHeaps {
  import opened GraphCopy
  import opened Heap

  /** An object that gets a copy: an array, a plain object, and inside a parser node a class instance as well. */
  predicate GetsCopy(o: Object, inNode: bool) {
    o.shape.ArrayShape? || o.shape.PlainShape? || (inNode && o.shape.Instance?)
  }

  /** What `v` is in the copy: its own new object, or the very same value. */
  predicate Moved(heap: Objects, copies: map<Address, Address>, v: Value, inNode: bool, w: Value) {
    if v.Ref? && v.at < |heap| && GetsCopy(heap[v.at], inNode) then v.at in copies && w == Ref(copies[v.at])
    else w == v
  }

  /** `places` are those of the enumerable string keys, in order. */
  predicate StringKeys(ps: seq<Property>, places: seq<nat>) {
    (forall k :: 0 <= k < |places| ==> places[k] < |ps| && ps[places[k]].enumerable && ps[places[k]].key.Named?) &&
    (forall j, k :: 0 <= j < k < |places| ==> places[j] < places[k]) &&
    forall i :: 0 <= i < |ps| && ps[i].enumerable && ps[i].key.Named? ==> i in places
  }

  const NODE_KEYS: set<string> := {"node", "paramNodes", "forward"}

  /** The value under a key of a clone: below a parser node's key the node itself, or its copy when nodes are copied. */
  predicate ClonedValue(
      heap: Objects, copies: map<Address, Address>, nodes: bool, inNode: bool, key: Key, v: Value, w: Value)
    requires key.Named?
  {
    if !inNode && key.name in NODE_KEYS then (if nodes then Moved(heap, copies, v, true, w) else w == v)
    else Moved(heap, copies, v, inNode, w)
  }

  /** The copy of one object, which was reached inside a parser node or not. */
  ghost predicate Cloned(
      heap: Objects, after: Objects, copies: map<Address, Address>, nodes: bool, inNode: bool, a: Address)
    requires a < |heap| && a in copies && copies[a] < |after|
  {
    var o, c := heap[a], after[copies[a]];
    c.shape == o.shape && !c.frozen && |c.items| == |o.items| &&
    (forall k :: 0 <= k < |o.items| ==> Moved(heap, copies, o.items[k], inNode, c.items[k])) &&
    if o.shape.ArrayShape? then c.properties == []
    else
      exists places: seq<nat> :: StringKeys(o.properties, places) && |places| == |c.properties| &&
        forall k :: 0 <= k < |places| ==>
          c.properties[k].key == o.properties[places[k]].key && c.properties[k].enumerable &&
          c.properties[k].slot.Data? &&
          ClonedValue(heap, copies, nodes, inNode, c.properties[k].key, o.properties[places[k]].slot.value,
            c.properties[k].slot.value)
  }

  /** The frozen copy of one object: its elements and its enumerable string keys. */
  ghost predicate FrozenLike(heap: Objects, after: Objects, copies: map<Address, Address>, a: Address)
    requires a < |heap| && a in copies && copies[a] < |after|
  {
    var o, c := heap[a], after[copies[a]];
    c.shape == o.shape && c.frozen && |c.items| == |o.items| &&
    (forall k :: 0 <= k < |o.items| ==> Moved(heap, copies, o.items[k], false, c.items[k])) &&
    exists places: seq<nat> :: StringKeys(o.properties, places) && |places| == |c.properties| &&
      forall k :: 0 <= k < |places| ==>
        c.properties[k].key == o.properties[places[k]].key && c.properties[k].enumerable &&
        c.properties[k].slot.Data? &&
        Moved(heap, copies, o.properties[places[k]].slot.value, false, c.properties[k].slot.value)
  }

  /** New objects after an untouched heap, one for each object copied. */
  ghost predicate NewAndApart(heap: Objects, after: Objects, copies: map<Address, Address>) {
    heap <= after && (forall a <- copies :: a < |heap| && |heap| <= copies[a] < |after|) &&
    (forall a, b :: a in copies && b in copies && copies[a] == copies[b] ==> a == b) &&
    forall i: nat :: |heap| <= i < |after| ==> i in copies.Values
  }

  // ---- what a copy follows

  /** A clone without its parser nodes leads from `a` to `b`. */
  ghost predicate ClonesOn(heap: Objects, a: Address, b: Address) {
    a < |heap| && b < |heap| && GetsCopy(heap[a], false) && GetsCopy(heap[b], false) &&
    if heap[a].shape.ArrayShape? then Ref(b) in heap[a].items
    else
      exists p <- heap[a].properties ::
        p.enumerable && p.key.Named? && p.key.name !in NODE_KEYS && p.slot.value == Ref(b)
  }

  ghost function ClonesOnEdges(heap: Objects): (Address, Address) -> bool {
    (a: Address, b: Address) => ClonesOn(heap, a, b)
  }

  /** A frozen copy leads from `a` to `b`. */
  ghost predicate FreezesOn(heap: Objects, a: Address, b: Address) {
    a < |heap| && b < |heap| && GetsCopy(heap[a], false) && GetsCopy(heap[b], false) &&
    (Ref(b) in heap[a].items ||
     exists p <- heap[a].properties :: p.enumerable && p.key.Named? && p.slot.value == Ref(b))
  }

  ghost function FreezesOnEdges(heap: Objects): (Address, Address) -> bool {
    (a: Address, b: Address) => FreezesOn(heap, a, b)
  }

  // ---- the copies of a graph are such copies

  lemma {:induction false} NamedPlaces(ps: seq<Property>) returns (places: seq<nat>)
    ensures StringKeys(ps, places) && |places| == |EnumerableNamed(ps)|
    ensures forall k :: 0 <= k < |places| ==> EnumerableNamed(ps)[k] == ps[places[k]]
  {
    places := [];
    if ps != [] {
      var n := |ps| - 1;
      places := NamedPlaces(ps[..n]);
      if ps[n].enumerable && ps[n].key.Named? {
        places := places + [n];
      }
    }
  }

  lemma KeysAreNode(key: Key)
    requires key.Named?
    ensures IsParserKey(key) <==> key.name in NODE_KEYS
  {
  }

  lemma ImageIsMoved(g: Graph, copies: map<Address, Address>, v: Value, mode: Mode, w: Value)
    requires g.IsImage(copies, v, mode, w) && mode != Shared && (g.kind.Frozen? ==> mode == Ir)
    ensures Moved(g.original, copies, v, mode == Node, w)
  {
  }

  lemma {:induction false} SoundIsApart(g: Graph, after: Objects, copies: map<Address, Address>)
    requires g.Sound(after, copies)
    ensures NewAndApart(g.original, after, copies)
  {
    forall i: nat | |g.original| <= i < |after| ensures i in copies.Values {
      assert g.IsCopyAddress(copies, i);
    }
  }

  lemma CopyIsCloned(g: Graph, after: Objects, copies: map<Address, Address>, a: Address)
    requires g.kind.Clone? && g.Complete(after, copies) && a in copies
    ensures a < |g.original| && copies[a] < |after| && a in g.modes
    ensures Cloned(g.original, after, copies, g.kind.nodes, g.modes[a] == Node, a)
  {
    assert g.Finished(after, copies, a) && Copied(g.kind, g.original[a], g.modes[a]);
    var o, c, mode := g.original[a], after[copies[a]], g.modes[a];
    forall k | 0 <= k < |o.items| ensures Moved(g.original, copies, o.items[k], mode == Node, c.items[k]) {
      ImageIsMoved(g, copies, o.items[k], mode, c.items[k]);
    }
    if !o.shape.ArrayShape? {
      var places := NamedPlaces(o.properties);
      forall k | 0 <= k < |places|
        ensures ClonedValue(g.original, copies, g.kind.nodes, mode == Node, c.properties[k].key,
          o.properties[places[k]].slot.value, c.properties[k].slot.value)
      {
        var p := Entries(g.kind, o)[k];
        KeysAreNode(p.key);
        var child := ChildMode(g.kind, mode, p.key);
        if child != Shared {
          ImageIsMoved(g, copies, p.slot.value, child, c.properties[k].slot.value);
        }
      }
    }
  }

  lemma CopyIsFrozenLike(g: Graph, after: Objects, copies: map<Address, Address>, a: Address)
    requires g.kind.Frozen? && g.Complete(after, copies) && a in copies
    requires forall b <- g.modes :: g.modes[b] == Ir
    ensures a < |g.original| && copies[a] < |after| && FrozenLike(g.original, after, copies, a)
  {
    assert g.Finished(after, copies, a) && Copied(g.kind, g.original[a], g.modes[a]);
    var o, c := g.original[a], after[copies[a]];
    forall k | 0 <= k < |o.items| ensures Moved(g.original, copies, o.items[k], false, c.items[k]) {
      ImageIsMoved(g, copies, o.items[k], Ir, c.items[k]);
    }
    var places := NamedPlaces(o.properties);
    forall k | 0 <= k < |places|
      ensures Moved(g.original, copies, o.properties[places[k]].slot.value, false, c.properties[k].slot.value)
    {
      var p := Entries(g.kind, o)[k];
      ImageIsMoved(g, copies, p.slot.value, Ir, c.properties[k].slot.value);
    }
  }

  /** The same edges make the same paths. */
  lemma SameReach(e: (Address, Address) -> bool, f: (Address, Address) -> bool, a: Address, b: Address)
    requires forall x: Address, y: Address :: e(x, y) <==> f(x, y)
    ensures Reaches(e, a, b) <==> Reaches(f, a, b)
  {
    if path :| Path(e, a, b, path) {
      assert Path(f, a, b, path);
    }
    if path :| Path(f, a, b, path) {
      assert Path(e, a, b, path);
    }
  }

  lemma EntriesAreProperties(ps: seq<Property>, p: Property)
    ensures p in EnumerableNamed(ps) <==> p in ps && p.enumerable && p.key.Named?
  {
    var places := NamedPlaces(ps);
    if p in ps && p.enumerable && p.key.Named? {
      var i :| 0 <= i < |ps| && ps[i] == p;
      assert i in places;
    }
  }
}
