/**
 * JavaScript objects as cells of a heap that only grows: an object's identity
 * is its position, so sharing, cycles and freshness can be spoken about.
 */
module Heap {

  type Address = nat

  /** Anything that is no object (numbers, strings, functions, `null`) is a primitive here. */
  datatype Value = Primitive(id: int) | Ref(at: Address)

  datatype Key = Named(name: string) | Symbol(id: nat)

  /** A data property, or an accessor with the value its getter answers. */
  datatype Slot = Data(value: Value) | Accessor(value: Value)

  datatype Property = Property(key: Key, slot: Slot, enumerable: bool)

  /**
   * What an object's prototype makes it: a plain object (`Object.prototype` or
   * `null`), an array, a class instance, or a built-in with internal slots
   * (`Map`, `Date`, a typed array).
   */
  datatype Shape = ArrayShape | PlainShape(nullPrototype: bool) | Instance(prototype: nat) | BuiltIn(prototype: nat)

  /** `items` are an array's elements (data properties, no holes); `properties` everything else it owns. */
  datatype Object = Object(shape: Shape, items: seq<Value>, properties: seq<Property>, frozen: bool)

  type Objects = seq<Object>

  predicate InHeap(h: Objects, v: Value) { v.Ref? ==> v.at < |h| }

  predicate ObjectInHeap(h: Objects, o: Object) {
    (o.items != [] ==> o.shape.ArrayShape?) &&
    (forall v <- o.items :: InHeap(h, v)) &&
    forall p <- o.properties :: InHeap(h, p.slot.value)
  }

  predicate ValidHeap(h: Objects) {
    forall o <- h :: ObjectInHeap(h, o)
  }

  /** `isWalked` and `isPlainData`: an array or a plain object. */
  predicate IsPlain(o: Object) { o.shape.ArrayShape? || o.shape.PlainShape? }

  /** The first `n` addresses. */
  ghost function Below(n: nat): (s: set<Address>)
    ensures forall a: nat :: a in s <==> a < n
    ensures |s| == n
  {
    if n == 0 then {} else Below(n - 1) + {n - 1}
  }

  // ---- paths

  /** `path` leads from `a` to `b` along `edges`. */
  ghost predicate Path(edges: (Address, Address) -> bool, a: Address, b: Address, path: seq<Address>) {
    |path| > 0 && path[0] == a && path[|path| - 1] == b &&
    forall i :: 0 <= i < |path| - 1 ==> edges(path[i], path[i + 1])
  }

  ghost predicate Reaches(edges: (Address, Address) -> bool, a: Address, b: Address) {
    exists path :: Path(edges, a, b, path)
  }

  lemma ReachesSelf(edges: (Address, Address) -> bool, a: Address)
    ensures Reaches(edges, a, a)
  {
    assert Path(edges, a, a, [a]);
  }

  lemma ReachesThrough(edges: (Address, Address) -> bool, a: Address, b: Address, c: Address)
    requires edges(a, b) && Reaches(edges, b, c)
    ensures Reaches(edges, a, c)
  {
    var path :| Path(edges, b, c, path);
    assert Path(edges, a, c, [a] + path);
  }

  lemma ReachesOn(edges: (Address, Address) -> bool, a: Address, b: Address, c: Address)
    requires Reaches(edges, a, b) && edges(b, c)
    ensures Reaches(edges, a, c)
  {
    var path :| Path(edges, a, b, path);
    assert Path(edges, a, c, path + [c]);
  }

  /** A set that no edge leaves holds everything its members reach. */
  lemma {:induction false} ClosedHoldsReachable(
      edges: (Address, Address) -> bool, s: set<Address>, a: Address, b: Address, path: seq<Address>)
    requires a in s && Path(edges, a, b, path)
    requires forall x, y :: x in s && edges(x, y) ==> y in s
    ensures b in s
    decreases |path|
  {
    if |path| > 1 {
      assert edges(path[0], path[1]);
      assert Path(edges, path[1], b, path[1..]);
      ClosedHoldsReachable(edges, s, path[1], b, path[1..]);
    }
  }
}
