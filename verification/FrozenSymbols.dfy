/**
 * What `isDeepFrozen` says of an object and what is true of it when symbol keys
 * count: `Object.getOwnPropertyNames` lists none of them
 * (packages/core/src/deep-frozen.ts).
 */
module FrozenSymbols {
  import opened DeepFrozen
  import opened Heap

  /** Every own property, symbol keys included. */
  function OwnAll(o: Object): seq<Slot> {
    seq(|o.items|, i requires 0 <= i < |o.items| => Data(o.items[i])) + Slots(o.properties)
  }

  function Slots(ps: seq<Property>): seq<Slot> {
    if ps == [] then [] else [ps[0].slot] + Slots(ps[1..])
  }

  function SymbolSlots(ps: seq<Property>): seq<Slot> {
    if ps == [] then [] else (if ps[0].key.Symbol? then [ps[0].slot] else []) + SymbolSlots(ps[1..])
  }

  ghost predicate FullEdge(h: Objects, a: Address, b: Address) {
    a < |h| && b < |h| && IsPlain(h[a]) && IsPlain(h[b]) && Data(Ref(b)) in OwnAll(h[a])
  }

  ghost function FullEdges(h: Objects): (Address, Address) -> bool { (a: Address, b: Address) => FullEdge(h, a, b) }

  /** An object that can still change, through any own property. */
  ghost predicate CanChange(h: Objects, a: Address) {
    a < |h| && (!h[a].frozen || exists slot <- OwnAll(h[a]) :: slot.Accessor?)
  }

  /** Nothing reached from `v` through own properties of any key can change. */
  ghost predicate Unchanging(h: Objects, v: Address) {
    forall b: Address :: Reaches(FullEdges(h), v, b) ==> !CanChange(h, b)
  }

  /** Frozen all the way down, symbol keys included. */
  ghost predicate FrozenThroughout(h: Objects, v: Address)
    requires v < |h|
  {
    IsPlain(h[v]) && Unchanging(h, v)
  }

  /** No symbol key of `a` is an accessor or leads to a plain object or array that can change. */
  ghost predicate SymbolsHold(h: Objects, a: Address) {
    a < |h| ==>
      forall slot <- SymbolSlots(h[a].properties) ::
        slot.Data? &&
          (slot.value.Ref? && slot.value.at < |h| && IsPlain(h[slot.value.at]) ==> Unchanging(h, slot.value.at))
  }

  lemma {:induction false} SlotsByKey(ps: seq<Property>)
    ensures forall slot :: slot in Slots(ps) <==> slot in NamedSlots(ps) || slot in SymbolSlots(ps)
  {
    if ps != [] {
      SlotsByKey(ps[1..]);
    }
  }

  lemma OwnByKey(o: Object)
    ensures forall slot :: slot in OwnAll(o) <==> slot in OwnNamed(o) || slot in SymbolSlots(o.properties)
  {
    SlotsByKey(o.properties);
  }

  lemma {:induction false} NamedPathIsFull(h: Objects, a: Address, b: Address, path: seq<Address>)
    requires Path(Edges(h), a, b, path)
    ensures Path(FullEdges(h), a, b, path)
  {
    forall i | 0 <= i < |path| - 1 ensures FullEdges(h)(path[i], path[i + 1]) {
      assert Edges(h)(path[i], path[i + 1]);
      OwnByKey(h[path[i]]);
    }
  }

  lemma NamedReachIsFull(h: Objects, a: Address, b: Address)
    requires Reaches(Edges(h), a, b)
    ensures Reaches(FullEdges(h), a, b)
  {
    var path :| Path(Edges(h), a, b, path);
    NamedPathIsFull(h, a, b, path);
  }

  /** Either names alone lead there, or a symbol key on the way does. */
  lemma {:induction false} NamesOrASymbol(h: Objects, v: Address, b: Address, path: seq<Address>)
    requires v < |h| && Path(FullEdges(h), v, b, path)
    requires forall a: Address :: Reaches(Edges(h), v, a) ==> SymbolsHold(h, a)
    ensures Reaches(Edges(h), v, b) || !CanChange(h, b)
    decreases |path|
  {
    ReachesSelf(Edges(h), v);
    if |path| > 1 {
      var next := path[1];
      assert FullEdges(h)(path[0], next);
      assert Path(FullEdges(h), next, b, path[1..]);
      OwnByKey(h[v]);
      if Edge(h, v, next) {
        forall a: Address | Reaches(Edges(h), next, a) ensures SymbolsHold(h, a) {
          ReachesThrough(Edges(h), v, next, a);
        }
        NamesOrASymbol(h, next, b, path[1..]);
        if Reaches(Edges(h), next, b) {
          ReachesThrough(Edges(h), v, next, b);
        }
      } else {
        assert Data(Ref(next)) in SymbolSlots(h[v].properties) && SymbolsHold(h, v);
        assert Reaches(FullEdges(h), next, b);
      }
    }
  }

  lemma SymbolLeadsOn(h: Objects, v: Address, a: Address, slot: Slot)
    requires a < |h| && IsPlain(h[a]) && Reaches(FullEdges(h), v, a)
    requires slot in SymbolSlots(h[a].properties) && Unchanging(h, v)
    ensures slot.Data?
    ensures slot.value.Ref? && slot.value.at < |h| && IsPlain(h[slot.value.at]) ==> Unchanging(h, slot.value.at)
  {
    OwnByKey(h[a]);
    assert !CanChange(h, a);
    if slot.value.Ref? && slot.value.at < |h| && IsPlain(h[slot.value.at]) {
      var next := slot.value.at;
      assert FullEdges(h)(a, next);
      ReachesOn(FullEdges(h), v, a, next);
      forall b: Address | Reaches(FullEdges(h), next, b) ensures !CanChange(h, b) {
        ReachesJoin(h, v, next, b);
      }
    }
  }

  lemma ReachesJoin(h: Objects, a: Address, b: Address, c: Address)
    requires Reaches(FullEdges(h), a, b) && Reaches(FullEdges(h), b, c)
    ensures Reaches(FullEdges(h), a, c)
  {
    var p :| Path(FullEdges(h), a, b, p);
    var q :| Path(FullEdges(h), b, c, q);
    assert Path(FullEdges(h), a, c, p + q[1..]);
  }

  /**
   * An object is frozen all the way down exactly when `isDeepFrozen` says so
   * and no object it reaches by name has a symbol key that is an accessor or
   * leads to something that can change.
   */
  lemma SymbolsDecide(h: Objects, v: Address)
    requires v < |h|
    ensures FrozenThroughout(h, v) <==>
      DeepFrozen.DeepFrozen(h, v) && forall a: Address :: Reaches(Edges(h), v, a) ==> SymbolsHold(h, a)
  {
    hide SymbolSlots, OwnNamed, OwnAll, Reaches;
    if FrozenThroughout(h, v) {
      forall a: Address | Reaches(Edges(h), v, a) ensures !Changeable(h, a) && SymbolsHold(h, a) {
        ReachedIsPlain(h, v, a);
        NamedReachIsFull(h, v, a);
        OwnByKey(h[a]);
        assert !CanChange(h, a);
        forall slot | slot in SymbolSlots(h[a].properties)
          ensures slot.Data?
          ensures slot.value.Ref? && slot.value.at < |h| && IsPlain(h[slot.value.at]) ==> Unchanging(h, slot.value.at)
        {
          SymbolLeadsOn(h, v, a, slot);
        }
      }
    }
    if DeepFrozen.DeepFrozen(h, v) && forall a: Address :: Reaches(Edges(h), v, a) ==> SymbolsHold(h, a) {
      forall b: Address | Reaches(FullEdges(h), v, b) ensures !CanChange(h, b) {
        ReachedCannotChange(h, v, b);
      }
    }
  }

  lemma ReachedCannotChange(h: Objects, v: Address, b: Address)
    requires v < |h| && DeepFrozen.DeepFrozen(h, v) && Reaches(FullEdges(h), v, b)
    requires forall a: Address :: Reaches(Edges(h), v, a) ==> SymbolsHold(h, a)
    ensures !CanChange(h, b)
  {
    var path :| Path(FullEdges(h), v, b, path);
    NamesOrASymbol(h, v, b, path);
    if Reaches(Edges(h), v, b) {
      ReachedIsPlain(h, v, b);
      OwnByKey(h[b]);
      assert SymbolsHold(h, b) && !Changeable(h, b);
    }
  }

  /** Where no object reached by name has a symbol key, `isDeepFrozen` is exact. */
  lemma ExactWithoutSymbols(h: Objects, v: Address)
    requires v < |h| && forall a: Address :: Reaches(Edges(h), v, a) ==> a < |h| && SymbolSlots(h[a].properties) == []
    ensures FrozenThroughout(h, v) <==> DeepFrozen.DeepFrozen(h, v)
  {
    SymbolsDecide(h, v);
  }

  /** A changeable plain object behind a symbol key is not seen: the holder counts as deep-frozen and is not. */
  lemma SymbolKeysAreNotWalked(id: nat)
    ensures var inner := Object(PlainShape(false), [], [], false);
            var holder := Object(PlainShape(false), [], [Property(Symbol(id), Data(Ref(0)), true)], true);
            DeepFrozen.DeepFrozen([inner, holder], 1) && !FrozenThroughout([inner, holder], 1)
  {
    var inner := Object(PlainShape(false), [], [], false);
    var holder := Object(PlainShape(false), [], [Property(Symbol(id), Data(Ref(0)), true)], true);
    var h := [inner, holder];
    HolderSlots(Symbol(id));
    assert Closed(h, {1}) && AllFixed(h, {1});
    MemberIsDeepFrozen(h, {1}, 1);
    assert Data(Ref(0)) in OwnAll(holder) by {
      assert Slots(holder.properties)[0] == Data(Ref(0));
    }
    assert FullEdges(h)(1, 0) && CanChange(h, 0);
    ReachesSelf(FullEdges(h), 0);
    ReachesThrough(FullEdges(h), 1, 0, 0);
  }
}
