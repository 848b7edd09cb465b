/**
 * Whether a contract uses a key its module claims, at any depth of its
 * attribute tags and wildcard children (packages/core/src/contract-fields.ts,
 * `usesClaimed`).
 */
module ClaimedUse {
  import CopiedHeaps
  import opened GraphCopy
  import opened Heap
  import opened Wrappers

  datatype Claimed = Claimed(attribute: set<string>, tag: set<string>)

  /** The value of an object's own property of that name. */
  function Own(ps: seq<Property>, name: string): Option<Value> {
    if ps == [] then None
    else if ps[0].key == Named(name) then Some(ps[0].slot.value)
    else Own(ps[1..], name)
  }

  /** The object a field holds, if it holds one. */
  function ObjectAt(h: Objects, a: Address, name: string): Option<Address>
    requires a < |h|
  {
    var v := Own(h[a].properties, name);
    if v.Some? && v.value.Ref? && v.value.at < |h| then Some(v.value.at) else None
  }

  predicate OwnsAny(o: Object, keys: set<string>) { exists key <- keys :: Own(o.properties, key).Some? }

  function Values(ps: seq<Property>): seq<Value> {
    if ps == [] then [] else Values(ps[..|ps| - 1]) + [ps[|ps| - 1].slot.value]
  }

  /** `Object.values` of an object. */
  function ValuesOf(o: Object): seq<Value> { o.items + Values(EnumerableNamed(o.properties)) }

  /** `entriesOf`: an array's elements, anything else as it is. */
  function EntriesOf(h: Objects, v: Value): seq<Value> {
    if v.Ref? && v.at < |h| && h[v.at].shape.ArrayShape? then h[v.at].items else [v]
  }

  /** One of the contract's attributes owns a claimed attribute key. */
  predicate ClaimsAttribute(h: Objects, a: Address, claimed: Claimed)
    requires a < |h|
  {
    var attributes := ObjectAt(h, a, "attributes");
    attributes.Some? &&
    exists v <- ValuesOf(h[attributes.value]) :: v.Ref? && v.at < |h| && OwnsAny(h[v.at], claimed.attribute)
  }

  function TagEntries(h: Objects, ps: seq<Property>): seq<Value> {
    if ps == [] then []
    else
      var last := ps[|ps| - 1];
      TagEntries(h, ps[..|ps| - 1]) + if last.key == Named("*") then EntriesOf(h, last.slot.value)
        else [last.slot.value]
  }

  function WildcardChildren(h: Objects, a: Address): seq<Value>
    requires a < |h|
  {
    var children := ObjectAt(h, a, "children");
    var wildcard := if children.Some? then Own(h[children.value].properties, "*") else None;
    if wildcard.Some? then EntriesOf(h, wildcard.value) else []
  }

  function AttributeTags(h: Objects, a: Address): seq<Value>
    requires a < |h|
  {
    var tags := ObjectAt(h, a, "attributeTags");
    if tags.Some? then h[tags.value].items + TagEntries(h, EnumerableNamed(h[tags.value].properties)) else []
  }

  /** The contracts inside a contract: its wildcard children, then its attribute tags. */
  function Nested(h: Objects, a: Address): seq<Value>
    requires a < |h|
  {
    WildcardChildren(h, a) + AttributeTags(h, a)
  }

  ghost predicate Edge(h: Objects, a: Address, b: Address) { a < |h| && b < |h| && Ref(b) in Nested(h, a) }

  ghost function Edges(h: Objects): (Address, Address) -> bool { (a: Address, b: Address) => Edge(h, a, b) }

  /** A claimed tag key on the contract itself, or a claimed attribute key on it or a contract inside it. */
  ghost predicate Uses(h: Objects, at: Address, claimed: Claimed, top: bool)
    requires at < |h|
  {
    (top && OwnsAny(h[at], claimed.tag)) ||
    exists b: Address :: b < |h| && Reaches(Edges(h), at, b) && ClaimsAttribute(h, b, claimed)
  }

  // ---- a use, told of the properties alone

  /** The first of the properties with that name. */
  ghost predicate IsFirst(ps: seq<Property>, i: nat, name: string) {
    i < |ps| && ps[i].key == Named(name) && forall j :: 0 <= j < i ==> ps[j].key != Named(name)
  }

  ghost predicate Holds(o: Object, name: string, v: Value) {
    exists i: nat :: IsFirst(o.properties, i, name) && o.properties[i].slot.value == v
  }

  predicate HasKey(o: Object, keys: set<string>) { exists p <- o.properties :: p.key.Named? && p.key.name in keys }

  /** An element or the value of an enumerable field. */
  predicate Contains(o: Object, v: Value) {
    v in o.items || exists p <- o.properties :: p.enumerable && p.key.Named? && p.slot.value == v
  }

  /** The contract's `attributes` contain an object with a claimed attribute key. */
  ghost predicate HasClaimed(h: Objects, a: Address, claimed: Claimed)
    requires a < |h|
  {
    exists b: Address, c: Address :: b < |h| && c < |h| &&
      Holds(h[a], "attributes", Ref(b)) && Contains(h[b], Ref(c)) && HasKey(h[c], claimed.attribute)
  }

  /** An element of an array; the value itself when it is none. */
  ghost predicate IsEntry(h: Objects, v: Value, entry: Value) {
    if v.Ref? && v.at < |h| && h[v.at].shape.ArrayShape? then entry in h[v.at].items else entry == v
  }

  ghost predicate IsWildcardChild(h: Objects, a: Address, v: Value)
    requires a < |h|
  {
    exists b: Address, w: Value :: b < |h| && Holds(h[a], "children", Ref(b)) && Holds(h[b], "*", w) && IsEntry(h, w, v)
  }

  /** Named, or an entry under `*`. */
  ghost predicate IsTagOf(h: Objects, tags: Object, v: Value) {
    v in tags.items ||
    exists p <- tags.properties :: p.enumerable && p.key.Named? &&
      if p.key.name == "*" then IsEntry(h, p.slot.value, v) else p.slot.value == v
  }

  ghost predicate IsAttributeTag(h: Objects, a: Address, v: Value)
    requires a < |h|
  {
    exists b: Address :: b < |h| && Holds(h[a], "attributeTags", Ref(b)) && IsTagOf(h, h[b], v)
  }

  lemma {:induction false} OwnIsFirst(ps: seq<Property>, name: string)
    ensures Own(ps, name).None? <==> forall p <- ps :: p.key != Named(name)
    ensures Own(ps, name).Some? ==>
              exists i: nat :: IsFirst(ps, i, name) && ps[i].slot.value == Own(ps, name).value
  {
    if ps != [] {
      OwnIsFirst(ps[1..], name);
      if ps[0].key == Named(name) {
        assert IsFirst(ps, 0, name);
      } else if Own(ps, name).Some? {
        var i: nat :| IsFirst(ps[1..], i, name) && ps[1..][i].slot.value == Own(ps, name).value;
        assert IsFirst(ps, i + 1, name) && ps[i + 1] == ps[1..][i];
      }
    }
  }

  lemma OwnIsHeld(o: Object, name: string, v: Value)
    ensures Own(o.properties, name) == Some(v) <==> Holds(o, name, v)
  {
    hide Own;
    OwnIsFirst(o.properties, name);
    if Holds(o, name, v) {
      var i: nat :| IsFirst(o.properties, i, name) && o.properties[i].slot.value == v;
      assert o.properties[i] in o.properties;
      var k: nat :| IsFirst(o.properties, k, name) && o.properties[k].slot.value == Own(o.properties, name).value;
      assert i == k;
    }
  }

  lemma OwnsAnyIsKey(o: Object, keys: set<string>)
    ensures OwnsAny(o, keys) <==> HasKey(o, keys)
  {
    hide Own;
    forall key | key in keys
      ensures Own(o.properties, key).Some? <==> exists p <- o.properties :: p.key == Named(key)
    {
      OwnIsFirst(o.properties, key);
    }
    if HasKey(o, keys) {
      var p :| p in o.properties && p.key.Named? && p.key.name in keys;
      assert p.key == Named(p.key.name) && Own(o.properties, p.key.name).Some?;
    }
  }

  lemma {:induction false} ValuesAre(ps: seq<Property>, v: Value)
    ensures v in Values(ps) <==> exists p <- ps :: p.slot.value == v
  {
    if ps != [] {
      var n := |ps| - 1;
      ValuesAre(ps[..n], v);
      assert ps == ps[..n] + [ps[n]];
    }
  }

  lemma ValuesAreContained(o: Object, v: Value)
    ensures v in ValuesOf(o) <==> Contains(o, v)
  {
    ValuesAre(EnumerableNamed(o.properties), v);
    forall p ensures p in EnumerableNamed(o.properties) <==> p in o.properties && p.enumerable && p.key.Named? {
      CopiedHeaps.EntriesAreProperties(o.properties, p);
    }
  }

  lemma ClaimsExactly(h: Objects, a: Address, claimed: Claimed)
    requires a < |h|
    ensures ClaimsAttribute(h, a, claimed) <==> HasClaimed(h, a, claimed)
  {
    hide Own, OwnsAny, HasKey, ValuesOf, Contains, Holds;
    forall v: Value ensures Own(h[a].properties, "attributes") == Some(v) <==> Holds(h[a], "attributes", v) {
      OwnIsHeld(h[a], "attributes", v);
    }
    forall b: Address, v: Value | b < |h| ensures v in ValuesOf(h[b]) <==> Contains(h[b], v) {
      ValuesAreContained(h[b], v);
    }
    forall c: Address | c < |h| ensures OwnsAny(h[c], claimed.attribute) <==> HasKey(h[c], claimed.attribute) {
      OwnsAnyIsKey(h[c], claimed.attribute);
    }
    if HasClaimed(h, a, claimed) {
      var b: Address, c: Address :| b < |h| && c < |h| && Holds(h[a], "attributes", Ref(b)) && Contains(h[b], Ref(c)) &&
        HasKey(h[c], claimed.attribute);
      assert Own(h[a].properties, "attributes") == Some(Ref(b)) && Ref(c) in ValuesOf(h[b]);
    }
    if ClaimsAttribute(h, a, claimed) {
      var b := ObjectAt(h, a, "attributes").value;
      var v :| v in ValuesOf(h[b]) && v.Ref? && v.at < |h| && OwnsAny(h[v.at], claimed.attribute);
      assert Holds(h[a], "attributes", Ref(b)) && Contains(h[b], Ref(v.at));
    }
  }

  lemma {:induction false} TagEntriesAre(h: Objects, ps: seq<Property>, v: Value)
    ensures v in TagEntries(h, ps) <==>
      exists p <- ps :: if p.key == Named("*") then IsEntry(h, p.slot.value, v) else p.slot.value == v
  {
    if ps != [] {
      var n := |ps| - 1;
      TagEntriesAre(h, ps[..n], v);
      assert ps == ps[..n] + [ps[n]];
    }
  }

  lemma TagsAre(h: Objects, tags: Object, v: Value)
    ensures v in tags.items + TagEntries(h, EnumerableNamed(tags.properties)) <==> IsTagOf(h, tags, v)
  {
    hide IsEntry, TagEntries;
    TagEntriesAre(h, EnumerableNamed(tags.properties), v);
    forall p ensures p in EnumerableNamed(tags.properties) <==> p in tags.properties && p.enumerable && p.key.Named? {
      CopiedHeaps.EntriesAreProperties(tags.properties, p);
    }
  }

  lemma AttributeTagsAre(h: Objects, a: Address, v: Value)
    requires a < |h|
    ensures v in AttributeTags(h, a) <==> IsAttributeTag(h, a, v)
  {
    hide Own, Holds, TagEntries, IsTagOf;
    forall b: Address | b < |h|
      ensures v in h[b].items + TagEntries(h, EnumerableNamed(h[b].properties)) <==> IsTagOf(h, h[b], v)
      ensures Own(h[a].properties, "attributeTags") == Some(Ref(b)) <==> Holds(h[a], "attributeTags", Ref(b))
    {
      TagsAre(h, h[b], v);
      OwnIsHeld(h[a], "attributeTags", Ref(b));
    }
  }

  lemma WildcardChildrenAre(h: Objects, a: Address, v: Value)
    requires a < |h|
    ensures v in WildcardChildren(h, a) <==> IsWildcardChild(h, a, v)
  {
    hide Own, Holds;
    forall o: Object, name: string, w: Value ensures Own(o.properties, name) == Some(w) <==> Holds(o, name, w) {
      OwnIsHeld(o, name, w);
    }
    if IsWildcardChild(h, a, v) {
      var b: Address, w: Value :| b < |h| && Holds(h[a], "children", Ref(b)) && Holds(h[b], "*", w) && IsEntry(h, w, v);
      assert Own(h[a].properties, "children") == Some(Ref(b)) && Own(h[b].properties, "*") == Some(w);
    }
    if v in WildcardChildren(h, a) {
      var b := ObjectAt(h, a, "children").value;
      var w := Own(h[b].properties, "*").value;
      assert Holds(h[a], "children", Ref(b)) && Holds(h[b], "*", w) && IsEntry(h, w, v);
    }
  }

  /** From a contract to one inside it. */
  ghost predicate Leads(h: Objects, from: Address, to': Address) {
    from < |h| && to' < |h| && (IsWildcardChild(h, from, Ref(to')) || IsAttributeTag(h, from, Ref(to')))
  }

  /** From a contract to one inside it that has a claimed attribute. */
  ghost predicate FindsClaimed(h: Objects, at: Address, claimed: Claimed, way: seq<Address>) {
    |way| > 0 && way[0] == at && way[|way| - 1] < |h| && HasClaimed(h, way[|way| - 1], claimed) &&
    forall i :: 0 <= i < |way| - 1 ==> Leads(h, way[i], way[i + 1])
  }

  /** A contract uses a claimed key when it owns a claimed tag key, or some way inwards ends at a claimed attribute. */
  lemma UsesExactly(h: Objects, at: Address, claimed: Claimed)
    requires at < |h|
    ensures Uses(h, at, claimed, true) <==>
      HasKey(h[at], claimed.tag) || exists way: seq<Address> :: FindsClaimed(h, at, claimed, way)
  {
    hide WildcardChildren, AttributeTags, IsWildcardChild, IsAttributeTag, HasClaimed, ClaimsAttribute, HasKey, OwnsAny;
    OwnsAnyIsKey(h[at], claimed.tag);
    forall a: Address, b: Address ensures Edge(h, a, b) <==> Leads(h, a, b) {
      if a < |h| {
        WildcardChildrenAre(h, a, Ref(b));
        AttributeTagsAre(h, a, Ref(b));
      }
    }
    forall a: Address | a < |h| ensures ClaimsAttribute(h, a, claimed) <==> HasClaimed(h, a, claimed) {
      ClaimsExactly(h, a, claimed);
    }
    if way: seq<Address> :| FindsClaimed(h, at, claimed, way) {
      assert Path(Edges(h), at, way[|way| - 1], way);
    }
    if b: Address :| b < |h| && Reaches(Edges(h), at, b) && ClaimsAttribute(h, b, claimed) {
      var way :| Path(Edges(h), at, b, way);
      assert forall i :: 0 <= i < |way| - 1 ==> Edges(h)(way[i], way[i + 1]);
      assert FindsClaimed(h, at, claimed, way);
    }
  }

  /** One search: `path` is every contract it has come to. */
  class Search {
    const heap: Objects
    const claimed: Claimed
    var path: set<Address>

    constructor (heap: Objects, claimed: Claimed)
      ensures this.heap == heap && this.claimed == claimed && path == {}
    {
      this.heap, this.claimed, path := heap, claimed, {};
    }

    /** What the search has done with `a`: nothing claimed on it, and it came to all inside it. */
    ghost predicate Done(a: Address)
      reads this
    {
      a < |heap| && !ClaimsAttribute(heap, a, claimed) && forall b :: Edge(heap, a, b) ==> b in path
    }

    method UsesClaimed(declaration: Value, top: bool) returns (used: bool)
      requires path <= Below(|heap|)
      modifies this`path
      ensures path <= Below(|heap|) && old(path) <= path
      ensures used ==> declaration.Ref? && declaration.at < |heap| && Uses(heap, declaration.at, claimed, top)
      ensures !used && declaration.Ref? && declaration.at < |heap| ==>
                declaration.at in path &&
                (top && declaration.at !in old(path) ==> !OwnsAny(heap[declaration.at], claimed.tag))
      ensures !used ==> forall a <- path - old(path) :: Done(a)
      decreases Below(|heap|) - path, 0
    {
      if !declaration.Ref? || declaration.at >= |heap| { return false; }
      var at := declaration.at;
      if at in path { return false; }
      hide Nested, ClaimsAttribute, OwnsAny, Uses, Reaches;
      path := path + {at};
      OwnIsUsed(at);
      if top && OwnsAny(heap[at], claimed.tag) { return true; }
      if ClaimsAttribute(heap, at, claimed) { return true; }
      ghost var start := path;
      used := SomeUses(Nested(heap, at));
      if used {
        InsideIsUsed(at);
      } else {
        InsideIsDone(at);
        assert path - old(path) <= (path - start) + {at};
      }
    }

    /** `nested.some(...)`: the entries in order, until one uses a claimed key. */
    method SomeUses(nested: seq<Value>) returns (used: bool)
      requires path <= Below(|heap|)
      modifies this`path
      ensures path <= Below(|heap|) && old(path) <= path
      ensures used ==> exists v <- nested :: v.Ref? && v.at < |heap| && Uses(heap, v.at, claimed, false)
      ensures !used ==> forall v <- nested :: v.Ref? && v.at < |heap| ==> v.at in path
      ensures !used ==> forall a <- path - old(path) :: Done(a)
      decreases Below(|heap|) - path, 1
    {
      hide Uses, Edge, ClaimsAttribute;
      used := false;
      for k := 0 to |nested|
        invariant !used && path <= Below(|heap|) && old(path) <= path
        invariant forall i :: 0 <= i < k && nested[i].Ref? && nested[i].at < |heap| ==> nested[i].at in path
        invariant forall a <- path - old(path) :: Done(a)
      {
        label Before:
        used := UsesClaimed(nested[k], false);
        if used { return true; }
        forall a | a in path - old(path) ensures Done(a) {
          if a in old@Before(path) { assert old@Before(Done(a)); }
        }
      }
    }

    lemma InsideIsDone(a: Address)
      requires a < |heap| && !ClaimsAttribute(heap, a, claimed)
      requires forall v <- Nested(heap, a) :: v.Ref? && v.at < |heap| ==> v.at in path
      ensures Done(a)
    {
    }

    lemma OwnIsUsed(a: Address)
      requires a < |heap|
      ensures OwnsAny(heap[a], claimed.tag) ==> Uses(heap, a, claimed, true)
      ensures ClaimsAttribute(heap, a, claimed) ==> forall top :: Uses(heap, a, claimed, top)
    {
      ReachesSelf(Edges(heap), a);
    }

    lemma InsideIsUsed(a: Address)
      requires a < |heap|
      requires exists v <- Nested(heap, a) :: v.Ref? && v.at < |heap| && Uses(heap, v.at, claimed, false)
      ensures forall top :: Uses(heap, a, claimed, top)
    {
      var v :| v in Nested(heap, a) && v.Ref? && v.at < |heap| && Uses(heap, v.at, claimed, false);
      var c: Address :| c < |heap| && Reaches(Edges(heap), v.at, c) && ClaimsAttribute(heap, c, claimed);
      assert Edges(heap)(a, v.at);
      ReachesThrough(Edges(heap), a, v.at, c);
    }

    /** A search that found nothing has come to every contract inside, and none uses a claimed key. */
    lemma NothingUsed(at: Address)
      requires at < |heap| && at in path && forall a <- path :: Done(a)
      ensures forall b: Address :: b < |heap| && Reaches(Edges(heap), at, b) ==> !ClaimsAttribute(heap, b, claimed)
    {
      forall b: Address | b < |heap| && Reaches(Edges(heap), at, b) ensures !ClaimsAttribute(heap, b, claimed) {
        var way :| Path(Edges(heap), at, b, way);
        ClosedHoldsReachable(Edges(heap), path, at, b, way);
        assert Done(b);
      }
    }
  }

  /** `usesClaimed` on a whole contract: exact on every graph of contracts, cycles included. */
  method UsesClaimed(heap: Objects, declaration: Value, claimed: Claimed) returns (used: bool)
    ensures used <==> declaration.Ref? && declaration.at < |heap| && Uses(heap, declaration.at, claimed, true)
  {
    var search := new Search(heap, claimed);
    used := search.UsesClaimed(declaration, true);
    if !used && declaration.Ref? && declaration.at < |heap| {
      search.NothingUsed(declaration.at);
    }
  }
}
