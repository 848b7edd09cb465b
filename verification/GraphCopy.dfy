/**
 * What a memoised copy of an object graph must be, for both copies core makes:
 * the private copy of IR and the frozen copy of contract data.
 */
module GraphCopy {
  import opened Heap
  import opened Wrappers

  /** How a value is reached: as IR, inside a parser node, or as something shared by reference. */
  datatype Mode = Ir | Node | Shared

  /** Which copy: `cloneIr` with its `nodes` option, or `frozenCopy`. */
  datatype Kind = Clone(nodes: bool) | Frozen

  predicate IsParserKey(key: Key) {
    key == Named("node") || key == Named("paramNodes") || key == Named("forward")
  }

  /** The mode of the value under `key` of an object reached in `mode`. */
  function ChildMode(kind: Kind, mode: Mode, key: Key): Mode {
    if kind.Clone? && mode == Ir && IsParserKey(key) then (if kind.nodes then Node else Shared) else mode
  }

  /** An object reached in `mode` gets a copy; anything else is kept by reference. */
  predicate Copied(kind: Kind, o: Object, mode: Mode) {
    match kind
    case Frozen => mode != Shared && IsPlain(o)
    case Clone(_) => mode != Shared && (IsPlain(o) || (mode == Node && o.shape.Instance?))
  }

  function EnumerableNamed(ps: seq<Property>): seq<Property> {
    if ps == [] then []
    else EnumerableNamed(ps[..|ps| - 1]) +
         (if ps[|ps| - 1].enumerable && ps[|ps| - 1].key.Named? then [ps[|ps| - 1]] else [])
  }

  /** The properties the copy takes over besides array elements: `cloneIr` takes an array's elements alone. */
  function Entries(kind: Kind, o: Object): seq<Property> {
    if kind.Clone? && o.shape.ArrayShape? then [] else EnumerableNamed(o.properties)
  }

  /**
   * The graph being copied. `modes` says in which one mode each object to copy
   * is reached; it is closed under the fields a copy follows.
   */
  datatype Graph = Graph(kind: Kind, original: Objects, modes: map<Address, Mode>) {

    /**
     * A value reached in `mode` is shared, or an object `modes` knows in that
     * very mode, or an object no mode copies.
     */
    predicate Known(v: Value, mode: Mode) {
      v.Ref? ==> v.at < |original| && (mode != Shared ==>
        if Copied(kind, original[v.at], mode) then v.at in modes && modes[v.at] == mode else v.at !in modes)
    }

    ghost predicate Valid() {
      forall a <- modes :: a < |original| && Copied(kind, original[a], modes[a]) && FieldsKnown(a) &&
        (!original[a].shape.ArrayShape? ==> original[a].items == [])
    }

    ghost predicate FieldsKnown(a: Address)
      requires a in modes && a < |original|
    {
      (forall v <- original[a].items :: Known(v, modes[a])) &&
      forall p <- Entries(kind, original[a]) :: Known(p.slot.value, ChildMode(kind, modes[a], p.key))
    }

    /** `w` is what `v`, reached in `mode`, is in the copy. */
    predicate IsImage(copies: map<Address, Address>, v: Value, mode: Mode, w: Value) {
      if v.Ref? && v.at < |original| && Copied(kind, original[v.at], mode) then
        v.at in copies && w == Ref(copies[v.at])
      else w == v
    }

    ghost predicate ItemsImage(copies: map<Address, Address>, a: Address, count: nat, items: seq<Value>)
      requires a in modes && a < |original| && count <= |original[a].items|
    {
      |items| == count && forall k :: 0 <= k < count ==> IsImage(copies, original[a].items[k], modes[a], items[k])
    }

    ghost predicate EntriesImage(copies: map<Address, Address>, a: Address, count: nat, properties: seq<Property>)
      requires a in modes && a < |original| && count <= |Entries(kind, original[a])|
    {
      |properties| == count && forall k :: 0 <= k < count ==>
        var p := Entries(kind, original[a])[k];
        properties[k].key == p.key && properties[k].enumerable && properties[k].slot.Data? &&
        IsImage(copies, p.slot.value, ChildMode(kind, modes[a], p.key), properties[k].slot.value)
    }

    /** `o` is the finished copy of `a`: the same shape, and every field the image of `a`'s. */
    ghost predicate IsCopy(copies: map<Address, Address>, a: Address, o: Object)
      requires a in modes && a < |original|
    {
      o.shape == original[a].shape && o.frozen == kind.Frozen? &&
      ItemsImage(copies, a, |original[a].items|, o.items) &&
      EntriesImage(copies, a, |Entries(kind, original[a])|, o.properties)
    }

    /** The copy so far: the original untouched, and one new object for each address in `copies`. */
    ghost predicate Sound(heap: Objects, copies: map<Address, Address>) {
      Valid() && |original| <= |heap| && heap[..|original|] == original &&
      (forall a <- copies :: a in modes && |original| <= copies[a] < |heap|) &&
      (forall a, b :: a in copies && b in copies && copies[a] == copies[b] ==> a == b) &&
      forall i: nat :: |original| <= i < |heap| ==> IsCopyAddress(copies, i)
    }

    ghost predicate IsCopyAddress(copies: map<Address, Address>, i: Address) { exists a <- copies :: copies[a] == i }

    ghost predicate Finished(heap: Objects, copies: map<Address, Address>, a: Address) {
      a in copies && a in modes && a < |original| && copies[a] < |heap| && IsCopy(copies, a, heap[copies[a]])
    }

    /** A copy follows a field of `a` to `b`. */
    ghost predicate Follows(a: Address, b: Address) {
      a in modes && a < |original| && b < |original| &&
      ((Ref(b) in original[a].items && Copied(kind, original[b], modes[a])) ||
       exists p <- Entries(kind, original[a]) ::
         p.slot.value == Ref(b) && Copied(kind, original[b], ChildMode(kind, modes[a], p.key)))
    }

    ghost function Edges(): (Address, Address) -> bool { (a: Address, b: Address) => Follows(a, b) }

    ghost function Pending(copies: map<Address, Address>): set<Address> { modes.Keys - copies.Keys }

    /** Nothing that was there has changed, and what is new is finished and reached from `v`. */
    ghost predicate Grown(
        heap0: Objects, copies0: map<Address, Address>, heap: Objects, copies: map<Address, Address>, v: Value)
    {
      Sound(heap, copies) && |heap0| <= |heap| && heap[..|heap0|] == heap0 &&
      (forall a <- copies0 :: a in copies && copies[a] == copies0[a]) &&
      forall a <- copies :: a !in copies0 ==>
        Finished(heap, copies, a) && |heap0| <= copies[a] && v.Ref? && Reaches(Edges(), v.at, a)
    }

    /** As `Grown`, while the copy of `a` is being filled. */
    ghost predicate Underway(
        heap0: Objects, copies0: map<Address, Address>, heap: Objects, copies: map<Address, Address>, a: Address)
    {
      Sound(heap, copies) && a in copies && a !in copies0 && copies[a] == |heap0| < |heap| &&
      heap[..|heap0|] == heap0 &&
      (forall b <- copies0 :: b in copies && copies[b] == copies0[b]) &&
      forall b <- copies :: b !in copies0 && b != a ==>
        Finished(heap, copies, b) && |heap0| < copies[b] && Reaches(Edges(), a, b)
    }

    lemma OriginalThere(heap: Objects, copies: map<Address, Address>, a: Address)
      requires Sound(heap, copies) && a < |original|
      ensures a < |heap| && heap[a] == original[a]
      ensures a in modes ==> Copied(kind, original[a], modes[a]) && FieldsKnown(a)
      ensures a in modes && !original[a].shape.ArrayShape? ==> original[a].items == []
    {
      assert heap[..|original|][a] == original[a];
    }

    lemma UnderwayFacts(
        heap0: Objects, copies0: map<Address, Address>, heap: Objects, copies: map<Address, Address>, a: Address)
      requires Underway(heap0, copies0, heap, copies, a)
      ensures Sound(heap, copies) && a in copies && copies[a] == |heap0| < |heap|
      ensures Pending(copies) < Pending(copies0) || a !in modes
    {
    }

    lemma Begins(heap0: Objects, copies0: map<Address, Address>, a: Address, o: Object)
      requires Sound(heap0, copies0) && a in modes && a !in copies0
      ensures Underway(heap0, copies0, heap0 + [o], copies0[a := |heap0|], a)
    {
      var heap, copies := heap0 + [o], copies0[a := |heap0|];
      assert heap[..|original|] == heap0[..|original|];
      forall i: nat | |original| <= i < |heap| ensures IsCopyAddress(copies, i) {
        if i < |heap0| {
          assert IsCopyAddress(copies0, i);
          var b :| b in copies0 && copies0[b] == i;
          assert b in copies && copies[b] == i;
        } else {
          assert a in copies && copies[a] == i;
        }
      }
    }

    lemma FinishedStays(
        heap1: Objects, copies1: map<Address, Address>, heap2: Objects, copies2: map<Address, Address>, b: Address)
      requires Finished(heap1, copies1, b)
      requires forall x <- copies1 :: x in copies2 && copies2[x] == copies1[x]
      requires copies1[b] < |heap2| && heap2[copies1[b]] == heap1[copies1[b]]
      ensures Finished(heap2, copies2, b)
    {
    }

    /** A recursive call on a field of `a` leaves the copy of `a` underway, and its object as it was. */
    lemma ChildCopied(
        heap0: Objects, copies0: map<Address, Address>, heap1: Objects, copies1: map<Address, Address>,
        heap2: Objects, copies2: map<Address, Address>, a: Address, v: Value)
      requires Underway(heap0, copies0, heap1, copies1, a)
      requires Grown(heap1, copies1, heap2, copies2, v)
      requires copies2 != copies1 ==> v.Ref? && Follows(a, v.at)
      ensures Underway(heap0, copies0, heap2, copies2, a)
      ensures heap2[copies2[a]] == heap1[copies1[a]]
    {
      assert heap2[..|heap0|] == heap2[..|heap1|][..|heap0|];
      assert heap2[copies2[a]] == heap2[..|heap1|][copies2[a]];
      forall b | b in copies2 && b !in copies0 && b != a
        ensures Finished(heap2, copies2, b) && |heap0| < copies2[b] && Reaches(Edges(), a, b)
      {
        if b in copies1 {
          assert heap2[copies1[b]] == heap2[..|heap1|][copies1[b]];
          FinishedStays(heap1, copies1, heap2, copies2, b);
        } else {
          assert Edges()(a, v.at);
          ReachesThrough(Edges(), a, v.at, b);
        }
      }
    }

    /** Writing into the object being filled disturbs nothing else. */
    lemma FillStays(
        heap0: Objects, copies0: map<Address, Address>, heap: Objects, copies: map<Address, Address>, a: Address,
        o: Object)
      requires Underway(heap0, copies0, heap, copies, a)
      ensures Underway(heap0, copies0, heap[copies[a] := o], copies, a)
    {
      var next := heap[copies[a] := o];
      assert next[..|original|] == heap[..|original|];
      assert next[..|heap0|] == heap[..|heap0|];
      forall b | b in copies && b !in copies0 && b != a
        ensures Finished(next, copies, b)
      {
        FinishedStays(heap, copies, next, copies, b);
      }
    }

    lemma Ends(heap0: Objects, copies0: map<Address, Address>, heap: Objects, copies: map<Address, Address>, a: Address)
      requires Underway(heap0, copies0, heap, copies, a) && IsCopy(copies, a, heap[copies[a]])
      ensures Grown(heap0, copies0, heap, copies, Ref(a))
    {
      ReachesSelf(Edges(), a);
    }

    lemma ItemsGrow(
        copies1: map<Address, Address>, copies2: map<Address, Address>, a: Address, count: nat, items: seq<Value>)
      requires a in modes && a < |original| && count <= |original[a].items| && ItemsImage(copies1, a, count, items)
      requires forall b <- copies1 :: b in copies2 && copies2[b] == copies1[b]
      ensures ItemsImage(copies2, a, count, items)
    {
    }

    lemma EntriesGrow(
        copies1: map<Address, Address>, copies2: map<Address, Address>, a: Address, count: nat,
        properties: seq<Property>)
      requires a in modes && a < |original| && count <= |Entries(kind, original[a])|
      requires EntriesImage(copies1, a, count, properties)
      requires forall b <- copies1 :: b in copies2 && copies2[b] == copies1[b]
      ensures EntriesImage(copies2, a, count, properties)
    {
    }

    lemma GrownKeepsImages(
        heap0: Objects, copies0: map<Address, Address>, heap: Objects, copies: map<Address, Address>, v: Value)
      requires Grown(heap0, copies0, heap, copies, v)
      ensures forall b <- copies0 :: b in copies && copies[b] == copies0[b]
    {
    }

    lemma ItemFollowed(a: Address, k: nat)
      requires a in modes && a < |original| && k < |original[a].items|
      ensures var v := original[a].items[k];
              v.Ref? && v.at < |original| && Copied(kind, original[v.at], modes[a]) ==> Follows(a, v.at)
    {
    }

    lemma OneMoreItem(copies: map<Address, Address>, a: Address, k: nat, items: seq<Value>, item: Value)
      requires a in modes && a < |original| && k < |original[a].items| &&
        IsImage(copies, original[a].items[k], modes[a], item)
      ensures ItemsImage(copies, a, k, items) ==> ItemsImage(copies, a, k + 1, items + [item])
    {
      hide IsImage;
    }

    lemma EntryFollowed(a: Address, k: nat)
      requires a in modes && a < |original| && k < |Entries(kind, original[a])|
      ensures var p := Entries(kind, original[a])[k];
              var v := p.slot.value;
              v.Ref? && v.at < |original| && Copied(kind, original[v.at], ChildMode(kind, modes[a], p.key)) ==>
                Follows(a, v.at)
    {
      assert Entries(kind, original[a])[k] in Entries(kind, original[a]);
    }

    lemma OneMoreEntry(copies: map<Address, Address>, a: Address, k: nat, properties: seq<Property>, child: Value)
      requires a in modes && a < |original| && k < |Entries(kind, original[a])|
      requires var p := Entries(kind, original[a])[k];
               IsImage(copies, p.slot.value, ChildMode(kind, modes[a], p.key), child)
      ensures EntriesImage(copies, a, k, properties) ==>
                EntriesImage(
                  copies, a, k + 1, properties + [Property(Entries(kind, original[a])[k].key, Data(child), true)])
    {
      hide IsImage, Entries;
    }

    /** One more element in place. */
    lemma ItemFilled(
        heap0: Objects, copies0: map<Address, Address>, heap1: Objects, copies1: map<Address, Address>,
        heap2: Objects, copies2: map<Address, Address>, a: Address, k: nat, item: Value)
      requires a in modes && a < |original| && k < |original[a].items|
      requires Underway(heap0, copies0, heap1, copies1, a) && ItemsImage(copies1, a, k, heap1[copies1[a]].items)
      requires var v := original[a].items[k];
               Grown(heap1, copies1, heap2, copies2, v) && IsImage(copies2, v, modes[a], item) &&
               (copies2 != copies1 ==> v.Ref? && v.at < |original| && Copied(kind, original[v.at], modes[a]))
      ensures a in copies2 && copies2[a] < |heap2| && heap2[copies2[a]] == heap1[copies1[a]]
      ensures var o := heap2[copies2[a]];
              var filled := o.(items := o.items + [item]);
              Underway(heap0, copies0, heap2[copies2[a] := filled], copies2, a) &&
              ItemsImage(copies2, a, k + 1, filled.items)
    {
      hide Underway, Grown, ItemsImage, IsImage, Follows, Copied;
      var v := original[a].items[k];
      UnderwayFacts(heap0, copies0, heap1, copies1, a);
      ItemFollowed(a, k);
      ChildCopied(heap0, copies0, heap1, copies1, heap2, copies2, a, v);
      GrownKeepsImages(heap1, copies1, heap2, copies2, v);
      UnderwayFacts(heap0, copies0, heap2, copies2, a);
      ItemsGrow(copies1, copies2, a, k, heap1[copies1[a]].items);
      OneMoreItem(copies2, a, k, heap1[copies1[a]].items, item);
      var o := heap2[copies2[a]];
      FillStays(heap0, copies0, heap2, copies2, a, o.(items := o.items + [item]));
    }

    /** One more property in place. */
    lemma EntryFilled(
        heap0: Objects, copies0: map<Address, Address>, heap1: Objects, copies1: map<Address, Address>,
        heap2: Objects, copies2: map<Address, Address>, a: Address, k: nat, child: Value)
      requires a in modes && a < |original| && k < |Entries(kind, original[a])|
      requires Underway(heap0, copies0, heap1, copies1, a) && EntriesImage(copies1, a, k, heap1[copies1[a]].properties)
      requires var p := Entries(kind, original[a])[k];
               var v, mode := p.slot.value, ChildMode(kind, modes[a], p.key);
               Grown(heap1, copies1, heap2, copies2, v) && IsImage(copies2, v, mode, child) &&
               (copies2 != copies1 ==> v.Ref? && v.at < |original| && Copied(kind, original[v.at], mode))
      ensures a in copies2 && copies2[a] < |heap2| && heap2[copies2[a]] == heap1[copies1[a]]
      ensures var o := heap2[copies2[a]];
              var filled :=
                o.(properties := o.properties + [Property(Entries(kind, original[a])[k].key, Data(child), true)]);
              Underway(heap0, copies0, heap2[copies2[a] := filled], copies2, a) &&
              EntriesImage(copies2, a, k + 1, filled.properties)
    {
      hide Underway, Grown, EntriesImage, IsImage, Follows, Copied, Entries, ChildMode;
      var p := Entries(kind, original[a])[k];
      UnderwayFacts(heap0, copies0, heap1, copies1, a);
      EntryFollowed(a, k);
      ChildCopied(heap0, copies0, heap1, copies1, heap2, copies2, a, p.slot.value);
      GrownKeepsImages(heap1, copies1, heap2, copies2, p.slot.value);
      UnderwayFacts(heap0, copies0, heap2, copies2, a);
      OneMoreEntry(copies2, a, k, heap1[copies1[a]].properties, child);
      EntriesGrow(copies1, copies2, a, k, heap1[copies1[a]].properties);
      var o := heap2[copies2[a]];
      FillStays(heap0, copies0, heap2, copies2, a,
        o.(properties := o.properties + [Property(p.key, Data(child), true)]));
    }

    // ---- what a finished copy is

    ghost predicate Complete(heap: Objects, copies: map<Address, Address>) {
      Sound(heap, copies) && forall a <- copies :: Finished(heap, copies, a)
    }

    lemma FollowedIsCopied(heap: Objects, copies: map<Address, Address>, a: Address, b: Address)
      requires Finished(heap, copies, a) && Follows(a, b)
      ensures b in copies
    {
      if Ref(b) in original[a].items && Copied(kind, original[b], modes[a]) {
        var k :| 0 <= k < |original[a].items| && original[a].items[k] == Ref(b);
        assert IsImage(copies, original[a].items[k], modes[a], heap[copies[a]].items[k]);
      } else {
        var entries := Entries(kind, original[a]);
        var k :| 0 <= k < |entries| && entries[k].slot.value == Ref(b) &&
                 Copied(kind, original[b], ChildMode(kind, modes[a], entries[k].key));
        assert IsImage(copies, entries[k].slot.value, ChildMode(kind, modes[a], entries[k].key),
          heap[copies[a]].properties[k].slot.value);
      }
    }

    /** Copied objects are exactly those the copy's fields reach from a copied object. */
    lemma CopiesEverythingReached(heap: Objects, copies: map<Address, Address>, a: Address, b: Address)
      requires Complete(heap, copies) && a in copies && Reaches(Edges(), a, b)
      ensures b in copies
    {
      var path :| Path(Edges(), a, b, path);
      forall x, y | x in copies.Keys && Edges()(x, y) ensures y in copies.Keys {
        FollowedIsCopied(heap, copies, x, y);
      }
      ClosedHoldsReachable(Edges(), copies.Keys, a, b, path);
    }

    function Read(h: Objects, v: Value, field: Field): Option<Value> {
      if v.Primitive? || v.at >= |h| then None
      else match field
        case Item(k) => if k < |h[v.at].items| then Some(h[v.at].items[k]) else None
        case Entry(k) =>
          var entries := Entries(kind, h[v.at]);
          if k < |entries| then Some(entries[k].slot.value) else None
    }

    /** In which mode a field of `v` is reached; past an object kept by reference, everything is shared. */
    function ModeAfter(v: Value, mode: Mode, field: Field): Mode {
      if v.Primitive? || v.at >= |original| || !Copied(kind, original[v.at], mode) then Shared
      else match field
        case Item(_) => mode
        case Entry(k) =>
          var entries := Entries(kind, original[v.at]);
          if k < |entries| then ChildMode(kind, mode, entries[k].key) else Shared
    }

    function Walk(h: Objects, v: Value, path: seq<Field>): Option<Value>
      decreases |path|
    {
      if path == [] then Some(v)
      else match Read(h, v, path[0]) case None => None case Some(next) => Walk(h, next, path[1..])
    }

    function ModeAlong(v: Value, mode: Mode, path: seq<Field>): Mode
      decreases |path|
    {
      if path == [] then mode
      else match Read(original, v, path[0])
        case None => Shared
        case Some(next) => ModeAlong(next, ModeAfter(v, mode, path[0]), path[1..])
    }

    /** The copy lists as entries what it was given. */
    lemma CopyEntries(copies: map<Address, Address>, a: Address, o: Object)
      requires a in modes && a < |original| && IsCopy(copies, a, o)
      ensures Entries(kind, o) == o.properties
    {
      forall k | 0 <= k < |o.properties| ensures o.properties[k].key.Named? {
        EntriesNamed(original[a].properties);
        assert Entries(kind, original[a])[k] in Entries(kind, original[a]);
      }
      AllEnumerableNamed(o.properties);
    }

    lemma ReadAgrees(heap: Objects, copies: map<Address, Address>, v: Value, mode: Mode, w: Value, field: Field)
      requires Complete(heap, copies) && ValidHeap(original) && Known(v, mode) && IsImage(copies, v, mode, w)
      ensures Read(original, v, field).Some? <==> Read(heap, w, field).Some?
      ensures Read(original, v, field).Some? ==>
                var next := Read(original, v, field).value;
                Known(next, ModeAfter(v, mode, field)) &&
                IsImage(copies, next, ModeAfter(v, mode, field), Read(heap, w, field).value)
    {
      if v.Ref? {
        var a := v.at;
        assert original[a] in original && ObjectInHeap(original, original[a]);
        if field.Entry? && field.k < |Entries(kind, original[a])| {
          assert Entries(kind, original[a])[field.k] in Entries(kind, original[a]);
        }
        if field.Item? && field.k < |original[a].items| {
          assert original[a].items[field.k] in original[a].items;
        }
        if Copied(kind, original[a], mode) {
          assert Finished(heap, copies, a) && FieldsKnown(a);
          CopyEntries(copies, a, heap[copies[a]]);
        } else {
          OriginalThere(heap, copies, a);
          EntriesInHeap(original, original[a].properties);
        }
      }
    }

    /**
     * Reading along any path, through sharing and cycles alike, gives in the
     * copy the image of what it gives in the original: the copy of an object
     * that is copied, and the very same value otherwise.
     */
    lemma {:induction false} WalksAgree(
        heap: Objects, copies: map<Address, Address>, v: Value, mode: Mode, w: Value, path: seq<Field>)
      requires Complete(heap, copies) && ValidHeap(original) && Known(v, mode) && IsImage(copies, v, mode, w)
      ensures Walk(original, v, path).Some? <==> Walk(heap, w, path).Some?
      ensures Walk(original, v, path).Some? ==>
                IsImage(copies, Walk(original, v, path).value, ModeAlong(v, mode, path), Walk(heap, w, path).value)
      decreases |path|
    {
      if path != [] {
        ReadAgrees(heap, copies, v, mode, w, path[0]);
        if Read(original, v, path[0]).Some? {
          WalksAgree(heap, copies, Read(original, v, path[0]).value, ModeAfter(v, mode, path[0]),
                     Read(heap, w, path[0]).value, path[1..]);
        }
      }
    }

    /** Two paths to copied objects meet in the copy exactly when they meet in the original. */
    lemma SharingIsKept(
        heap: Objects, copies: map<Address, Address>, v: Value, mode: Mode, w: Value, p: seq<Field>, q: seq<Field>)
      requires Complete(heap, copies) && ValidHeap(original) && Known(v, mode) && IsImage(copies, v, mode, w)
      requires Walk(original, v, p).Some? && Walk(original, v, p).value.Ref? && Walk(original, v, p).value.at in copies
      requires Walk(original, v, q).Some? && Walk(original, v, q).value.Ref? && Walk(original, v, q).value.at in copies
      requires ModeAlong(v, mode, p) != Shared && ModeAlong(v, mode, q) != Shared
      ensures Walk(original, v, p) == Walk(original, v, q) <==> Walk(heap, w, p) == Walk(heap, w, q)
    {
      WalksAgree(heap, copies, v, mode, w, p);
      WalksAgree(heap, copies, v, mode, w, q);
      WalkKnown(heap, copies, v, mode, w, p);
      WalkKnown(heap, copies, v, mode, w, q);
    }

    lemma {:induction false} WalkKnown(
        heap: Objects, copies: map<Address, Address>, v: Value, mode: Mode, w: Value, path: seq<Field>)
      requires Complete(heap, copies) && ValidHeap(original) && Known(v, mode) && IsImage(copies, v, mode, w)
      ensures Walk(original, v, path).Some? ==> Known(Walk(original, v, path).value, ModeAlong(v, mode, path))
      decreases |path|
    {
      if path != [] {
        ReadAgrees(heap, copies, v, mode, w, path[0]);
        if Read(original, v, path[0]).Some? {
          WalkKnown(heap, copies, Read(original, v, path[0]).value, ModeAfter(v, mode, path[0]),
                    Read(heap, w, path[0]).value, path[1..]);
        }
      }
    }
  }

  /** A step of an access path: an array element, or an enumerable property by position. */
  datatype Field = Item(k: nat) | Entry(k: nat)

  lemma {:induction false} EntriesNamed(ps: seq<Property>)
    ensures forall p <- EnumerableNamed(ps) :: p.key.Named?
  {
    if ps != [] {
      EntriesNamed(ps[..|ps| - 1]);
    }
  }

  lemma {:induction false} EntriesInHeap(h: Objects, ps: seq<Property>)
    requires forall p <- ps :: InHeap(h, p.slot.value)
    ensures forall p <- EnumerableNamed(ps) :: InHeap(h, p.slot.value)
  {
    if ps != [] {
      var n := |ps| - 1;
      assert ps[n] in ps && forall p <- ps[..n] :: p in ps;
      EntriesInHeap(h, ps[..n]);
    }
  }

  lemma {:induction false} AllEnumerableNamed(ps: seq<Property>)
    requires forall k :: 0 <= k < |ps| ==> ps[k].enumerable && ps[k].key.Named?
    ensures EnumerableNamed(ps) == ps
  {
    if ps != [] {
      AllEnumerableNamed(ps[..|ps| - 1]);
      assert ps == ps[..|ps| - 1] + [ps[|ps| - 1]];
    }
  }
}
