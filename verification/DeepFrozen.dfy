/**
 * Whether a value is frozen all the way down, with the module-wide memo of
 * positive answers (packages/core/src/deep-frozen.ts).
 */
module DeepFrozen {
  import opened Heap

  /** The own properties `Object.getOwnPropertyNames` lists, in order: elements, then named ones; no symbol keys. */
  function OwnNamed(o: Object): seq<Slot> {
    seq(|o.items|, i requires 0 <= i < |o.items| => Data(o.items[i])) + NamedSlots(o.properties)
  }

  function NamedSlots(ps: seq<Property>): seq<Slot> {
    if ps == [] then [] else (if ps[0].key.Named? then [ps[0].slot] else []) + NamedSlots(ps[1..])
  }

  predicate HasAccessor(o: Object) { exists slot <- OwnNamed(o) :: slot.Accessor? }

  /** `walk` goes from `a` to `b`: both are walked shapes, and a listed property of `a` holds `b`. */
  ghost predicate Edge(h: Objects, a: Address, b: Address) {
    a < |h| && b < |h| && IsPlain(h[a]) && IsPlain(h[b]) && Data(Ref(b)) in OwnNamed(h[a])
  }

  ghost function Edges(h: Objects): (Address, Address) -> bool { (a: Address, b: Address) => Edge(h, a, b) }

  /** An object that can still change: not frozen, or with a getter. */
  ghost predicate Changeable(h: Objects, a: Address) {
    a < |h| && (!h[a].frozen || HasAccessor(h[a]))
  }

  /** The plain objects and arrays in `v`, itself included, are all frozen and without getters. */
  ghost predicate DeepFrozen(h: Objects, v: Address)
    requires v < |h|
  {
    IsPlain(h[v]) && forall b :: Reaches(Edges(h), v, b) ==> !Changeable(h, b)
  }

  /** Every member is a walked, frozen object without getters. */
  ghost predicate AllFixed(h: Objects, s: set<Address>) {
    forall a <- s :: a < |h| && IsPlain(h[a]) && !Changeable(h, a)
  }

  /** What `a` holds of walked shape is in `s`. */
  ghost predicate HeldIn(h: Objects, a: Address, s: set<Address>) {
    forall b :: Edge(h, a, b) ==> b in s
  }

  ghost predicate Closed(h: Objects, s: set<Address>) { forall a <- s :: HeldIn(h, a, s) }

  /** A memo that tells the truth, and goes on doing so without looking outside itself. */
  ghost predicate MemoTrue(h: Objects, memo: set<Address>) { AllFixed(h, memo) && Closed(h, memo) }

  lemma MemberIsDeepFrozen(h: Objects, memo: set<Address>, v: Address)
    requires MemoTrue(h, memo) && v in memo
    ensures DeepFrozen(h, v)
  {
    forall b | Reaches(Edges(h), v, b)
      ensures b in memo
    {
      var path :| Path(Edges(h), v, b, path);
      ClosedHoldsReachable(Edges(h), memo, v, b, path);
    }
  }

  lemma NamedInHeap(h: Objects, o: Object)
    requires ObjectInHeap(h, o)
    ensures forall slot <- OwnNamed(o) :: InHeap(h, slot.value)
  {
    NamedSlotsInHeap(h, o.properties);
  }

  lemma {:induction false} NamedSlotsInHeap(h: Objects, ps: seq<Property>)
    requires forall p <- ps :: InHeap(h, p.slot.value)
    ensures forall slot <- NamedSlots(ps) :: InHeap(h, slot.value)
  {
    if ps != [] {
      assert ps[0] in ps && forall p <- ps[1..] :: p in ps;
      NamedSlotsInHeap(h, ps[1..]);
    }
  }

  /** The state of one top-level call: `seen` grows, the heap and the memo are only read. */
  class Walker {
    const heap: Objects
    const memo: set<Address>
    var seen: set<Address>

    constructor (heap: Objects, memo: set<Address>)
      ensures this.heap == heap && this.memo == memo && seen == {}
    {
      this.heap := heap;
      this.memo := memo;
      seen := {};
    }

    ghost predicate Valid()
      reads this
    {
      ValidHeap(heap) && MemoTrue(heap, memo) &&
      forall a <- seen :: a < |heap| && IsPlain(heap[a]) && heap[a].frozen
    }

    /** The objects not marked yet. */
    ghost function Unseen(): set<Address>
      reads this
    {
      Below(|heap|) - seen
    }

    /** A field value is settled: nothing to walk, or already in hand. */
    ghost predicate Settled(slot: Slot)
      reads this
    {
      slot.Data? && (slot.value.Ref? && slot.value.at < |heap| && IsPlain(heap[slot.value.at]) ==>
        slot.value.at in seen + memo)
    }

    /** `a` was walked to the end, on the way down from `node`. */
    ghost predicate Finished(node: Address, a: Address)
      reads this
    {
      a < |heap| && !HasAccessor(heap[a]) && HeldIn(heap, a, seen + memo) && Reaches(Edges(heap), node, a)
    }

    method Walk(node: Address) returns (ok: bool)
      requires Valid() && node < |heap|
      modifies this
      ensures Valid() && old(seen) <= seen
      ensures ok ==> forall a <- seen - old(seen) :: Finished(node, a)
      ensures if IsPlain(heap[node]) then ok ==> node in seen + memo else ok && seen == old(seen)
      ensures !ok ==> IsPlain(heap[node]) && exists b :: Reaches(Edges(heap), node, b) && Changeable(heap, b)
      decreases Unseen()
    {
      if node in memo || node in seen { return true; }
      var o := heap[node];
      if !IsPlain(o) { return true; }
      ReachesSelf(Edges(heap), node);
      if !o.frozen {
        assert Changeable(heap, node);
        return false;
      }
      seen := seen + {node};
      assert o in heap;
      NamedInHeap(heap, o);
      var slots := OwnNamed(o);
      for i := 0 to |slots|
        invariant Valid() && old(seen) + {node} <= seen
        invariant forall a <- seen - old(seen) - {node} :: Finished(node, a)
        invariant forall k :: 0 <= k < i ==> Settled(slots[k])
      {
        var slot := slots[i];
        if slot.Accessor? {
          assert HasAccessor(o) && Changeable(heap, node);
          return false;
        }
        var field := slot.value;
        if field.Ref? {
          label BeforeChild:
          ok := Walk(field.at);
          if IsPlain(heap[field.at]) {
            assert Edges(heap)(node, field.at);
            ReachesFromChild(node, field.at);
          }
          if !ok { return; }
          forall a | a in seen - old(seen) - {node} ensures Finished(node, a) {
            if a in old@BeforeChild(seen) {
              assert old@BeforeChild(Finished(node, a));
            } else {
              assert Finished(field.at, a);
            }
          }
        }
      }
      ok := true;
      assert HeldIn(heap, node, seen + memo);
    }

    /** A positive walk has found everything its root reaches, and it is all fixed. */
    lemma Completed(node: Address)
      requires Valid() && node < |heap| && node in seen + memo && forall a <- seen :: Finished(node, a)
      ensures MemoTrue(heap, memo + seen) && DeepFrozen(heap, node) && memo + seen == memo + ReachSet(heap, node)
    {
      var all := memo + seen;
      forall a | a in all ensures IsPlain(heap[a]) && !Changeable(heap, a) && HeldIn(heap, a, all) {
        if a in seen { assert Finished(node, a); }
      }
      MemberIsDeepFrozen(heap, all, node);
      MemoHoldsReachSet(heap, all, node);
      forall a | a in seen ensures a in ReachSet(heap, node) {
        assert Finished(node, a);
        ReachesInHeap(heap, node, a);
      }
    }

    lemma ReachesFromChild(node: Address, child: Address)
      requires Edges(heap)(node, child)
      ensures forall b :: Reaches(Edges(heap), child, b) ==> Reaches(Edges(heap), node, b)
    {
      forall b | Reaches(Edges(heap), child, b) ensures Reaches(Edges(heap), node, b) {
        ReachesThrough(Edges(heap), node, child, b);
      }
    }
  }

  ghost function ReachSet(h: Objects, v: Address): set<Address> {
    set b | b in Below(|h|) && Reaches(Edges(h), v, b)
  }

  lemma {:induction false} PathStaysInHeap(h: Objects, a: Address, b: Address, path: seq<Address>)
    requires a < |h| && Path(Edges(h), a, b, path)
    ensures b < |h|
    decreases |path|
  {
    if |path| > 1 {
      assert Edges(h)(path[0], path[1]);
      assert Path(Edges(h), path[1], b, path[1..]);
      PathStaysInHeap(h, path[1], b, path[1..]);
    }
  }

  lemma ReachesInHeap(h: Objects, a: Address, b: Address)
    requires a < |h| && Reaches(Edges(h), a, b)
    ensures b < |h|
  {
    var path :| Path(Edges(h), a, b, path);
    PathStaysInHeap(h, a, b, path);
  }

  /** A true memo that holds `v` holds everything `v` reaches. */
  lemma MemoHoldsReachSet(h: Objects, memo: set<Address>, v: Address)
    requires MemoTrue(h, memo) && v in memo
    ensures ReachSet(h, v) <= memo
  {
    forall b | b in ReachSet(h, v) ensures b in memo {
      var path :| Path(Edges(h), v, b, path);
      ClosedHoldsReachable(Edges(h), memo, v, b, path);
    }
  }

  /** The program's heap, and the module's memo of objects proven deep-frozen. */
  class FrozenObjects {
    var heap: Objects
    var deepFrozen: set<Address>

    ghost predicate Valid()
      reads this
    {
      ValidHeap(heap) && MemoTrue(heap, deepFrozen)
    }

    /** The answer is exact, whatever was asked before, and the memo grows by what a positive answer walked. */
    method IsDeepFrozen(value: Address) returns (r: bool)
      requires Valid() && value < |heap|
      modifies this`deepFrozen
      ensures Valid()
      ensures r <==> DeepFrozen(heap, value)
      ensures deepFrozen == old(deepFrozen) + if r then ReachSet(heap, value) else {}
    {
      ReachesSelf(Edges(heap), value);
      if value in deepFrozen {
        MemberIsDeepFrozen(heap, deepFrozen, value);
        MemoHoldsReachSet(heap, deepFrozen, value);
        return true;
      }
      if !IsPlain(heap[value]) || !heap[value].frozen {
        assert IsPlain(heap[value]) ==> Changeable(heap, value);
        return false;
      }
      var walker := new Walker(heap, deepFrozen);
      r := walker.Walk(value);
      if !r { return; }
      walker.Completed(value);
      deepFrozen := deepFrozen + walker.seen;
    }
  }

  // ---- the memo through a whole run of the program

  /**
   * What a program does to the heap between questions. Writes and changes of
   * prototype have no effect on a frozen object (they throw), and an array
   * stays an array whatever its prototype is.
   */
  datatype Step =
    | Allocate(object': Object)
    | Freeze(at: Address)
    | Write(at: Address, items: seq<Value>, properties: seq<Property>)
    | SetPrototype(at: Address, shape: Shape)
    | Ask(at: Address)

  datatype State = State(heap: Objects, memo: set<Address>)

  predicate Possible(s: State, step: Step) {
    match step
    case Allocate(o) => !o.frozen && ObjectInHeap(s.heap, o)
    case Freeze(at) => at < |s.heap|
    case Write(at, items, properties) =>
      at < |s.heap| && ObjectInHeap(s.heap, s.heap[at].(items := items, properties := properties))
    case SetPrototype(at, shape) => at < |s.heap| && !s.heap[at].shape.ArrayShape? && !shape.ArrayShape?
    case Ask(at) => at < |s.heap|
  }

  /** One step; `Ask` is the contract of `IsDeepFrozen`. */
  ghost function Next(s: State, step: Step): State
    requires Possible(s, step)
  {
    var h := s.heap;
    match step
    case Allocate(o) => s.(heap := h + [o])
    case Freeze(at) => s.(heap := h[at := h[at].(frozen := true)])
    case Write(at, items, properties) =>
      if h[at].frozen then s else s.(heap := h[at := h[at].(items := items, properties := properties)])
    case SetPrototype(at, shape) =>
      if h[at].frozen then s else s.(heap := h[at := h[at].(shape := shape)])
    case Ask(at) => if DeepFrozen(h, at) then s.(memo := s.memo + ReachSet(h, at)) else s
  }

  /**
   * The one step the memo cannot survive: an opaque object some remembered
   * object holds becomes a plain object or an array.
   */
  ghost predicate Uncovers(s: State, step: Step)
    requires Possible(s, step)
  {
    step.SetPrototype? && !s.heap[step.at].frozen &&
    !IsPlain(s.heap[step.at]) && IsPlain(s.heap[step.at].(shape := step.shape)) &&
    exists a <- s.memo :: a < |s.heap| && Data(Ref(step.at)) in OwnNamed(s.heap[a])
  }

  lemma AskKeepsMemo(h: Objects, memo: set<Address>, at: Address)
    requires MemoTrue(h, memo) && at < |h| && DeepFrozen(h, at)
    ensures MemoTrue(h, memo + ReachSet(h, at))
  {
    var grown := memo + ReachSet(h, at);
    forall a | a in grown ensures a < |h| && IsPlain(h[a]) && !Changeable(h, a) && HeldIn(h, a, grown) {
      if a !in memo {
        ReachedIsPlain(h, at, a);
        forall b | Edge(h, a, b) ensures b in grown {
          assert Edges(h)(a, b);
          ReachesOn(Edges(h), at, a, b);
        }
      }
    }
  }

  lemma ReachedIsPlain(h: Objects, a: Address, b: Address)
    requires a < |h| && IsPlain(h[a]) && Reaches(Edges(h), a, b)
    ensures b < |h| && IsPlain(h[b])
  {
    var path :| Path(Edges(h), a, b, path);
    if |path| > 1 {
      assert Edges(h)(path[|path| - 2], path[|path| - 1]);
    }
  }

  /** A write or a change of prototype of an object that is not remembered leaves the memo true, unless it uncovers. */
  lemma ChangeKeepsMemo(h: Objects, memo: set<Address>, at: Address, o: Object)
    requires MemoTrue(h, memo) && at < |h| && (at in memo ==> o == h[at])
    requires !IsPlain(h[at]) && IsPlain(o) ==> forall a <- memo :: Data(Ref(at)) !in OwnNamed(h[a])
    ensures MemoTrue(h[at := o], memo)
  {
    var next := h[at := o];
    forall a | a in memo ensures a < |next| && IsPlain(next[a]) && !Changeable(next, a) && HeldIn(next, a, memo) {
      assert next[a] == h[a] && !Changeable(h, a);
      forall b | Edge(next, a, b) ensures b in memo {
        assert Edge(h, a, b);
      }
    }
  }

  lemma AllocationKeepsMemo(h: Objects, memo: set<Address>, o: Object)
    requires ValidHeap(h) && MemoTrue(h, memo)
    ensures MemoTrue(h + [o], memo)
  {
    forall a | a in memo
      ensures a < |h| && !Changeable(h + [o], a) && HeldIn(h + [o], a, memo)
    {
      assert !Changeable(h, a) && h[a] in h;
      NamedInHeap(h, h[a]);
      forall b | Edge(h + [o], a, b) ensures b in memo {
        assert InHeap(h, Data(Ref(b)).value);
        assert Edge(h, a, b);
      }
    }
  }

  lemma UpdateStaysValid(h: Objects, at: Address, o: Object)
    requires ValidHeap(h) && at < |h| && ObjectInHeap(h, o)
    ensures ValidHeap(h[at := o])
  {
    var next := h[at := o];
    forall i | 0 <= i < |next| ensures ObjectInHeap(next, next[i]) {
      assert i != at ==> next[i] in h && ObjectInHeap(h, next[i]);
    }
  }

  /** The memo stays true through a step exactly when the step does not uncover an opaque object. */
  lemma StepKeepsMemo(s: State, step: Step)
    requires ValidHeap(s.heap) && MemoTrue(s.heap, s.memo) && Possible(s, step)
    ensures ValidHeap(Next(s, step).heap)
    ensures MemoTrue(Next(s, step).heap, Next(s, step).memo) <==> !Uncovers(s, step)
  {
    var h, memo := s.heap, s.memo;
    match step
    case Allocate(o) => AllocationKeepsMemo(h, memo, o);
    case Freeze(at) =>
      assert h[at] in h && ObjectInHeap(h, h[at]);
      UpdateStaysValid(h, at, h[at].(frozen := true));
      ChangeKeepsMemo(h, memo, at, h[at].(frozen := true));
    case Write(at, items, properties) =>
      if !h[at].frozen {
        assert at in memo ==> Changeable(h, at);
        UpdateStaysValid(h, at, h[at].(items := items, properties := properties));
        ChangeKeepsMemo(h, memo, at, h[at].(items := items, properties := properties));
      }
    case SetPrototype(at, shape) =>
      if !h[at].frozen {
        assert at in memo ==> Changeable(h, at);
        var o := h[at].(shape := shape);
        assert h[at] in h && ObjectInHeap(h, h[at]);
        UpdateStaysValid(h, at, o);
        if Uncovers(s, step) {
          var a :| a in memo && Data(Ref(at)) in OwnNamed(h[a]);
          assert Edge(h[at := o], a, at) && at !in memo;
        } else {
          ChangeKeepsMemo(h, memo, at, o);
        }
      }
    case Ask(at) => if DeepFrozen(h, at) { AskKeepsMemo(h, memo, at); }
  }

  ghost predicate CanRun(s: State, steps: seq<Step>)
    decreases |steps|
  {
    steps == [] || (Possible(s, steps[0]) && CanRun(Next(s, steps[0]), steps[1..]))
  }

  ghost function Run(s: State, steps: seq<Step>): State
    requires CanRun(s, steps)
    decreases |steps|
  {
    if steps == [] then s else Run(Next(s, steps[0]), steps[1..])
  }

  ghost predicate NeverUncovers(s: State, steps: seq<Step>)
    requires CanRun(s, steps)
    decreases |steps|
  {
    steps == [] || (!Uncovers(s, steps[0]) && NeverUncovers(Next(s, steps[0]), steps[1..]))
  }

  /**
   * Through any run of allocations, freezes, writes, changes of prototype and
   * questions that never uncovers an opaque object, the memo stays true; and a
   * positive answer, once given, stays right for ever.
   */
  lemma {:induction false} AnswersAreFinal(s: State, steps: seq<Step>)
    requires ValidHeap(s.heap) && MemoTrue(s.heap, s.memo)
    requires CanRun(s, steps) && NeverUncovers(s, steps)
    ensures var end := Run(s, steps);
            ValidHeap(end.heap) && MemoTrue(end.heap, end.memo) && s.memo <= end.memo &&
            forall v <- s.memo :: v < |end.heap| && DeepFrozen(end.heap, v)
    decreases |steps|
  {
    if steps != [] {
      StepKeepsMemo(s, steps[0]);
      AnswersAreFinal(Next(s, steps[0]), steps[1..]);
    }
    var end := Run(s, steps);
    forall v | v in s.memo ensures v < |end.heap| && DeepFrozen(end.heap, v) {
      MemberIsDeepFrozen(end.heap, end.memo, v);
    }
  }

  /**
   * The condition is needed: a frozen object is asked about while it holds a
   * class instance, and the instance then gets a plain prototype. The
   * remembered answer is stale.
   */
  lemma StaleAnswer(key: Key)
    requires key.Named?
    ensures var instance := Object(Instance(0), [], [], false);
            var holder := Object(PlainShape(false), [], [Property(key, Data(Ref(0)), true)], true);
            var s := State([instance, holder], {});
            var asked := Next(s, Ask(1));
            var end := Next(asked, SetPrototype(0, PlainShape(false)));
            MemoTrue(s.heap, s.memo) && 1 in asked.memo && 1 in end.memo && !DeepFrozen(end.heap, 1)
  {
    var instance := Object(Instance(0), [], [], false);
    var holder := Object(PlainShape(false), [], [Property(key, Data(Ref(0)), true)], true);
    var s := State([instance, holder], {});
    HolderSlots(key);
    assert Closed(s.heap, {1}) && AllFixed(s.heap, {1});
    MemberIsDeepFrozen(s.heap, {1}, 1);
    ReachesSelf(Edges(s.heap), 1);
    var asked := Next(s, Ask(1));
    var end := Next(asked, SetPrototype(0, PlainShape(false)));
    assert Edges(end.heap)(1, 0) && Changeable(end.heap, 0);
    ReachesSelf(Edges(end.heap), 0);
    ReachesThrough(Edges(end.heap), 1, 0, 0);
  }

  lemma HolderSlots(key: Key)
    ensures NamedSlots([Property(key, Data(Ref(0)), true)]) == if key.Named? then [Data(Ref(0))] else []
  {
    assert NamedSlots([Property(key, Data(Ref(0)), true)][1..]) == [];
  }
}
