/**
 * What the unification leaves on each tag, told of the tags that are nested and
 * the properties they held, and of nothing else (packages/core/src/attr-tag.ts).
 */
module AttrTagShapes {
  import opened AttrTag
  import opened AttrTagPlans
  import opened Wrappers

  // ---- lists of lists, one after the other

  /** Where an element comes from: which list, and where in it. */
  type Origin = (nat, nat)

  predicate Before(a: Origin, b: Origin) { a.0 < b.0 || (a.0 == b.0 && a.1 < b.1) }

  /** `flat` holds the elements of the lists, each once, list by list. */
  ghost predicate Flattens<T>(flat: seq<T>, lists: seq<seq<T>>, origins: seq<Origin>) {
    |origins| == |flat| &&
    (forall i :: 0 <= i < |flat| ==>
      origins[i].0 < |lists| && origins[i].1 < |lists[origins[i].0]| &&
      flat[i] == lists[origins[i].0][origins[i].1]) &&
    (forall i, j :: 0 <= i < j < |flat| ==> Before(origins[i], origins[j])) &&
    forall l, k :: 0 <= l < |lists| && 0 <= k < |lists[l]| ==> (l, k) in origins
  }

  lemma FlattensOneMore<T>(flat: seq<T>, lists: seq<seq<T>>, origins: seq<Origin>, last: seq<T>)
    returns (more: seq<Origin>)
    requires Flattens(flat, lists, origins)
    ensures Flattens(flat + last, lists + [last], more)
  {
    var own: seq<Origin> := seq(|last|, k requires 0 <= k < |last| => (|lists|, k));
    more := origins + own;
    forall l, k | 0 <= l < |lists + [last]| && 0 <= k < |(lists + [last])[l]| ensures (l, k) in more {
      if l == |lists| {
        assert own[k] == (l, k);
      }
    }
  }

  function NestedLists(parents: seq<Tag>): seq<seq<Tag>> {
    seq(|parents|, i requires 0 <= i < |parents| => parents[i].attributeTags)
  }

  function HeldLists(parents: seq<Tag>, st: Plans): seq<seq<Prop>> {
    seq(|parents|, i requires 0 <= i < |parents| => if parents[i].id in st then st[parents[i].id] else [])
  }

  /** The children of a group are what its tags nest, tag by tag. */
  lemma {:induction false} ChildrenInOrder(parents: seq<Tag>) returns (origins: seq<Origin>)
    ensures Flattens(Children(parents), NestedLists(parents), origins)
  {
    origins := [];
    if parents != [] {
      var n := |parents| - 1;
      var before := ChildrenInOrder(parents[..n]);
      origins := FlattensOneMore(Children(parents[..n]), NestedLists(parents[..n]), before, parents[n].attributeTags);
      assert NestedLists(parents) == NestedLists(parents[..n]) + [parents[n].attributeTags];
    }
  }

  lemma {:induction false} AllPropsInOrder(parents: seq<Tag>, st: Plans) returns (origins: seq<Origin>)
    ensures Flattens(AllProps(parents, st), HeldLists(parents, st), origins)
  {
    origins := [];
    if parents != [] {
      var n := |parents| - 1;
      var before := AllPropsInOrder(parents[..n], st);
      var own := PropsOf(st, parents[n].id);
      origins := FlattensOneMore(AllProps(parents[..n], st), HeldLists(parents[..n], st), before, own);
      assert HeldLists(parents, st) == HeldLists(parents[..n], st) + [own];
    }
  }

  /** `picked` are the tags of that name, all of them and in order. */
  ghost predicate Picks(picked: seq<Tag>, tags: seq<Tag>, name: string, places: seq<nat>) {
    |places| == |picked| &&
    (forall i :: 0 <= i < |picked| ==> places[i] < |tags| && picked[i] == tags[places[i]] && picked[i].name == name) &&
    (forall i, j :: 0 <= i < j < |picked| ==> places[i] < places[j]) &&
    forall k :: 0 <= k < |tags| && tags[k].name == name ==> k in places
  }

  lemma {:induction false} NamedInOrder(tags: seq<Tag>, name: string) returns (places: seq<nat>)
    ensures Picks(Named(tags, name), tags, name, places)
  {
    places := [];
    if tags != [] {
      var n := |tags| - 1;
      places := NamedInOrder(tags[..n], name);
      if tags[n].name == name {
        places := places + [n];
      }
    }
  }

  // ---- groups

  /** A tag reached from one of `parents` by nesting, name by name. */
  ghost predicate Descends(parents: seq<Tag>, path: seq<string>, tag: Tag)
    decreases |path|
  {
    if path == [] then tag in parents
    else
      exists parent, child :: parent in parents && child in parent.attributeTags && child.name == path[0] &&
        Descends([child], path[1..], tag)
  }

  lemma ChildrenMembers(parents: seq<Tag>, tag: Tag)
    ensures tag in Children(parents) <==> exists parent <- parents :: tag in parent.attributeTags
  {
    var origins := ChildrenInOrder(parents);
    var lists := NestedLists(parents);
    if tag in Children(parents) {
      var i :| 0 <= i < |Children(parents)| && Children(parents)[i] == tag;
      assert parents[origins[i].0] in parents;
    }
    if parent :| parent in parents && tag in parent.attributeTags {
      var l :| 0 <= l < |parents| && parents[l] == parent;
      var k :| 0 <= k < |parent.attributeTags| && parent.attributeTags[k] == tag;
      assert lists[l][k] == tag && (l, k) in origins;
    }
  }

  lemma NamedMembers(tags: seq<Tag>, name: string, tag: Tag)
    ensures tag in Named(tags, name) <==> tag in tags && tag.name == name
  {
    var places := NamedInOrder(tags, name);
    if tag in tags && tag.name == name {
      var k :| 0 <= k < |tags| && tags[k] == tag;
      assert k in places;
    }
  }

  /** The groups are the tags reached by one path of names. */
  lemma {:induction false} GroupIsDescent(parents: seq<Tag>, path: seq<string>, tag: Tag)
    ensures tag in TagsAt(parents, path) <==> Descends(parents, path, tag)
    decreases |path|
  {
    if path != [] {
      var group := Named(Children(parents), path[0]);
      GroupIsDescent(group, path[1..], tag);
      DescendsFromOne(group, path[1..], tag);
      forall child
        ensures child in group <==> exists parent <- parents :: child in parent.attributeTags && child.name == path[0]
      {
        ChildrenMembers(parents, child);
        NamedMembers(Children(parents), path[0], child);
      }
    }
  }

  /** A descent begins at one of the tags. */
  lemma DescendsFromOne(parents: seq<Tag>, path: seq<string>, tag: Tag)
    ensures Descends(parents, path, tag) <==> exists parent <- parents :: Descends([parent], path, tag)
  {
    if path == [] {
      if tag in parents {
        assert Descends([tag], path, tag);
      }
    } else {
      if Descends(parents, path, tag) {
        var parent, child :| parent in parents && child in parent.attributeTags && child.name == path[0] &&
          Descends([child], path[1..], tag);
        assert Descends([parent], path, tag);
      }
    }
  }

  // ---- what a property is

  ghost predicate IsDeclared(prop: Prop, name: string) { prop.declared && prop.name == name }

  /** The first property declared for that name: of the first tag, and there of the first place, that has one. */
  ghost predicate IsFirstDeclared(group: seq<Tag>, st: Plans, name: string, t: nat, k: nat) {
    var held := HeldLists(group, st);
    t < |group| && k < |held[t]| && IsDeclared(held[t][k], name) &&
    forall u, j :: 0 <= u < |group| && 0 <= j < |held[u]| && Before((u, j), (t, k)) ==> !IsDeclared(held[u][j], name)
  }

  ghost predicate DeclaredBySome(group: seq<Tag>, st: Plans, name: string) {
    var held := HeldLists(group, st);
    exists t, k :: 0 <= t < |group| && 0 <= k < |held[t]| && IsDeclared(held[t][k], name)
  }

  /** Some tag of that name, nested in a tag of the group, has attributes or attribute tags. */
  ghost predicate HoldsData(group: seq<Tag>, name: string) {
    exists parent, child :: parent in group && child in parent.attributeTags && child.name == name &&
      (child.hasAttrs || child.attributeTags != [])
  }

  /** No run of any tag of the group produces that name twice. */
  ghost predicate OnceAtMost(group: seq<Tag>, name: string) {
    forall parent, w :: parent in group && CanProduce(parent.tree, w) ==> CountOf(w, name) <= 1
  }

  /** What a property of every tag of a group is, when the tags held `st`. */
  ghost predicate IsUnified(group: seq<Tag>, st: Plans, prop: Prop) {
    (prop.declared <==> DeclaredBySome(group, st, prop.name)) &&
    (prop.declared ==>
      exists t: nat, k: nat :: IsFirstDeclared(group, st, prop.name, t, k) &&
        prop.cardinality == HeldLists(group, st)[t][k].cardinality && prop.as' == HeldLists(group, st)[t][k].as') &&
    (!prop.declared ==> (prop.as' == Data <==> HoldsData(group, prop.name))) &&
    (!prop.declared ==> (prop.cardinality == Single <==> OnceAtMost(group, prop.name)))
  }

  lemma {:induction false} FirstDeclaredAt(props: seq<Prop>, name: string)
    ensures match FirstDeclared(props, name)
            case None => forall i :: 0 <= i < |props| ==> !IsDeclared(props[i], name)
            case Some(prop) =>
              exists i :: 0 <= i < |props| && props[i] == prop && IsDeclared(prop, name) &&
                forall j :: 0 <= j < i ==> !IsDeclared(props[j], name)
  {
    if props != [] && !IsDeclared(props[0], name) {
      FirstDeclaredAt(props[1..], name);
      assert forall i :: 0 < i < |props| ==> props[i] == props[1..][i - 1];
      if FirstDeclared(props, name).Some? {
        var i :| 0 <= i < |props[1..]| && props[1..][i] == FirstDeclared(props, name).value &&
          forall j :: 0 <= j < i ==> !IsDeclared(props[1..][j], name);
        assert props[i + 1] == props[1..][i];
      }
    }
  }

  /** In lists one after the other, what is first in the whole is first in the lists. */
  lemma FirstInLists(
      props: seq<Prop>, held: seq<seq<Prop>>, origins: seq<Origin>, name: string, i: nat)
    requires Flattens(props, held, origins) && i < |props|
    requires forall j :: 0 <= j < i ==> !IsDeclared(props[j], name)
    ensures forall u, j :: 0 <= u < |held| && 0 <= j < |held[u]| && Before((u, j), origins[i]) ==>
      !IsDeclared(held[u][j], name)
  {
    hide IsDeclared;
    forall u, j | 0 <= u < |held| && 0 <= j < |held[u]| && Before((u, j), origins[i])
      ensures !IsDeclared(held[u][j], name)
    {
      assert (u, j) in origins;
      var o :| 0 <= o < |origins| && origins[o] == (u, j);
      assert o < i;
    }
  }

  lemma NoneInLists(props: seq<Prop>, held: seq<seq<Prop>>, origins: seq<Origin>, name: string)
    requires Flattens(props, held, origins) && forall j :: 0 <= j < |props| ==> !IsDeclared(props[j], name)
    ensures forall u, j :: 0 <= u < |held| && 0 <= j < |held[u]| ==> !IsDeclared(held[u][j], name)
  {
    hide IsDeclared;
    forall u, j | 0 <= u < |held| && 0 <= j < |held[u]| ensures !IsDeclared(held[u][j], name) {
      assert (u, j) in origins;
      var o :| 0 <= o < |origins| && origins[o] == (u, j);
    }
  }

  /** The first declared property among those of the group, told of the tags. */
  lemma DeclaredInGroup(group: seq<Tag>, st: Plans, name: string)
    ensures var first := FirstDeclared(AllProps(group, st), name);
            (first.Some? <==> DeclaredBySome(group, st, name)) &&
            (first.Some? ==>
              exists t: nat, k: nat :: IsFirstDeclared(group, st, name, t, k) &&
                HeldLists(group, st)[t][k] == first.value)
  {
    var props, held, first := AllProps(group, st), HeldLists(group, st), FirstDeclared(AllProps(group, st), name);
    var origins := AllPropsInOrder(group, st);
    FirstDeclaredAt(props, name);
    hide FirstDeclared, AllProps, IsDeclared;
    if first.Some? {
      var i :| 0 <= i < |props| && props[i] == first.value && IsDeclared(first.value, name) &&
        forall j :: 0 <= j < i ==> !IsDeclared(props[j], name);
      FirstInLists(props, held, origins, name, i);
      assert IsFirstDeclared(group, st, name, origins[i].0, origins[i].1);
    } else {
      NoneInLists(props, held, origins, name);
    }
  }

  lemma ShapeOfData(group: seq<Tag>, name: string)
    ensures FallbackShape(Children(group), name) == Data <==> HoldsData(group, name)
  {
    forall child ensures child in Children(group) <==> exists parent <- group :: child in parent.attributeTags {
      ChildrenMembers(group, child);
    }
    if HoldsData(group, name) {
      var parent, child :| parent in group && child in parent.attributeTags && child.name == name &&
        (child.hasAttrs || child.attributeTags != []);
      assert child in Children(group);
    }
    if FallbackShape(Children(group), name) == Data {
      var child :| child in Children(group) && child.name == name && (child.hasAttrs || |child.attributeTags| > 0);
      var parent :| parent in group && child in parent.attributeTags;
    }
  }

  /**
   * Every property that the unification leaves on a tag: declared exactly when a
   * tag of its group declared it, and then as the first one did; otherwise data
   * exactly when some tag of that name holds any, and single exactly when no run
   * produces two. The group is the tags reached by the same path of names.
   */
  lemma PropIsUnified(parents: seq<Tag>, st: Plans, path: seq<string>, tag: Tag, i: nat)
    requires Distinct(parents) && tag in TagsAt(parents, path) && i < |PropsOf(Unified(parents, st), tag.id)|
    ensures IsUnified(TagsAt(parents, path), st, PropsOf(Unified(parents, st), tag.id)[i])
  {
    var group := TagsAt(parents, path);
    TagGetsGroupPlan(parents, st, path, tag);
    var plan := PlanOf(group, st);
    var prop := PropsOf(Unified(parents, st), tag.id)[i];
    assert prop == PropOf(tag, plan[i]) && plan[i] == ShapeFor(group, st, NamesOf(group, st)[i]);
    hide Unified, TagsAt, PropsOf, NamesOf;
    FallbackIsExact(group, st, prop.name);
    DeclaredInGroup(group, st, prop.name);
    ShapeOfData(group, prop.name);
  }

  // ---- the order of the names

  /** `names` are the names of `source`, each once, in the order in which they are first seen. */
  ghost predicate FirstSeen(names: seq<string>, source: seq<string>) {
    NoRepeat(names) && (forall name :: name in names <==> name in source) &&
    forall i, j :: 0 <= i < j < |names| ==> SeenBefore(source, names[i], names[j])
  }

  ghost predicate SeenBefore(source: seq<string>, name: string, other: string) {
    exists a :: 0 <= a < |source| && source[a] == name && forall b :: 0 <= b <= a ==> source[b] != other
  }

  function NamesNested(tags: seq<Tag>): seq<string> {
    seq(|tags|, i requires 0 <= i < |tags| => tags[i].name)
  }

  function NamesDeclared(props: seq<Prop>): seq<string> {
    if props == [] then []
    else
      var last := props[|props| - 1];
      NamesDeclared(props[..|props| - 1]) + if last.declared then [last.name] else []
  }

  lemma SeenOneMore(names: seq<string>, source: seq<string>, name: string)
    requires FirstSeen(names, source)
    ensures FirstSeen(if name in names then names else names + [name], source + [name])
  {
    var more := if name in names then names else names + [name];
    forall i, j | 0 <= i < j < |more|
      ensures SeenBefore(source + [name], more[i], more[j])
    {
      if j < |names| {
        assert SeenBefore(source, names[i], names[j]);
        var a :| 0 <= a < |source| && source[a] == names[i] && forall b :: 0 <= b <= a ==> source[b] != names[j];
        assert (source + [name])[a] == more[i];
      } else {
        assert names[i] in source && name !in source;
        var a :| 0 <= a < |source| && source[a] == names[i];
        assert (source + [name])[a] == more[i];
      }
    }
  }

  lemma NothingSeen()
    ensures FirstSeen(DistinctNames([]), NamesNested([]))
  {
  }

  lemma OneMoreDistinct(tags: seq<Tag>)
    requires tags != []
    ensures var before := DistinctNames(tags[..|tags| - 1]);
            var name := tags[|tags| - 1].name;
            (name in before ==> DistinctNames(tags) == before) &&
            (name !in before ==> DistinctNames(tags) == before + [name])
  {
  }

  lemma OneMoreNested(tags: seq<Tag>)
    requires tags != []
    ensures NamesNested(tags) == NamesNested(tags[..|tags| - 1]) + [tags[|tags| - 1].name]
  {
  }

  lemma {:induction false} NestedNamesSeen(tags: seq<Tag>)
    ensures FirstSeen(DistinctNames(tags), NamesNested(tags))
  {
    hide *;
    if tags == [] {
      NothingSeen();
    } else {
      var n := |tags| - 1;
      NestedNamesSeen(tags[..n]);
      SeenOneMore(DistinctNames(tags[..n]), NamesNested(tags[..n]), tags[n].name);
      OneMoreDistinct(tags);
      OneMoreNested(tags);
    }
  }

  lemma NoneDeclared(names: seq<string>, source: seq<string>)
    ensures AddDeclared(names, []) == names && source + NamesDeclared([]) == source
  {
  }

  lemma OneMoreDeclared(names: seq<string>, source: seq<string>, props: seq<Prop>)
    requires props != []
    ensures var n := |props| - 1;
            var before := AddDeclared(names, props[..n]);
            (!props[n].declared || props[n].name in before ==> AddDeclared(names, props) == before) &&
            (props[n].declared && props[n].name !in before ==> AddDeclared(names, props) == before + [props[n].name]) &&
            source + NamesDeclared(props) ==
              source + NamesDeclared(props[..n]) + if props[n].declared then [props[n].name] else []
  {
  }

  lemma {:induction false} DeclaredNamesSeen(names: seq<string>, source: seq<string>, props: seq<Prop>)
    requires FirstSeen(names, source)
    ensures FirstSeen(AddDeclared(names, props), source + NamesDeclared(props))
  {
    hide *;
    if props == [] {
      NoneDeclared(names, source);
    } else {
      var n := |props| - 1;
      DeclaredNamesSeen(names, source, props[..n]);
      OneMoreDeclared(names, source, props);
      var before := source + NamesDeclared(props[..n]);
      if props[n].declared {
        SeenOneMore(AddDeclared(names, props[..n]), before, props[n].name);
      } else {
        assert before + [] == before;
      }
    }
  }

  /** The names of a group, as each first occurs: nested in its tags, tag by tag, and then declared by them. */
  lemma NamesInOrder(group: seq<Tag>, st: Plans)
    ensures FirstSeen(NamesOf(group, st), NamesNested(Children(group)) + NamesDeclared(AllProps(group, st)))
  {
    NestedNamesSeen(Children(group));
    DeclaredNamesSeen(DistinctNames(Children(group)), NamesNested(Children(group)), AllProps(group, st));
  }

  /** Each tag's properties are those names in that order. */
  lemma PropsInOrder(parents: seq<Tag>, st: Plans, path: seq<string>, tag: Tag)
    requires Distinct(parents) && tag in TagsAt(parents, path)
    ensures var group, props := TagsAt(parents, path), PropsOf(Unified(parents, st), tag.id);
            FirstSeen(seq(|props|, i requires 0 <= i < |props| => props[i].name),
              NamesNested(Children(group)) + NamesDeclared(AllProps(group, st)))
  {
    var group, props := TagsAt(parents, path), PropsOf(Unified(parents, st), tag.id);
    TagGetsGroupPlan(parents, st, path, tag);
    NamesInOrder(group, st);
    assert seq(|props|, i requires 0 <= i < |props| => props[i].name) == NamesOf(group, st);
  }
}
