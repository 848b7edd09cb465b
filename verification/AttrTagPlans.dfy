/**
 * One value shape for every occurrence of a property, at every depth: the
 * unification that rewrites `attrTagProps` in place
 * (packages/core/src/attr-tag.ts).
 */
module AttrTagPlans {
  import opened AttrTag
  import opened Wrappers

  datatype Cardinality = Single | Array

  datatype As = Data | Renderable

  datatype Prop = Prop(name: string, cardinality: Cardinality, as': As, source: seq<Node>, declared: bool)

  /** The `attrTagProps` each tag holds, by the tag's identity. */
  type Plans = map<nat, seq<Prop>>

  function PropsOf(st: Plans, id: nat): seq<Prop> { if id in st then st[id] else [] }

  /** `parents.flatMap((parent) => parent.attributeTags)`. */
  function Children(parents: seq<Tag>): seq<Tag> {
    if parents == [] then [] else Children(parents[..|parents| - 1]) + parents[|parents| - 1].attributeTags
  }

  function Larger(a: nat, b: nat): nat { if a < b then b else a }

  /** How deep attribute tags nest. */
  function Height(tags: seq<Tag>): nat {
    if tags == [] then 0 else Larger(Height(tags[..|tags| - 1]), 1 + Height(tags[|tags| - 1].attributeTags))
  }

  lemma {:induction false} HeightConcat(a: seq<Tag>, b: seq<Tag>)
    ensures Height(a + b) == Larger(Height(a), Height(b))
  {
    if b == [] {
      assert a + b == a;
    } else {
      assert (a + b)[..|a| + |b| - 1] == a + b[..|b| - 1];
      HeightConcat(a, b[..|b| - 1]);
    }
  }

  lemma {:induction false} ChildrenAreLower(parents: seq<Tag>)
    ensures parents != [] ==> Height(Children(parents)) < Height(parents)
  {
    if parents != [] {
      var n := |parents| - 1;
      ChildrenAreLower(parents[..n]);
      HeightConcat(Children(parents[..n]), parents[n].attributeTags);
      assert n == 0 ==> parents[..n] == [];
    }
  }

  lemma {:induction false} NamedIsNoHigher(tags: seq<Tag>, name: string)
    ensures Height(Named(tags, name)) <= Height(tags)
  {
    if tags != [] {
      var n := |tags| - 1;
      NamedIsNoHigher(tags[..n], name);
      assert Named(tags, name) == Named(tags[..n], name) + (if tags[n].name == name then [tags[n]] else []);
      HeightConcat(Named(tags[..n], name), if tags[n].name == name then [tags[n]] else []);
      assert [tags[n]][..0] == [];
    }
  }

  // ---- the plan of one group

  /** The names of `tags`, each where it first occurs. */
  function DistinctNames(tags: seq<Tag>): seq<string> {
    if tags == [] then []
    else
      var before := DistinctNames(tags[..|tags| - 1]);
      if tags[|tags| - 1].name in before then before else before + [tags[|tags| - 1].name]
  }

  function AddDeclared(names: seq<string>, props: seq<Prop>): seq<string> {
    if props == [] then names
    else
      var before, last := AddDeclared(names, props[..|props| - 1]), props[|props| - 1];
      if last.declared && last.name !in before then before + [last.name] else before
  }

  lemma AddDeclaredStep(names: seq<string>, props: seq<Prop>, last: Prop)
    ensures var before := AddDeclared(names, props);
            AddDeclared(names, props + [last]) ==
              if last.declared && last.name !in before then before + [last.name] else before
  {
    assert (props + [last])[..|props|] == props;
  }

  function AllProps(parents: seq<Tag>, st: Plans): seq<Prop> {
    if parents == [] then [] else AllProps(parents[..|parents| - 1], st) + PropsOf(st, parents[|parents| - 1].id)
  }

  lemma AllPropsStep(parents: seq<Tag>, k: nat, st: Plans)
    requires k < |parents|
    ensures AllProps(parents[..k + 1], st) == AllProps(parents[..k], st) + PropsOf(st, parents[k].id)
  {
    assert parents[..k + 1][..k] == parents[..k];
  }

  lemma NothingAdded(order: seq<string>, parents: seq<Tag>, st: Plans)
    ensures AddDeclared(order, AllProps(parents[..0], st)) == order
  {
  }

  /** The first declared property of that name. */
  function FirstDeclared(props: seq<Prop>, name: string): Option<Prop> {
    if props == [] then None
    else if props[0].name == name && props[0].declared then Some(props[0])
    else FirstDeclared(props[1..], name)
  }

  function FallbackShape(children: seq<Tag>, name: string): As {
    if exists tag <- children :: tag.name == name && (tag.hasAttrs || |tag.attributeTags| > 0) then Data else Renderable
  }

  predicate Repeats(tree: seq<Node>, name: string) { RangeOf(tree, name).AtLeast(2) }

  function FallbackCardinality(parents: seq<Tag>, name: string): Cardinality {
    if exists parent <- parents :: Repeats(parent.tree, name) then Array else Single
  }

  /** What every occurrence of one property agrees on. */
  datatype Shape = Shape(name: string, cardinality: Cardinality, as': As, declared: bool)

  function ShapeFor(parents: seq<Tag>, st: Plans, name: string): Shape {
    var declared := FirstDeclared(AllProps(parents, st), name);
    if declared.Some? then Shape(name, declared.value.cardinality, declared.value.as', true)
    else Shape(name, FallbackCardinality(parents, name), FallbackShape(Children(parents), name), false)
  }

  function NamesOf(parents: seq<Tag>, st: Plans): seq<string> {
    AddDeclared(DistinctNames(Children(parents)), AllProps(parents, st))
  }

  function PlanOf(parents: seq<Tag>, st: Plans): (plan: seq<Shape>)
    ensures |plan| == |NamesOf(parents, st)|
    ensures forall i :: 0 <= i < |plan| ==> plan[i] == ShapeFor(parents, st, NamesOf(parents, st)[i])
  {
    var names := NamesOf(parents, st);
    seq(|names|, i requires 0 <= i < |names| => ShapeFor(parents, st, names[i]))
  }

  function PropOf(parent: Tag, shape: Shape): Prop {
    Prop(shape.name, shape.cardinality, shape.as', Filtered(parent.tree, shape.name), shape.declared)
  }

  function PropsFor(parent: Tag, plan: seq<Shape>): seq<Prop> {
    seq(|plan|, i requires 0 <= i < |plan| => PropOf(parent, plan[i]))
  }

  function Assigned(parents: seq<Tag>, st: Plans, plan: seq<Shape>): Plans {
    if parents == [] then st
    else
      var last := parents[|parents| - 1];
      Assigned(parents[..|parents| - 1], st, plan)[last.id := PropsFor(last, plan)]
  }

  // ---- the whole unification

  function Unified(parents: seq<Tag>, st: Plans): Plans
    decreases Height(parents), 0, 0
  {
    if parents == [] then st
    else
      ChildrenAreLower(parents);
      var children := Children(parents);
      var below := UnifiedGroups(children, DistinctNames(children), st);
      Assigned(parents, below, PlanOf(parents, below))
  }

  function UnifiedGroups(children: seq<Tag>, names: seq<string>, st: Plans): Plans
    decreases Height(children), 1, |names|
  {
    if names == [] then st
    else
      var n := |names| - 1;
      NamedIsNoHigher(children, names[n]);
      Unified(Named(children, names[n]), UnifiedGroups(children, names[..n], st))
  }

  /** The tags of a lowered unit, whose `attrTagProps` are updated in place. */
  class AttributeTags {
    var props: Plans

    constructor (props: Plans)
      ensures this.props == props
    {
      this.props := props;
    }

    method UnifyNestedAttrTagPlans(parents: seq<Tag>)
      modifies this
      ensures props == Unified(parents, old(props))
      decreases Height(parents)
    {
      var children := Children(parents);
      var order, groups := Grouped(children);
      ChildrenAreLower(parents);
      for k := 0 to |order|
        invariant props == UnifiedGroups(children, order[..k], old(props))
      {
        NamedIsNoHigher(children, order[k]);
        assert order[..k + 1][..k] == order[..k];
        UnifyNestedAttrTagPlans(groups[order[k]]);
      }
      assert order[..|order|] == order;
      if parents == [] { return; }

      var names := NamesIn(order, parents);
      var plan := PlanIn(names, parents);
      assert plan == PlanOf(parents, props);
      Assign(parents, plan);
    }

    /** The names to plan: every child's, then those only declared. */
    method NamesIn(order: seq<string>, parents: seq<Tag>) returns (names: seq<string>)
      ensures names == AddDeclared(order, AllProps(parents, props))
    {
      names := order;
      NothingAdded(order, parents, props);
      hide AddDeclared, AllProps;
      for k := 0 to |parents|
        invariant names == AddDeclared(order, AllProps(parents[..k], props))
      {
        var own := PropsOf(props, parents[k].id);
        ghost var before := AllProps(parents[..k], props);
        AllPropsStep(parents, k, props);
        assert before + own[..0] == before;
        for j := 0 to |own|
          invariant names == AddDeclared(order, before + own[..j])
        {
          assert before + own[..j + 1] == before + own[..j] + [own[j]];
          AddDeclaredStep(order, before + own[..j], own[j]);
          if own[j].declared && own[j].name !in names { names := names + [own[j].name]; }
        }
        assert own[..|own|] == own;
      }
      assert parents[..|parents|] == parents;
    }

    method FallbackCardinalityIn(parents: seq<Tag>, name: string) returns (c: Cardinality)
      ensures c == FallbackCardinality(parents, name)
    {
      for k := 0 to |parents|
        invariant forall i :: 0 <= i < k ==> !Repeats(parents[i].tree, name)
      {
        var max, inFor := OccurrenceRange(parents[k].tree, name);
        if max.AtLeast(2) || inFor {
          assert parents[k] in parents && Repeats(parents[k].tree, name);
          return Array;
        }
      }
      c := Single;
    }

    method PlanIn(names: seq<string>, parents: seq<Tag>) returns (plan: seq<Shape>)
      ensures |plan| == |names|
      ensures forall i :: 0 <= i < |names| ==> plan[i] == ShapeFor(parents, props, names[i])
    {
      plan := [];
      for k := 0 to |names|
        invariant |plan| == k && forall i :: 0 <= i < k ==> plan[i] == ShapeFor(parents, props, names[i])
      {
        var declared := FirstDeclared(AllProps(parents, props), names[k]);
        var fallback := FallbackCardinalityIn(parents, names[k]);
        plan := plan + [Shape(
          names[k],
          if declared.Some? then declared.value.cardinality else fallback,
          if declared.Some? then declared.value.as' else FallbackShape(Children(parents), names[k]),
          declared.Some?)];
      }
    }

    method Assign(parents: seq<Tag>, plan: seq<Shape>)
      modifies this
      ensures props == Assigned(parents, old(props), plan)
    {
      for k := 0 to |parents|
        invariant props == Assigned(parents[..k], old(props), plan)
      {
        assert parents[..k + 1][..k] == parents[..k];
        props := props[parents[k].id := PropsFor(parents[k], plan)];
      }
      assert parents[..|parents|] == parents;
    }

    /** Grouping at the top: only occurrences of one property are unified with each other. */
    method UnifyNestedAttrTagPlanGroups(parents: seq<Tag>)
      modifies this
      ensures props == UnifiedGroups(parents, DistinctNames(parents), old(props))
    {
      var order, groups := Grouped(parents);
      hide Unified, UnifiedGroups, DistinctNames, Named;
      NoGroups(parents, order, props);
      for k := 0 to |order|
        invariant props == UnifiedGroups(parents, order[..k], old(props))
      {
        assert order[..k + 1][..k] == order[..k];
        UnifiedGroupsStep(parents, order[..k + 1], old(props));
        UnifyNestedAttrTagPlans(groups[order[k]]);
      }
      assert order[..|order|] == order;
    }
  }

  lemma NoGroups(children: seq<Tag>, names: seq<string>, st: Plans)
    ensures UnifiedGroups(children, names[..0], st) == st
  {
  }

  /** The `Map` of groups by name, with its insertion order. */
  method Grouped(tags: seq<Tag>) returns (order: seq<string>, groups: map<string, seq<Tag>>)
    ensures order == DistinctNames(tags)
    ensures forall name <- order :: name in groups && groups[name] == Named(tags, name)
  {
    order, groups := [], map[];
    for k := 0 to |tags|
      invariant order == DistinctNames(tags[..k])
      invariant forall name :: name in groups <==> name in order
      invariant forall name <- order :: groups[name] == Named(tags[..k], name)
      invariant forall name :: name !in order ==> Named(tags[..k], name) == []
    {
      var tag := tags[k];
      assert tags[..k + 1][..k] == tags[..k];
      if tag.name in groups {
        groups := groups[tag.name := groups[tag.name] + [tag]];
      } else {
        groups := groups[tag.name := [tag]];
        order := order + [tag.name];
      }
    }
    assert tags[..|tags|] == tags;
  }

  // ---- which tags are whose

  /** How often the identity `id` occurs among `tags` and what is nested in them. */
  function Occurs(tags: seq<Tag>, id: nat): nat {
    if tags == [] then 0
    else
      var last := tags[|tags| - 1];
      Occurs(tags[..|tags| - 1], id) + (if last.id == id then 1 else 0) + Occurs(last.attributeTags, id)
  }

  /** How often `id` is one of `tags` themselves. */
  function OccursHere(tags: seq<Tag>, id: nat): nat {
    if tags == [] then 0 else OccursHere(tags[..|tags| - 1], id) + if tags[|tags| - 1].id == id then 1 else 0
  }

  /** A forest: no tag occurs twice in it. */
  ghost predicate Distinct(tags: seq<Tag>) { forall id :: Occurs(tags, id) <= 1 }

  lemma {:induction false} OccursConcat(a: seq<Tag>, b: seq<Tag>, id: nat)
    ensures Occurs(a + b, id) == Occurs(a, id) + Occurs(b, id)
  {
    if b == [] {
      assert a + b == a;
    } else {
      assert (a + b)[..|a| + |b| - 1] == a + b[..|b| - 1];
      OccursConcat(a, b[..|b| - 1], id);
    }
  }

  lemma {:induction false} OccursInChildren(parents: seq<Tag>, id: nat)
    ensures Occurs(parents, id) == OccursHere(parents, id) + Occurs(Children(parents), id)
  {
    if parents != [] {
      OccursInChildren(parents[..|parents| - 1], id);
      OccursConcat(Children(parents[..|parents| - 1]), parents[|parents| - 1].attributeTags, id);
    }
  }

  lemma {:induction false} OccursOnceThere(tags: seq<Tag>, tag: Tag)
    requires tag in tags
    ensures OccursHere(tags, tag.id) >= 1
  {
    if tags[|tags| - 1] != tag {
      OccursOnceThere(tags[..|tags| - 1], tag);
    }
  }

  lemma OccursInNamed(tags: seq<Tag>, name: string, id: nat)
    requires tags != []
    ensures var k := |tags| - 1;
            Occurs(Named(tags, name), id) == Occurs(Named(tags[..k], name), id) +
              if tags[k].name == name then Occurs([tags[k]], id) else 0
  {
    var k := |tags| - 1;
    OccursConcat(Named(tags[..k], name), [tags[k]], id);
    assert Named(tags[..k], name) + [] == Named(tags[..k], name);
  }

  /** Groups of different names share no tag. */
  lemma {:induction false} GroupsAreApart(tags: seq<Tag>, n: string, m: string, id: nat)
    requires n != m
    ensures Occurs(Named(tags, n), id) + Occurs(Named(tags, m), id) <= Occurs(tags, id)
  {
    if tags != [] {
      var k := |tags| - 1;
      GroupsAreApart(tags[..k], n, m, id);
      OccursInNamed(tags, n, id);
      OccursInNamed(tags, m, id);
      OccursConcat(tags[..k], [tags[k]], id);
      assert tags == tags[..k] + [tags[k]];
    }
  }

  lemma {:induction false} GroupIsWithin(tags: seq<Tag>, n: string, id: nat)
    ensures Occurs(Named(tags, n), id) <= Occurs(tags, id)
  {
    if tags != [] {
      var k := |tags| - 1;
      GroupIsWithin(tags[..k], n, id);
      OccursInNamed(tags, n, id);
      OccursConcat(tags[..k], [tags[k]], id);
      assert tags == tags[..k] + [tags[k]];
    }
  }

  /** The tags reached from `parents` by a path of property names. */
  function TagsAt(parents: seq<Tag>, path: seq<string>): seq<Tag>
    decreases |path|
  {
    if path == [] then parents else TagsAt(Named(Children(parents), path[0]), path[1..])
  }

  lemma {:induction false} LevelOccurs(parents: seq<Tag>, path: seq<string>, id: nat)
    ensures OccursHere(TagsAt(parents, path), id) <= Occurs(parents, id)
    decreases |path|
  {
    OccursInChildren(parents, id);
    if path != [] {
      LevelOccurs(Named(Children(parents), path[0]), path[1..], id);
      GroupIsWithin(Children(parents), path[0], id);
    }
  }

  // ---- what unification touches

  lemma {:induction false} AssignedElsewhere(parents: seq<Tag>, st: Plans, plan: seq<Shape>, id: nat)
    requires OccursHere(parents, id) == 0
    ensures PropsOf(Assigned(parents, st, plan), id) == PropsOf(st, id)
  {
    if parents != [] {
      AssignedElsewhere(parents[..|parents| - 1], st, plan, id);
    }
  }

  lemma {:induction false} AssignedAt(parents: seq<Tag>, st: Plans, plan: seq<Shape>, tag: Tag)
    requires tag in parents && OccursHere(parents, tag.id) <= 1
    ensures PropsOf(Assigned(parents, st, plan), tag.id) == PropsFor(tag, plan)
  {
    var n := |parents| - 1;
    if parents[n] != tag {
      OccursOnceThere(parents[..n], tag);
      AssignedAt(parents[..n], st, plan, tag);
    }
  }

  /** Tags outside the forest keep their properties. */
  lemma {:induction false} UnifiedElsewhere(parents: seq<Tag>, st: Plans, id: nat)
    requires Occurs(parents, id) == 0
    ensures PropsOf(Unified(parents, st), id) == PropsOf(st, id)
    decreases Height(parents), 0, 0
  {
    if parents != [] {
      ChildrenAreLower(parents);
      OccursInChildren(parents, id);
      var children := Children(parents);
      var names := DistinctNames(children);
      forall name ensures Occurs(Named(children, name), id) == 0 { GroupIsWithin(children, name, id); }
      GroupsElsewhere(children, names, st, id);
      var below := UnifiedGroups(children, names, st);
      AssignedElsewhere(parents, below, PlanOf(parents, below), id);
      UnifiedSteps(parents, st);
    }
  }

  lemma UnifiedSteps(parents: seq<Tag>, st: Plans)
    requires parents != []
    ensures var children := Children(parents);
            var below := UnifiedGroups(children, DistinctNames(children), st);
            Unified(parents, st) == Assigned(parents, below, PlanOf(parents, below))
  {
  }

  lemma UnifiedGroupsStep(children: seq<Tag>, names: seq<string>, st: Plans)
    requires names != []
    ensures var n := |names| - 1;
            UnifiedGroups(children, names, st) ==
              Unified(Named(children, names[n]), UnifiedGroups(children, names[..n], st))
  {
  }

  lemma {:induction false} GroupsElsewhere(children: seq<Tag>, names: seq<string>, st: Plans, id: nat)
    requires forall name <- names :: Occurs(Named(children, name), id) == 0
    ensures PropsOf(UnifiedGroups(children, names, st), id) == PropsOf(st, id)
    decreases Height(children), 1, |names|
  {
    if names != [] {
      hide Occurs, Named, PropsOf, Unified;
      var n := |names| - 1;
      assert names[n] in names && forall name <- names[..n] :: name in names;
      NamedIsNoHigher(children, names[n]);
      GroupsElsewhere(children, names[..n], st, id);
      UnifiedElsewhere(Named(children, names[n]), UnifiedGroups(children, names[..n], st), id);
      UnifiedGroupsStep(children, names, st);
    }
  }

  lemma {:induction false} AllPropsAgree(parents: seq<Tag>, st: Plans, st': Plans)
    requires forall p <- parents :: PropsOf(st, p.id) == PropsOf(st', p.id)
    ensures AllProps(parents, st) == AllProps(parents, st')
  {
    if parents != [] {
      assert forall p <- parents[..|parents| - 1] :: p in parents;
      AllPropsAgree(parents[..|parents| - 1], st, st');
    }
  }

  /** A plan depends on its own group's properties alone. */
  lemma PlanIsLocal(parents: seq<Tag>, st: Plans, st': Plans)
    requires forall p <- parents :: PropsOf(st, p.id) == PropsOf(st', p.id)
    ensures PlanOf(parents, st) == PlanOf(parents, st')
  {
    AllPropsAgree(parents, st, st');
  }

  lemma {:induction false} NamedMember(tags: seq<Tag>, name: string, tag: Tag)
    requires tag in Named(tags, name)
    ensures tag in tags && tag.name == name && name in DistinctNames(tags)
  {
    var n := |tags| - 1;
    if tag in Named(tags[..n], name) {
      NamedMember(tags[..n], name, tag);
    }
  }

  lemma {:induction false} PathStartsWithChild(parents: seq<Tag>, path: seq<string>, tag: Tag)
    requires path != [] && tag in TagsAt(parents, path)
    ensures path[0] in DistinctNames(Children(parents))
  {
    var group := Named(Children(parents), path[0]);
    if group == [] {
      NothingBelow(path[1..]);
    } else {
      NamedMember(Children(parents), path[0], group[0]);
    }
  }

  lemma {:induction false} NothingBelow(path: seq<string>)
    ensures TagsAt([], path) == []
    decreases |path|
  {
    if path != [] {
      NothingBelow(path[1..]);
    }
  }

  lemma LevelMemberOccurs(parents: seq<Tag>, path: seq<string>, tag: Tag)
    requires tag in TagsAt(parents, path)
    ensures Occurs(parents, tag.id) >= 1
  {
    OccursOnceThere(TagsAt(parents, path), tag);
    LevelOccurs(parents, path, tag.id);
  }

  /**
   * Unification gives each tag the plan of the group it is in: the tags of the
   * forest that are reached by the same path of property names. The plan reads
   * only what that group held before, whatever was rewritten meanwhile.
   */
  lemma {:induction false} TagGetsGroupPlan(parents: seq<Tag>, st: Plans, path: seq<string>, tag: Tag)
    requires Distinct(parents) && tag in TagsAt(parents, path)
    ensures PropsOf(Unified(parents, st), tag.id) == PropsFor(tag, PlanOf(TagsAt(parents, path), st))
    decreases Height(parents), 0, 0
  {
    if parents == [] {
      NothingBelow(path);
    } else {
      ChildrenAreLower(parents);
      UnifiedSteps(parents, st);
      var children := Children(parents);
      var names := DistinctNames(children);
      var below := UnifiedGroups(children, names, st);
      OccursInChildren(parents, tag.id);
      if path == [] {
        ParentsUntouched(parents, st);
        PlanIsLocal(parents, below, st);
        AssignedAt(parents, below, PlanOf(parents, below), tag);
      } else {
        PathStartsWithChild(parents, path, tag);
        ChildrenDistinct(parents);
        NamesDistinct(children);
        LevelMemberOccurs(Named(children, path[0]), path[1..], tag);
        GroupIsWithin(children, path[0], tag.id);
        GroupGetsPlan(children, names, st, path, tag);
        AssignedElsewhere(parents, below, PlanOf(parents, below), tag.id);
      }
    }
  }

  lemma ChildrenDistinct(parents: seq<Tag>)
    requires Distinct(parents)
    ensures Distinct(Children(parents))
  {
    forall id ensures Occurs(Children(parents), id) <= 1 { OccursInChildren(parents, id); }
  }

  /** Unifying the children leaves the parents' own properties alone. */
  lemma ParentsUntouched(parents: seq<Tag>, st: Plans)
    requires Distinct(parents)
    ensures var children := Children(parents);
            forall p <- parents ::
              PropsOf(UnifiedGroups(children, DistinctNames(children), st), p.id) == PropsOf(st, p.id)
  {
    var children := Children(parents);
    forall p | p in parents
      ensures PropsOf(UnifiedGroups(children, DistinctNames(children), st), p.id) == PropsOf(st, p.id)
    {
      OccursInChildren(parents, p.id);
      OccursOnceThere(parents, p);
      forall name ensures Occurs(Named(children, name), p.id) == 0 { GroupIsWithin(children, name, p.id); }
      GroupsElsewhere(children, DistinctNames(children), st, p.id);
    }
  }

  ghost predicate NoRepeat(names: seq<string>) {
    forall i, j :: 0 <= i < j < |names| ==> names[i] != names[j]
  }

  lemma {:induction false} NamesDistinct(tags: seq<Tag>)
    ensures NoRepeat(DistinctNames(tags))
  {
    if tags != [] {
      NamesDistinct(tags[..|tags| - 1]);
    }
  }

  lemma {:induction false} GroupGetsPlan(children: seq<Tag>, names: seq<string>, st: Plans, path: seq<string>, tag: Tag)
    requires Distinct(children) && NoRepeat(names) && path != [] && path[0] in names
    requires tag in TagsAt(Named(children, path[0]), path[1..])
    ensures PropsOf(UnifiedGroups(children, names, st), tag.id)
         == PropsFor(tag, PlanOf(TagsAt(Named(children, path[0]), path[1..]), st))
    decreases Height(children), 1, |names|
  {
    hide UnifiedGroups, Unified, PlanOf, PropsFor, Occurs, Named, TagsAt, PropsOf;
    var n := |names| - 1;
    var before, group := UnifiedGroups(children, names[..n], st), Named(children, path[0]);
    var level := TagsAt(group, path[1..]);
    UnifiedGroupsStep(children, names, st);
    NamedIsNoHigher(children, names[n]);
    LevelMemberOccurs(group, path[1..], tag);
    if names[n] == path[0] {
      forall id ensures Occurs(group, id) <= 1 { GroupIsWithin(children, path[0], id); }
      TagGetsGroupPlan(group, before, path[1..], tag);
      forall t | t in level ensures PropsOf(before, t.id) == PropsOf(st, t.id) {
        LevelMemberOccurs(group, path[1..], t);
        forall name | name in names[..n] ensures Occurs(Named(children, name), t.id) == 0 {
          GroupsAreApart(children, path[0], name, t.id);
        }
        GroupsElsewhere(children, names[..n], st, t.id);
      }
      PlanIsLocal(level, before, st);
    } else {
      GroupGetsPlan(children, names[..n], st, path, tag);
      GroupsAreApart(children, path[0], names[n], tag.id);
      UnifiedElsewhere(Named(children, names[n]), before, tag.id);
    }
  }

  function ShapesOf(props: seq<Prop>): seq<Shape> {
    seq(|props|, i requires 0 <= i < |props| =>
      Shape(props[i].name, props[i].cardinality, props[i].as', props[i].declared))
  }

  /** Any two tags reached by one path of names have the same names, cardinalities and shapes, at every depth. */
  lemma SameShapeAtEveryDepth(parents: seq<Tag>, st: Plans, path: seq<string>, t: Tag, u: Tag)
    requires Distinct(parents) && t in TagsAt(parents, path) && u in TagsAt(parents, path)
    ensures var after := Unified(parents, st);
            ShapesOf(PropsOf(after, t.id)) == ShapesOf(PropsOf(after, u.id)) == PlanOf(TagsAt(parents, path), st)
  {
    TagGetsGroupPlan(parents, st, path, t);
    TagGetsGroupPlan(parents, st, path, u);
  }

  /** A declared property decides; without one, `single` means that no run of any parent produces two. */
  lemma FallbackIsExact(parents: seq<Tag>, st: Plans, name: string)
    ensures var declared := FirstDeclared(AllProps(parents, st), name);
            var shape := ShapeFor(parents, st, name);
            shape.declared == declared.Some? &&
            (declared.Some? ==> shape == Shape(name, declared.value.cardinality, declared.value.as', true)) &&
            (declared.None? ==> (shape.cardinality == Single <==>
              forall parent, w :: parent in parents && CanProduce(parent.tree, w) ==> CountOf(w, name) <= 1))
  {
    forall parent | parent in parents
      ensures Repeats(parent.tree, name) <==> exists w :: CanProduce(parent.tree, w) && CountOf(w, name) >= 2
    {
      RangeIsSupremum(parent.tree, name, 2);
    }
  }

  /** Each property's `source` runs to exactly the tags of that name its owner produces. */
  lemma SourceIsProjection(parents: seq<Tag>, st: Plans, path: seq<string>, tag: Tag, i: nat, env: Env, at: seq<nat>)
    requires Distinct(parents) && tag in TagsAt(parents, path) && i < |PropsOf(Unified(parents, st), tag.id)|
    ensures var prop := PropsOf(Unified(parents, st), tag.id)[i];
            Run(env, at, prop.source) == Named(Run(env, at, tag.tree), prop.name)
  {
    TagGetsGroupPlan(parents, st, path, tag);
    var prop := PropsOf(Unified(parents, st), tag.id)[i];
    FilterProjects(env, at, tag.tree, prop.name);
  }

  lemma {:induction false} AddDeclaredMembers(names: seq<string>, props: seq<Prop>, name: string)
    requires NoRepeat(names)
    ensures NoRepeat(AddDeclared(names, props))
    ensures name in AddDeclared(names, props) <==>
              name in names || exists prop <- props :: prop.declared && prop.name == name
  {
    if props != [] {
      var n := |props| - 1;
      AddDeclaredMembers(names, props[..n], name);
      assert props == props[..n] + [props[n]];
    }
  }

  lemma {:induction false} DistinctNamesMembers(tags: seq<Tag>, name: string)
    ensures name in DistinctNames(tags) <==> exists tag <- tags :: tag.name == name
  {
    if tags != [] {
      var n := |tags| - 1;
      DistinctNamesMembers(tags[..n], name);
      assert tags == tags[..n] + [tags[n]];
    }
  }

  /** A group plans, once each, the names its tags nest and the names one of them declares, and no others. */
  lemma PlannedNames(parents: seq<Tag>, st: Plans, name: string)
    ensures NoRepeat(NamesOf(parents, st))
    ensures name in NamesOf(parents, st) <==>
              (exists child <- Children(parents) :: child.name == name) ||
              exists prop <- AllProps(parents, st) :: prop.declared && prop.name == name
  {
    NamesDistinct(Children(parents));
    DistinctNamesMembers(Children(parents), name);
    AddDeclaredMembers(DistinctNames(Children(parents)), AllProps(parents, st), name);
  }
}
