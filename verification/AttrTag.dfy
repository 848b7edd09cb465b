/**
 * Attribute-tag trees: what an attribute tag's occurrences under control flow
 * produce, how often, and the projection of a tree on one property
 * (packages/core/src/attr-tag.ts).
 */
module AttrTag {
  import opened Wrappers

  /** An attribute tag; `id` is its identity, `hasAttrs` whether it carries attributes. */
  datatype Tag = Tag(id: nat, name: string, hasAttrs: bool, attributeTags: seq<Tag>, tree: seq<Node>)

  /** A branch without a test is the `<else>`. */
  datatype Branch = Branch(test: Option<nat>, nodes: seq<Node>)

  datatype Node = One(tag: Tag) | If(branches: seq<Branch>) | For(loop: nat, nodes: seq<Node>)

  /** A count that a loop may make unbounded. */
  datatype Count = Finite(n: nat) | Infinite {
    predicate AtLeast(k: nat) { Infinite? || n >= k }
  }

  function Plus(a: Count, b: Count): Count {
    if a.Finite? && b.Finite? then Finite(a.n + b.n) else Infinite
  }

  function Max(a: Count, b: Count): Count {
    if a.Infinite? || b.Infinite? then Infinite else if a.n < b.n then b else a
  }

  // ---- running a tree

  /** What tests and loop lists evaluate to, at each iteration of the loops around them. */
  datatype Env = Env(holds: (nat, seq<nat>) -> bool, length: (nat, seq<nat>) -> nat)

  /** The branch an `<if>` chain takes: the first whose test holds, if any. */
  function Taken(env: Env, at: seq<nat>, branches: seq<Branch>, i: nat): (r: nat)
    requires i <= |branches|
    ensures i <= r <= |branches|
    decreases |branches| - i
  {
    if i == |branches| || branches[i].test.None? || env.holds(branches[i].test.value, at) then i
    else Taken(env, at, branches, i + 1)
  }

  /** The tags one run of `nodes` produces, in order; `at` are the indices of the loops being run. */
  function Run(env: Env, at: seq<nat>, nodes: seq<Node>): seq<Tag>
    decreases nodes, 0
  {
    if nodes == [] then [] else Run(env, at, nodes[..|nodes| - 1]) + RunNode(env, at, nodes[|nodes| - 1])
  }

  function RunNode(env: Env, at: seq<nat>, node: Node): seq<Tag>
    decreases node, 1
  {
    match node
    case One(tag) => [tag]
    case If(branches) =>
      var i := Taken(env, at, branches, 0);
      if i == |branches| then [] else Run(env, at, branches[i].nodes)
    case For(loop, nodes) => Repeat(env, at, nodes, env.length(loop, at))
  }

  function Repeat(env: Env, at: seq<nat>, nodes: seq<Node>, times: nat): seq<Tag>
    decreases nodes, 1, times
  {
    if times == 0 then [] else Repeat(env, at, nodes, times - 1) + Run(env, at + [times - 1], nodes)
  }

  // ---- filtering a tree by one name

  function Filtered(nodes: seq<Node>, name: string): seq<Node>
    decreases nodes, 0
  {
    if nodes == [] then [] else Filtered(nodes[..|nodes| - 1], name) + FilteredNode(nodes[|nodes| - 1], name)
  }

  function FilteredNode(node: Node, name: string): (r: seq<Node>)
    ensures |r| <= 1
    decreases node, 1
  {
    match node
    case One(tag) => if tag.name == name then [node] else []
    case If(branches) =>
      var bs := FilteredBranches(branches, name);
      if exists b <- bs :: b.nodes != [] then [If(bs)] else []
    case For(loop, nodes) =>
      var nested := Filtered(nodes, name);
      if nested != [] then [For(loop, nested)] else []
  }

  function FilteredBranches(branches: seq<Branch>, name: string): (r: seq<Branch>)
    ensures |r| == |branches|
    ensures forall i :: 0 <= i < |r| ==>
      r[i].test == branches[i].test && r[i].nodes == Filtered(branches[i].nodes, name)
    decreases branches, 0
  {
    if branches == [] then []
    else
      var n := |branches| - 1;
      FilteredBranches(branches[..n], name) + [Branch(branches[n].test, Filtered(branches[n].nodes, name))]
  }

  lemma FilteredStep(nodes: seq<Node>, k: nat, name: string)
    requires k < |nodes|
    ensures Filtered(nodes[..k + 1], name) == Filtered(nodes[..k], name) + FilteredNode(nodes[k], name)
  {
    hide FilteredNode;
    assert nodes[..k + 1][..k] == nodes[..k];
  }

  lemma NothingFiltered(nodes: seq<Node>, name: string)
    ensures Filtered(nodes[..0], name) == []
  {
  }

  method FilterTree(nodes: seq<Node>, name: string) returns (filtered: seq<Node>)
    ensures filtered == Filtered(nodes, name)
    decreases nodes
  {
    hide Filtered, FilteredBranches;
    filtered := [];
    NothingFiltered(nodes, name);
    for k := 0 to |nodes|
      invariant filtered == Filtered(nodes[..k], name)
    {
      var node := nodes[k];
      FilteredStep(nodes, k, name);
      match node
      case One(tag) =>
        if tag.name == name { filtered := filtered + [node]; }
      case If(branches) =>
        var bs: seq<Branch> := [];
        for i := 0 to |branches|
          invariant |bs| == i
          invariant forall j :: 0 <= j < i ==> bs[j] == Branch(branches[j].test, Filtered(branches[j].nodes, name))
        {
          var inner := FilterTree(branches[i].nodes, name);
          bs := bs + [Branch(branches[i].test, inner)];
        }
        assert bs == FilteredBranches(branches, name);
        if exists b <- bs :: b.nodes != [] { filtered := filtered + [If(bs)]; }
      case For(loop, inner) =>
        var nested := FilterTree(inner, name);
        if |nested| > 0 { filtered := filtered + [For(loop, nested)]; }
    }
    assert nodes[..|nodes|] == nodes;
  }

  /** The tags named `name`, in order. */
  function Named(tags: seq<Tag>, name: string): seq<Tag> {
    if tags == [] then []
    else Named(tags[..|tags| - 1], name) + if tags[|tags| - 1].name == name then [tags[|tags| - 1]] else []
  }

  lemma {:induction false} NamedConcat(a: seq<Tag>, b: seq<Tag>, name: string)
    ensures Named(a + b, name) == Named(a, name) + Named(b, name)
  {
    if b == [] {
      assert a + b == a;
    } else {
      var n := |b| - 1;
      assert (a + b)[..|a| + n] == a + b[..n];
      NamedConcat(a, b[..n], name);
    }
  }

  lemma RunOfOne(env: Env, at: seq<nat>, node: Node)
    ensures Run(env, at, [node]) == RunNode(env, at, node)
  {
    assert [node][..0] == [];
  }

  lemma {:induction false} RunConcat(env: Env, at: seq<nat>, a: seq<Node>, b: seq<Node>)
    ensures Run(env, at, a + b) == Run(env, at, a) + Run(env, at, b)
  {
    if b == [] {
      assert a + b == a;
    } else {
      var n := |b| - 1;
      assert (a + b)[..|a| + n] == a + b[..n];
      RunConcat(env, at, a, b[..n]);
    }
  }

  lemma {:induction false} SameBranchTaken(env: Env, at: seq<nat>, branches: seq<Branch>, name: string, i: nat)
    requires i <= |branches|
    ensures Taken(env, at, FilteredBranches(branches, name), i) == Taken(env, at, branches, i)
    decreases |branches| - i
  {
    if i < |branches| {
      SameBranchTaken(env, at, branches, name, i + 1);
    }
  }

  /**
   * In any environment, running the filtered tree produces exactly the tags of
   * that name that running the whole tree produces, in the same order.
   */
  lemma {:induction false} FilterProjects(env: Env, at: seq<nat>, nodes: seq<Node>, name: string)
    ensures Run(env, at, Filtered(nodes, name)) == Named(Run(env, at, nodes), name)
    decreases nodes, 0
  {
    if nodes != [] {
      var n := |nodes| - 1;
      FilterProjects(env, at, nodes[..n], name);
      FilterNodeProjects(env, at, nodes[n], name);
      RunConcat(env, at, Filtered(nodes[..n], name), FilteredNode(nodes[n], name));
      NamedConcat(Run(env, at, nodes[..n]), RunNode(env, at, nodes[n]), name);
    }
  }

  lemma {:induction false} FilterNodeProjects(env: Env, at: seq<nat>, node: Node, name: string)
    ensures Run(env, at, FilteredNode(node, name)) == Named(RunNode(env, at, node), name)
    decreases node, 1
  {
    match node
    case One(tag) =>
      RunOfOne(env, at, node);
      assert Named([tag][..0], name) == [];
    case If(branches) =>
      var bs, i := FilteredBranches(branches, name), Taken(env, at, branches, 0);
      RunOfOne(env, at, If(bs));
      SameBranchTaken(env, at, branches, name, 0);
      if i < |branches| {
        FilterProjects(env, at, branches[i].nodes, name);
        assert bs[i] in bs;
      }
    case For(loop, nodes) =>
      RunOfOne(env, at, For(loop, Filtered(nodes, name)));
      RepeatProjects(env, at, nodes, name, env.length(loop, at));
      if Filtered(nodes, name) == [] {
        RepeatNothing(env, at, env.length(loop, at));
      }
  }

  lemma {:induction false} RepeatProjects(env: Env, at: seq<nat>, nodes: seq<Node>, name: string, times: nat)
    ensures Repeat(env, at, Filtered(nodes, name), times) == Named(Repeat(env, at, nodes, times), name)
    decreases nodes, 1, times
  {
    if times > 0 {
      RepeatProjects(env, at, nodes, name, times - 1);
      FilterProjects(env, at + [times - 1], nodes, name);
      NamedConcat(Repeat(env, at, nodes, times - 1), Run(env, at + [times - 1], nodes), name);
    }
  }

  lemma {:induction false} RepeatNothing(env: Env, at: seq<nat>, times: nat)
    ensures Repeat(env, at, [], times) == []
  {
    if times > 0 {
      RepeatNothing(env, at, times - 1);
    }
  }

  // ---- filtering again

  lemma {:induction false} FilteredConcat(a: seq<Node>, b: seq<Node>, name: string)
    ensures Filtered(a + b, name) == Filtered(a, name) + Filtered(b, name)
  {
    if b == [] {
      assert a + b == a;
    } else {
      var n := |b| - 1;
      assert (a + b)[..|a| + n] == a + b[..n];
      FilteredConcat(a, b[..n], name);
    }
  }

  /** Filtering a filtered tree changes nothing. */
  lemma {:induction false} FilterIsIdempotent(nodes: seq<Node>, name: string)
    ensures Filtered(Filtered(nodes, name), name) == Filtered(nodes, name)
    decreases nodes, 0
  {
    if nodes != [] {
      var n := |nodes| - 1;
      FilterIsIdempotent(nodes[..n], name);
      FilterNodeIsIdempotent(nodes[n], name);
      FilteredConcat(Filtered(nodes[..n], name), FilteredNode(nodes[n], name), name);
    }
  }

  lemma {:induction false} FilterNodeIsIdempotent(node: Node, name: string)
    ensures Filtered(FilteredNode(node, name), name) == FilteredNode(node, name)
    decreases node, 1
  {
    match node
    case One(tag) => FilteredOne(node, name);
    case If(branches) =>
      var bs := FilteredBranches(branches, name);
      forall i | 0 <= i < |branches| ensures Filtered(bs[i].nodes, name) == bs[i].nodes {
        FilterIsIdempotent(branches[i].nodes, name);
      }
      assert FilteredBranches(bs, name) == bs;
      FilteredOne(If(bs), name);
    case For(loop, nodes) =>
      FilterIsIdempotent(nodes, name);
      FilteredOne(For(loop, Filtered(nodes, name)), name);
  }

  lemma FilteredOne(node: Node, name: string)
    ensures Filtered([node], name) == FilteredNode(node, name)
  {
    assert [node][..0] == [];
  }

  lemma NamedOne(tag: Tag, name: string)
    ensures Named([tag], name) == if tag.name == name then [tag] else []
  {
    assert [tag][..0] == [];
  }

  // ---- nothing idle is left

  /** Every `<if>` and `<for>`, at any depth, leads to a tag, and every tag has the name. */
  ghost predicate Sparse(nodes: seq<Node>, name: string)
    decreases nodes, 0
  {
    forall i :: 0 <= i < |nodes| ==> SparseNode(nodes[i], name)
  }

  ghost predicate SparseNode(node: Node, name: string)
    decreases node, 1
  {
    match node
    case One(tag) => tag.name == name
    case If(branches) =>
      (exists b <- branches :: b.nodes != []) &&
      forall i :: 0 <= i < |branches| ==> Sparse(branches[i].nodes, name)
    case For(_, nodes) => nodes != [] && Sparse(nodes, name)
  }

  /** Filtering leaves no branching and no loop that no tag of the name is in. */
  lemma {:induction false} FilteredIsSparse(nodes: seq<Node>, name: string)
    ensures Sparse(Filtered(nodes, name), name)
    decreases nodes, 0
  {
    if nodes != [] {
      FilteredIsSparse(nodes[..|nodes| - 1], name);
      FilteredNodeIsSparse(nodes[|nodes| - 1], name);
    }
  }

  lemma {:induction false} FilteredNodeIsSparse(node: Node, name: string)
    ensures Sparse(FilteredNode(node, name), name)
    decreases node, 1
  {
    match node
    case One(_) =>
    case If(branches) =>
      forall i | 0 <= i < |branches| ensures Sparse(Filtered(branches[i].nodes, name), name) {
        FilteredIsSparse(branches[i].nodes, name);
      }
    case For(_, nodes) => FilteredIsSparse(nodes, name);
  }

  // ---- how often a name occurs

  function RangeOf(nodes: seq<Node>, name: string): Count
    decreases nodes, 0
  {
    if nodes == [] then Finite(0) else Plus(RangeOf(nodes[..|nodes| - 1], name), RangeOfNode(nodes[|nodes| - 1], name))
  }

  function RangeOfNode(node: Node, name: string): Count
    decreases node, 1
  {
    match node
    case One(tag) => if tag.name == name then Finite(1) else Finite(0)
    case If(branches) => RangeOfBranches(branches, name)
    case For(_, nodes) => if RangeOf(nodes, name) == Finite(0) then Finite(0) else Infinite
  }

  function RangeOfBranches(branches: seq<Branch>, name: string): Count
    decreases branches, 0
  {
    if branches == [] then Finite(0)
    else Max(RangeOfBranches(branches[..|branches| - 1], name), RangeOf(branches[|branches| - 1].nodes, name))
  }

  /** `occurrenceRange`: the most occurrences, and whether a loop makes them unbounded. */
  method OccurrenceRange(nodes: seq<Node>, name: string) returns (max: Count, inFor: bool)
    ensures max == RangeOf(nodes, name) && (inFor <==> max.Infinite?)
    decreases nodes
  {
    max, inFor := Finite(0), false;
    for k := 0 to |nodes|
      invariant max == RangeOf(nodes[..k], name) && (inFor <==> max.Infinite?)
    {
      assert nodes[..k + 1][..k] == nodes[..k];
      match nodes[k]
      case One(tag) =>
        if tag.name == name { max := Plus(max, Finite(1)); }
      case For(_, body) =>
        var inner, _ := OccurrenceRange(body, name);
        if inner.AtLeast(1) { max, inFor := Infinite, true; }
      case If(branches) =>
        var most, any := Finite(0), false;
        for i := 0 to |branches|
          invariant most == RangeOfBranches(branches[..i], name) && (any <==> most.Infinite?)
        {
          var inner, innerFor := OccurrenceRange(branches[i].nodes, name);
          assert branches[..i + 1][..i] == branches[..i];
          most, any := Max(most, inner), any || innerFor;
        }
        assert branches[..|branches|] == branches;
        max, inFor := Plus(max, most), inFor || any;
    }
    assert nodes[..|nodes|] == nodes;
  }

  /** A run that may take any branch and any number of rounds can produce `w`. */
  ghost predicate CanProduce(nodes: seq<Node>, w: seq<Tag>)
    decreases nodes, 0
  {
    if nodes == [] then w == []
    else
      var n := |nodes| - 1;
      exists k :: 0 <= k <= |w| && CanProduce(nodes[..n], w[..k]) && NodeCanProduce(nodes[n], w[k..])
  }

  ghost predicate NodeCanProduce(node: Node, w: seq<Tag>)
    decreases node, 1
  {
    match node
    case One(tag) => w == [tag]
    case If(branches) =>
      (exists i :: 0 <= i < |branches| && CanProduce(branches[i].nodes, w)) ||
      (w == [] && (branches == [] || branches[|branches| - 1].test.Some?))
    case For(_, nodes) => exists times: nat :: CanRepeat(nodes, times, w)
  }

  ghost predicate CanRepeat(nodes: seq<Node>, times: nat, w: seq<Tag>)
    decreases nodes, 1, times
  {
    if times == 0 then w == []
    else exists k :: 0 <= k <= |w| && CanRepeat(nodes, times - 1, w[..k]) && CanProduce(nodes, w[k..])
  }

  function CountOf(w: seq<Tag>, name: string): nat { |Named(w, name)| }

  lemma CountSplit(w: seq<Tag>, k: nat, name: string)
    requires k <= |w|
    ensures CountOf(w, name) == CountOf(w[..k], name) + CountOf(w[k..], name)
  {
    assert w == w[..k] + w[k..];
    NamedConcat(w[..k], w[k..], name);
  }

  /** No run produces more than the range says. */
  lemma {:induction false} RangeIsBound(nodes: seq<Node>, name: string, w: seq<Tag>)
    requires CanProduce(nodes, w)
    ensures RangeOf(nodes, name).AtLeast(CountOf(w, name))
    decreases nodes, 0
  {
    if nodes != [] {
      var n := |nodes| - 1;
      var k :| 0 <= k <= |w| && CanProduce(nodes[..n], w[..k]) && NodeCanProduce(nodes[n], w[k..]);
      RangeIsBound(nodes[..n], name, w[..k]);
      NodeRangeIsBound(nodes[n], name, w[k..]);
      CountSplit(w, k, name);
    }
  }

  lemma {:induction false} NodeRangeIsBound(node: Node, name: string, w: seq<Tag>)
    requires NodeCanProduce(node, w)
    ensures RangeOfNode(node, name).AtLeast(CountOf(w, name))
    decreases node, 1
  {
    match node
    case One(tag) => NamedOne(tag, name);
    case If(branches) =>
      if i :| 0 <= i < |branches| && CanProduce(branches[i].nodes, w) {
        RangeIsBound(branches[i].nodes, name, w);
        BranchWithinMax(branches, name, i);
      }
    case For(_, nodes) =>
      var times: nat :| CanRepeat(nodes, times, w);
      if RangeOf(nodes, name) == Finite(0) {
        RepeatNone(nodes, name, times, w);
      }
  }

  lemma {:induction false} BranchWithinMax(branches: seq<Branch>, name: string, i: nat)
    requires i < |branches|
    ensures forall k: nat :: RangeOf(branches[i].nodes, name).AtLeast(k) ==> RangeOfBranches(branches, name).AtLeast(k)
  {
    var n := |branches| - 1;
    if i < n {
      BranchWithinMax(branches[..n], name, i);
    }
  }

  lemma {:induction false} RepeatNone(nodes: seq<Node>, name: string, times: nat, w: seq<Tag>)
    requires CanRepeat(nodes, times, w) && RangeOf(nodes, name) == Finite(0)
    ensures CountOf(w, name) == 0
    decreases nodes, 1, times
  {
    hide RangeOf, Named;
    if times == 0 {
      assert w == [];
      NoneNamed(name);
    } else {
      var k :| 0 <= k <= |w| && CanRepeat(nodes, times - 1, w[..k]) && CanProduce(nodes, w[k..]);
      RepeatNone(nodes, name, times - 1, w[..k]);
      RangeIsBound(nodes, name, w[k..]);
      CountSplit(w, k, name);
    }
  }

  lemma NoneNamed(name: string)
    ensures Named([], name) == []
  {
  }

  /** And every count within the range is reached by some run. */
  lemma {:induction false} RangeIsReached(nodes: seq<Node>, name: string, count: nat) returns (w: seq<Tag>)
    requires RangeOf(nodes, name).AtLeast(count)
    ensures CanProduce(nodes, w) && CountOf(w, name) >= count
    decreases nodes, 0
  {
    if nodes == [] {
      w := [];
    } else {
      var n := |nodes| - 1;
      var before := RangeOf(nodes[..n], name);
      var first := if before.AtLeast(count) then count else before.n;
      var u := RangeIsReached(nodes[..n], name, first);
      var v := NodeRangeIsReached(nodes[n], name, count - first);
      w := u + v;
      assert w[..|u|] == u && w[|u|..] == v;
      CountSplit(w, |u|, name);
    }
  }

  lemma {:induction false} NodeRangeIsReached(node: Node, name: string, count: nat) returns (w: seq<Tag>)
    requires RangeOfNode(node, name).AtLeast(count)
    ensures NodeCanProduce(node, w) && CountOf(w, name) >= count
    decreases node, 1
  {
    match node
    case One(tag) =>
      w := [tag];
      NamedOne(tag, name);
    case If(branches) =>
      if branches == [] {
        w := [];
      } else {
        var i := MaxIsSomeBranch(branches, name, count);
        w := RangeIsReached(branches[i].nodes, name, count);
      }
    case For(_, nodes) =>
      if RangeOf(nodes, name) == Finite(0) {
        w := [];
        assert CanRepeat(nodes, 0, w);
      } else {
        w := RepeatReaches(nodes, name, count);
        assert CanRepeat(nodes, count, w);
      }
  }

  lemma {:induction false} MaxIsSomeBranch(branches: seq<Branch>, name: string, count: nat) returns (i: nat)
    requires branches != [] && RangeOfBranches(branches, name).AtLeast(count)
    ensures i < |branches| && RangeOf(branches[i].nodes, name).AtLeast(count)
  {
    var n := |branches| - 1;
    assert n == 0 ==> RangeOfBranches(branches[..n], name) == Finite(0);
    if RangeOf(branches[n].nodes, name).AtLeast(count) {
      i := n;
    } else {
      i := MaxIsSomeBranch(branches[..n], name, count);
    }
  }

  lemma {:induction false} RepeatReaches(nodes: seq<Node>, name: string, times: nat) returns (w: seq<Tag>)
    requires RangeOf(nodes, name).AtLeast(1)
    ensures CanRepeat(nodes, times, w) && CountOf(w, name) >= times
    decreases nodes, 1, times
  {
    if times == 0 {
      w := [];
    } else {
      var u := RepeatReaches(nodes, name, times - 1);
      var v := RangeIsReached(nodes, name, 1);
      w := u + v;
      assert w[..|u|] == u && w[|u|..] == v;
      CountSplit(w, |u|, name);
    }
  }

  /** The range is the exact supremum of the name's count over all runs; it is infinite when runs have no bound. */
  lemma RangeIsSupremum(nodes: seq<Node>, name: string, count: nat)
    ensures RangeOf(nodes, name).AtLeast(count) <==> exists w :: CanProduce(nodes, w) && CountOf(w, name) >= count
  {
    if RangeOf(nodes, name).AtLeast(count) {
      var w := RangeIsReached(nodes, name, count);
    }
    forall w | CanProduce(nodes, w) && CountOf(w, name) >= count ensures RangeOf(nodes, name).AtLeast(count) {
      RangeIsBound(nodes, name, w);
    }
  }

  /** Every evaluated run is one of the possible ones. */
  lemma {:induction false} RunIsPossible(env: Env, at: seq<nat>, nodes: seq<Node>)
    ensures CanProduce(nodes, Run(env, at, nodes))
    decreases nodes, 0
  {
    if nodes != [] {
      var n := |nodes| - 1;
      var u, v := Run(env, at, nodes[..n]), RunNode(env, at, nodes[n]);
      RunIsPossible(env, at, nodes[..n]);
      NodeRunIsPossible(env, at, nodes[n]);
      assert (u + v)[..|u|] == u && (u + v)[|u|..] == v;
    }
  }

  lemma {:induction false} NodeRunIsPossible(env: Env, at: seq<nat>, node: Node)
    ensures NodeCanProduce(node, RunNode(env, at, node))
    decreases node, 1
  {
    match node
    case One(_) =>
    case If(branches) =>
      var i := Taken(env, at, branches, 0);
      if i < |branches| {
        RunIsPossible(env, at, branches[i].nodes);
      } else {
        TakenNone(env, at, branches, 0);
      }
    case For(loop, nodes) => RepeatIsPossible(env, at, nodes, env.length(loop, at));
  }

  lemma {:induction false} TakenNone(env: Env, at: seq<nat>, branches: seq<Branch>, i: nat)
    requires i <= |branches| && Taken(env, at, branches, i) == |branches|
    ensures forall k :: i <= k < |branches| ==> branches[k].test.Some?
    decreases |branches| - i
  {
    if i < |branches| {
      TakenNone(env, at, branches, i + 1);
    }
  }

  lemma {:induction false} RepeatIsPossible(env: Env, at: seq<nat>, nodes: seq<Node>, times: nat)
    ensures CanRepeat(nodes, times, Repeat(env, at, nodes, times))
    decreases nodes, 1, times
  {
    if times > 0 {
      var u, v := Repeat(env, at, nodes, times - 1), Run(env, at + [times - 1], nodes);
      RepeatIsPossible(env, at, nodes, times - 1);
      RunIsPossible(env, at + [times - 1], nodes);
      assert (u + v)[..|u|] == u && (u + v)[|u|..] == v;
    }
  }

  /** Projecting a tree on a name keeps that name's range. */
  lemma {:induction false} FilterKeepsRange(nodes: seq<Node>, name: string)
    ensures RangeOf(Filtered(nodes, name), name) == RangeOf(nodes, name)
    decreases nodes, 0
  {
    if nodes != [] {
      var n := |nodes| - 1;
      FilterKeepsRange(nodes[..n], name);
      FilterNodeKeepsRange(nodes[n], name);
      RangeConcat(Filtered(nodes[..n], name), FilteredNode(nodes[n], name), name);
    }
  }

  lemma {:induction false} RangeConcat(a: seq<Node>, b: seq<Node>, name: string)
    ensures RangeOf(a + b, name) == Plus(RangeOf(a, name), RangeOf(b, name))
  {
    if b == [] {
      assert a + b == a;
    } else {
      var n := |b| - 1;
      assert (a + b)[..|a| + n] == a + b[..n] && (a + b)[|a| + n] == b[n];
      RangeConcat(a, b[..n], name);
      PlusAssociates(RangeOf(a, name), RangeOf(b[..n], name), RangeOfNode(b[n], name));
    }
  }

  lemma PlusAssociates(a: Count, b: Count, c: Count)
    ensures Plus(Plus(a, b), c) == Plus(a, Plus(b, c))
  {
  }

  lemma RangeOfOne(node: Node, name: string)
    ensures RangeOf([node], name) == RangeOfNode(node, name)
  {
    assert [node][..0] == [];
  }

  lemma {:induction false} FilterNodeKeepsRange(node: Node, name: string)
    ensures RangeOf(FilteredNode(node, name), name) == RangeOfNode(node, name)
    decreases node, 1
  {
    hide RangeOf, RangeOfNode, RangeOfBranches, Filtered;
    match node
    case One(tag) => OneRange(tag, name);
    case If(branches) =>
      var bs := FilteredBranches(branches, name);
      FilterBranchesKeepRange(branches, name);
      IfRange(branches, bs, name);
    case For(loop, nodes) =>
      FilterKeepsRange(nodes, name);
      ForRange(loop, nodes, Filtered(nodes, name), name);
  }

  lemma ForRange(loop: nat, nodes: seq<Node>, nested: seq<Node>, name: string)
    requires RangeOf(nested, name) == RangeOf(nodes, name)
    ensures RangeOf(if nested != [] then [For(loop, nested)] else [], name) == RangeOfNode(For(loop, nodes), name)
  {
    RangeOfOne(For(loop, nested), name);
  }

  lemma OneRange(tag: Tag, name: string)
    ensures RangeOf(if tag.name == name then [One(tag)] else [], name) == RangeOfNode(One(tag), name)
  {
    RangeOfOne(One(tag), name);
  }

  lemma IfRange(branches: seq<Branch>, bs: seq<Branch>, name: string)
    requires RangeOfBranches(bs, name) == RangeOfBranches(branches, name)
    requires (forall b <- bs :: b.nodes == []) ==> RangeOfBranches(branches, name) == Finite(0)
    ensures RangeOf(if exists b <- bs :: b.nodes != [] then [If(bs)] else [], name) == RangeOfNode(If(branches), name)
  {
    RangeOfOne(If(bs), name);
  }

  lemma {:induction false} FilterBranchesKeepRange(branches: seq<Branch>, name: string)
    ensures var bs := FilteredBranches(branches, name);
            RangeOfBranches(bs, name) == RangeOfBranches(branches, name) &&
            ((forall b <- bs :: b.nodes == []) ==> RangeOfBranches(branches, name) == Finite(0))
    decreases branches, 0
  {
    if branches != [] {
      var n := |branches| - 1;
      var bs := FilteredBranches(branches, name);
      assert bs[..n] == FilteredBranches(branches[..n], name);
      FilterBranchesKeepRange(branches[..n], name);
      FilterKeepsRange(branches[n].nodes, name);
      assert bs[n] in bs && forall b <- bs[..n] :: b in bs;
    }
  }
}
