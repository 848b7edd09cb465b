/**
 * Which runs of an attribute-tag tree an evaluation of its tests and loops can
 * give (packages/core/src/attr-tag.ts).
 */
module AttrTagRuns {
  import opened AttrTag

  /** What an environment answers: a test of a branch, or the length of a loop's list. */
  datatype Choice = Test(id: nat) | Loop(id: nat)

  function Answer(env: Env, choice: Choice, at: seq<nat>): nat {
    match choice
    case Test(id) => if env.holds(id, at) then 1 else 0
    case Loop(id) => env.length(id, at)
  }

  function TestOf(branch: Branch): set<Choice> { if branch.test.Some? then {Test(branch.test.value)} else {} }

  function Choices(nodes: seq<Node>): set<Choice>
    decreases nodes, 0
  {
    if nodes == [] then {} else Choices(nodes[..|nodes| - 1]) + ChoicesOf(nodes[|nodes| - 1])
  }

  function ChoicesOf(node: Node): set<Choice>
    decreases node, 1
  {
    match node
    case One(_) => {}
    case If(branches) => BranchChoices(branches)
    case For(loop, nodes) => {Loop(loop)} + Choices(nodes)
  }

  function BranchChoices(branches: seq<Branch>): (r: set<Choice>)
    ensures forall i :: 0 <= i < |branches| ==> TestOf(branches[i]) <= r && Choices(branches[i].nodes) <= r
    decreases branches, 0
  {
    if branches == [] then {}
    else
      var last := branches[|branches| - 1];
      BranchChoices(branches[..|branches| - 1]) + TestOf(last) + Choices(last.nodes)
  }

  /** Tests and loops that can be met in one run are different, and an `<else>` comes last. */
  ghost predicate Separate(nodes: seq<Node>)
    decreases nodes, 0
  {
    nodes == [] ||
    var n := |nodes| - 1;
    Separate(nodes[..n]) && SeparateNode(nodes[n]) && Choices(nodes[..n]) !! ChoicesOf(nodes[n])
  }

  ghost predicate SeparateNode(node: Node)
    decreases node, 1
  {
    match node
    case One(_) => true
    case If(branches) =>
      (forall i :: 0 <= i < |branches| ==> Separate(branches[i].nodes)) && SeparateTests(branches)
    case For(loop, nodes) => Separate(nodes) && Loop(loop) !in Choices(nodes)
  }

  ghost predicate SeparateTests(branches: seq<Branch>) {
    (forall i :: 0 <= i < |branches| - 1 ==> branches[i].test.Some?) &&
    (forall i, j :: 0 <= i < j < |branches| ==> TestOf(branches[i]) !! TestOf(branches[j])) &&
    forall i, j :: 0 <= i < |branches| && 0 <= j < |branches| ==> TestOf(branches[i]) !! Choices(branches[j].nodes)
  }

  // ---- a run depends on the answers to its own choices

  ghost predicate Agree(a: Env, b: Env, choices: set<Choice>, at: seq<nat>) {
    forall c, within: seq<nat> :: c in choices && at <= within ==> Answer(a, c, within) == Answer(b, c, within)
  }

  lemma {:induction false} SameRun(a: Env, b: Env, at: seq<nat>, nodes: seq<Node>)
    requires Agree(a, b, Choices(nodes), at)
    ensures Run(a, at, nodes) == Run(b, at, nodes)
    decreases nodes, 0
  {
    if nodes != [] {
      SameRun(a, b, at, nodes[..|nodes| - 1]);
      SameNodeRun(a, b, at, nodes[|nodes| - 1]);
    }
  }

  lemma {:induction false} SameNodeRun(a: Env, b: Env, at: seq<nat>, node: Node)
    requires Agree(a, b, ChoicesOf(node), at)
    ensures RunNode(a, at, node) == RunNode(b, at, node)
    decreases node, 1
  {
    match node
    case One(_) =>
    case If(branches) =>
      SameTaken(a, b, at, branches, 0);
      var i := Taken(a, at, branches, 0);
      if i < |branches| {
        SameRun(a, b, at, branches[i].nodes);
      }
    case For(loop, nodes) =>
      assert Answer(a, Loop(loop), at) == Answer(b, Loop(loop), at);
      SameRepeat(a, b, at, nodes, a.length(loop, at));
  }

  lemma {:induction false} SameTaken(a: Env, b: Env, at: seq<nat>, branches: seq<Branch>, i: nat)
    requires i <= |branches| && Agree(a, b, BranchChoices(branches), at)
    ensures Taken(a, at, branches, i) == Taken(b, at, branches, i)
    decreases |branches| - i
  {
    if i < |branches| {
      if branches[i].test.Some? {
        assert Test(branches[i].test.value) in TestOf(branches[i]);
        assert Answer(a, Test(branches[i].test.value), at) == Answer(b, Test(branches[i].test.value), at);
      }
      SameTaken(a, b, at, branches, i + 1);
    }
  }

  lemma {:induction false} SameRepeat(a: Env, b: Env, at: seq<nat>, nodes: seq<Node>, times: nat)
    requires forall k: nat :: k < times ==> Agree(a, b, Choices(nodes), at + [k])
    ensures Repeat(a, at, nodes, times) == Repeat(b, at, nodes, times)
    decreases nodes, 1, times
  {
    if times > 0 {
      SameRepeat(a, b, at, nodes, times - 1);
      SameRun(a, b, at + [times - 1], nodes);
    }
  }

  // ---- putting environments together

  /** Answers `a`'s for the given choices, and `b`'s for the others. */
  function Join(a: Env, b: Env, choices: set<Choice>): Env {
    Env((id: nat, at: seq<nat>) => (if Test(id) in choices then a else b).holds(id, at),
        (id: nat, at: seq<nat>) => (if Loop(id) in choices then a else b).length(id, at))
  }

  lemma JoinAgrees(a: Env, b: Env, choices: set<Choice>, others: set<Choice>, at: seq<nat>)
    requires choices !! others
    ensures Agree(Join(a, b, choices), a, choices, at) && Agree(Join(a, b, choices), b, others, at)
  {
  }

  /** Answers `a`'s inside the round `at`, and `b`'s elsewhere. */
  function JoinRound(a: Env, b: Env, at: seq<nat>): Env {
    Env((id: nat, within: seq<nat>) => (if at <= within then a else b).holds(id, within),
        (id: nat, within: seq<nat>) => (if at <= within then a else b).length(id, within))
  }

  lemma JoinRoundAgrees(a: Env, b: Env, choices: set<Choice>, at: seq<nat>, round: nat)
    ensures Agree(JoinRound(a, b, at + [round]), a, choices, at + [round])
    ensures forall k: nat :: k < round ==> Agree(JoinRound(a, b, at + [round]), b, choices, at + [k])
  {
    forall k: nat, c, within: seq<nat> | k < round && c in choices && at + [k] <= within
      ensures Answer(JoinRound(a, b, at + [round]), c, within) == Answer(b, c, within)
    {
      assert within[|at|] == k;
    }
  }

  /** `env` with the loop's list that long. */
  function WithLength(env: Env, loop: nat, times: nat): Env {
    Env(env.holds, (id: nat, at: seq<nat>) => if id == loop then times else env.length(id, at))
  }

  /** `env` with the tests of the branches failing, up to one that holds, if `taken` is one. */
  function WithTests(env: Env, branches: seq<Branch>, taken: nat): Env {
    Env((id: nat, at: seq<nat>) =>
          if exists b <- branches :: Test(id) in TestOf(b) then
            taken < |branches| && Test(id) in TestOf(branches[taken])
          else env.holds(id, at),
        env.length)
  }

  lemma {:induction false} TakesBranch(env: Env, at: seq<nat>, branches: seq<Branch>, taken: nat, i: nat)
    requires SeparateTests(branches) && i <= taken <= |branches|
    requires taken == |branches| ==> branches == [] || branches[|branches| - 1].test.Some?
    ensures Taken(WithTests(env, branches, taken), at, branches, i) == taken
    decreases taken - i
  {
    if i < |branches| {
      var b := branches[i];
      if b.test.Some? {
        assert Test(b.test.value) in TestOf(b) && b in branches;
      }
      if i < taken {
        TakesBranch(env, at, branches, taken, i + 1);
      }
    }
  }

  lemma WithTestsAgrees(env: Env, at: seq<nat>, branches: seq<Branch>, taken: nat)
    requires SeparateTests(branches) && taken < |branches|
    ensures Agree(WithTests(env, branches, taken), env, Choices(branches[taken].nodes), at)
  {
    hide Choices;
    forall c, within: seq<nat> | c in Choices(branches[taken].nodes) && at <= within
      ensures Answer(WithTests(env, branches, taken), c, within) == Answer(env, c, within)
    {
      forall b | b in branches ensures c !in TestOf(b) {
        var j :| 0 <= j < |branches| && branches[j] == b;
      }
    }
  }

  // ---- every run is evaluated in some environment

  lemma {:induction false} Realise(nodes: seq<Node>, at: seq<nat>, w: seq<Tag>) returns (env: Env)
    requires Separate(nodes) && CanProduce(nodes, w)
    ensures Run(env, at, nodes) == w
    decreases nodes, 0
  {
    if nodes == [] {
      env := Env((_, _) => false, (_, _) => 0);
    } else {
      var n := |nodes| - 1;
      var k :| 0 <= k <= |w| && CanProduce(nodes[..n], w[..k]) && NodeCanProduce(nodes[n], w[k..]);
      var before := Realise(nodes[..n], at, w[..k]);
      var last := RealiseNode(nodes[n], at, w[k..]);
      env := Join(before, last, Choices(nodes[..n]));
      JoinAgrees(before, last, Choices(nodes[..n]), ChoicesOf(nodes[n]), at);
      SameRun(env, before, at, nodes[..n]);
      SameNodeRun(env, last, at, nodes[n]);
    }
  }

  lemma {:induction false} RealiseNode(node: Node, at: seq<nat>, w: seq<Tag>) returns (env: Env)
    requires SeparateNode(node) && NodeCanProduce(node, w)
    ensures RunNode(env, at, node) == w
    decreases node, 1
  {
    env := Env((_, _) => false, (_, _) => 0);
    match node
    case One(_) =>
    case If(branches) =>
      if i :| 0 <= i < |branches| && CanProduce(branches[i].nodes, w) {
        var inner := Realise(branches[i].nodes, at, w);
        env := WithTests(inner, branches, i);
        TakesBranch(inner, at, branches, i, 0);
        WithTestsAgrees(inner, at, branches, i);
        SameRun(env, inner, at, branches[i].nodes);
      } else {
        TakesBranch(env, at, branches, |branches|, 0);
        env := WithTests(env, branches, |branches|);
      }
    case For(loop, nodes) =>
      var times: nat :| CanRepeat(nodes, times, w);
      var inner := RealiseRounds(nodes, at, times, w);
      env := WithLength(inner, loop, times);
      SameRepeat(env, inner, at, nodes, times);
  }

  lemma {:induction false} RealiseRounds(nodes: seq<Node>, at: seq<nat>, times: nat, w: seq<Tag>) returns (env: Env)
    requires Separate(nodes) && CanRepeat(nodes, times, w)
    ensures Repeat(env, at, nodes, times) == w
    decreases nodes, 1, times
  {
    hide *;
    if times == 0 {
      env := Env((_, _) => false, (_, _) => 0);
      NoRounds(nodes, at, env, w);
    } else {
      var k := LastRound(nodes, times, w);
      var before := RealiseRounds(nodes, at, times - 1, w[..k]);
      var last := Realise(nodes, at + [times - 1], w[k..]);
      env := JoinRound(last, before, at + [times - 1]);
      JoinedRounds(last, before, nodes, at, times - 1);
      assert w == w[..k] + w[k..];
    }
  }

  lemma NoRounds(nodes: seq<Node>, at: seq<nat>, env: Env, w: seq<Tag>)
    requires CanRepeat(nodes, 0, w)
    ensures Repeat(env, at, nodes, 0) == w
  {
  }

  lemma LastRound(nodes: seq<Node>, times: nat, w: seq<Tag>) returns (k: nat)
    requires times > 0 && CanRepeat(nodes, times, w)
    ensures k <= |w| && CanRepeat(nodes, times - 1, w[..k]) && CanProduce(nodes, w[k..])
  {
    k :| k <= |w| && CanRepeat(nodes, times - 1, w[..k]) && CanProduce(nodes, w[k..]);
  }

  lemma JoinedRounds(last: Env, before: Env, nodes: seq<Node>, at: seq<nat>, round: nat)
    ensures var env := JoinRound(last, before, at + [round]);
            Repeat(env, at, nodes, round + 1) ==
              Repeat(before, at, nodes, round) + Run(last, at + [round], nodes)
  {
    var env := JoinRound(last, before, at + [round]);
    assert Repeat(env, at, nodes, round + 1) == Repeat(env, at, nodes, round) + Run(env, at + [round], nodes);
    hide *;
    JoinRoundAgrees(last, before, Choices(nodes), at, round);
    SameRepeat(env, before, at, nodes, round);
    SameRun(env, last, at + [round], nodes);
  }

  /** When tests and loops are separate, the possible runs are exactly the evaluated ones. */
  lemma PossibleIsEvaluated(nodes: seq<Node>, w: seq<Tag>)
    requires Separate(nodes)
    ensures CanProduce(nodes, w) <==> exists env: Env :: Run(env, [], nodes) == w
  {
    if CanProduce(nodes, w) {
      var env := Realise(nodes, [], w);
    }
    forall env: Env | Run(env, [], nodes) == w ensures CanProduce(nodes, w) {
      RunIsPossible(env, [], nodes);
    }
  }

  /** So the range of a name is the exact supremum of its count over all evaluations. */
  lemma RangeIsSupremumOfEvaluations(nodes: seq<Node>, name: string, count: nat)
    requires Separate(nodes)
    ensures RangeOf(nodes, name).AtLeast(count) <==>
      exists env: Env :: CountOf(Run(env, [], nodes), name) >= count
  {
    RangeIsSupremum(nodes, name, count);
    if RangeOf(nodes, name).AtLeast(count) {
      var w :| CanProduce(nodes, w) && CountOf(w, name) >= count;
      var env := Realise(nodes, [], w);
    }
    forall env: Env | CountOf(Run(env, [], nodes), name) >= count ensures RangeOf(nodes, name).AtLeast(count) {
      RunIsPossible(env, [], nodes);
    }
  }
}
