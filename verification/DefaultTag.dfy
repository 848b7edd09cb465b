/**
 * The `defaultTag` declared for an unnamed tag
 * (packages/core/src/contract-default-tag.ts): which of the enclosing tags
 * answers, and through which chain of attribute tags.
 */
module DefaultTag {
  import opened Wrappers

  /** A tag's contract, or the declaration of an attribute tag: the two are read alike. */
  datatype Contract = Contract(defaultTag: Option<string>, named: map<string, Option<Contract>>,
    wildcards: seq<Wildcard>)

  /** An `attributeTags["*"]` entry; no pattern matches every name. */
  datatype Wildcard = Wildcard(pattern: Option<string>, contract: Contract)

  /**
   * An enclosing tag: the contract it matched as a wildcard child, if it did,
   * and whether Marko's lookup has a definition for it that is no element's (`known`).
   */
  datatype Parent = Parent(name: string, attributeTag: bool, wildcard: Option<Contract>, known: bool)

  const CONTROL_FLOW_TAGS: seq<string> := ["if", "else-if", "else", "for"]
  const BUILTIN_CUSTOM_TAGS: set<string> := {"try"}
  const WILDCARD: string := "*"

  /** The registered tags, and whether a pattern matches the whole of a name. */
  datatype Registry = Registry(customTags: map<string, Contract>, matches: (string, string) -> bool)
  {
    predicate IsStructural(parent: Parent) {
      if parent.attributeTag then false
      else if parent.wildcard.Some? then false
      else if parent.name in customTags then false
      else if parent.name in CONTROL_FLOW_TAGS || parent.name in BUILTIN_CUSTOM_TAGS then true
      else parent.known
    }

    predicate IsControlFlow(parent: Parent) { IsStructural(parent) && parent.name in CONTROL_FLOW_TAGS }

    /** A tag that answers for itself, whatever it answers. */
    predicate IsAuthored(parent: Parent) { !parent.attributeTag && !IsStructural(parent) }

    function ContractOf(parent: Parent): Option<Contract> {
      if parent.wildcard.Some? then parent.wildcard
      else if parent.name in customTags then Some(customTags[parent.name])
      else None
    }

    function FirstMatch(wildcards: seq<Wildcard>, name: string): Option<Contract> {
      if wildcards == [] then None
      else if wildcards[0].pattern == None || matches(wildcards[0].pattern.value, name) then Some(wildcards[0].contract)
      else FirstMatch(wildcards[1..], name)
    }

    /** `attributeTagDeclarationFor(declaration?.attributeTags, name)`. */
    function DeclarationFor(declaration: Option<Contract>, name: string): Option<Contract> {
      if declaration == None then None
      else if name != WILDCARD && name in declaration.value.named then declaration.value.named[name]
      else FirstMatch(declaration.value.wildcards, name)
    }

    /** The declaration the names lead to, one inside the other, the first name outermost. */
    function Follow(declaration: Option<Contract>, names: seq<string>): Option<Contract> {
      if names == [] then declaration
      else DeclarationFor(Follow(declaration, names[..|names| - 1]), names[|names| - 1])
    }

    /** Reads the parents one by one; `chain` is the attribute tags read since the last tag that owned some. */
    function Declared(parents: seq<Parent>, chain: seq<string>): Option<string> {
      if parents == [] then None
      else
        var parent, rest := parents[0], parents[1..];
        if parent.attributeTag then Declared(rest, chain + [TagName(parent)])
        else if IsControlFlow(parent) then Declared(rest, chain)
        else if IsStructural(parent) then Declared(rest, [])
        else DefaultOf(Follow(ContractOf(parent), Backwards(chain)))
    }
  }

  function TagName(parent: Parent): string {
    if |parent.name| > 0 && parent.name[0] == '@' then parent.name[1..] else parent.name
  }

  /** An empty default is none. */
  function DefaultOf(declaration: Option<Contract>): Option<string> {
    if declaration.Some? && declaration.value.defaultTag != Some("") then declaration.value.defaultTag else None
  }

  function Backwards(names: seq<string>): seq<string> {
    if names == [] then [] else [names[|names| - 1]] + Backwards(names[..|names| - 1])
  }

  method LookupDeclared(registry: Registry, parents: seq<Parent>) returns (found: Option<string>)
    ensures found == registry.Declared(parents, [])
  {
    var i := 0;
    while i < |parents|
      invariant 0 <= i <= |parents|
      invariant registry.Declared(parents, []) == registry.Declared(parents[i..], [])
    {
      var parent := parents[i];
      assert parents[i..][1..] == parents[i + 1..];
      if registry.IsStructural(parent) {
        i := i + 1;
        continue;
      }
      if !parent.attributeTag {
        return DefaultOf(registry.ContractOf(parent));
      }
      var chain: seq<string> := [];
      ghost var first := i;
      while i < |parents|
        invariant first <= i <= |parents|
        invariant i == first ==> chain == []
        invariant i > first ==> chain != []
        invariant registry.Declared(parents, []) == registry.Declared(parents[i..], chain)
      {
        var entry := parents[i];
        assert parents[i..][1..] == parents[i + 1..];
        if entry.attributeTag {
          chain := chain + [TagName(entry)];
          i := i + 1;
        } else if registry.IsStructural(entry) {
          i := i + 1;
          if entry.name !in CONTROL_FLOW_TAGS {
            chain := [];
            break;
          }
        } else {
          break;
        }
      }
      if chain == [] { continue; }
      if i >= |parents| || parents[i].attributeTag { return None; }
      var declaration := registry.ContractOf(parents[i]);
      var names := Backwards(chain);
      for k := 0 to |names|
        invariant declaration == registry.Follow(registry.ContractOf(parents[i]), names[..k])
      {
        declaration := registry.DeclarationFor(declaration, names[k]);
        assert names[..k + 1][..k] == names[..k];
      }
      assert names[..|names|] == names;
      return DefaultOf(declaration);
    }
    return None;
  }

  // ---- what the answer means

  /**
   * The declaration of the innermost of some nested attribute tags, nearest
   * first: each is looked up in the one around it.
   */
  function DeclarationAt(registry: Registry, tags: seq<Parent>, owner: Parent): Option<Contract> {
    if tags == [] then registry.ContractOf(owner)
    else registry.DeclarationFor(DeclarationAt(registry, tags[1..], owner), TagName(tags[0]))
  }

  predicate AttributeTags(tags: seq<Parent>) { forall tag :: tag in tags ==> tag.attributeTag }

  function Names(tags: seq<Parent>): seq<string> {
    if tags == [] then [] else [TagName(tags[0])] + Names(tags[1..])
  }

  lemma {:induction false} BackwardsFromTheFront(names: seq<string>)
    requires names != []
    ensures Backwards(names) == Backwards(names[1..]) + [names[0]]
  {
    if |names| > 1 {
      BackwardsFromTheFront(names[..|names| - 1]);
      assert names[..|names| - 1][1..] == names[1..][..|names| - 2];
    }
  }

  lemma {:induction false} FollowIsDeclarationAt(registry: Registry, tags: seq<Parent>, owner: Parent)
    ensures registry.Follow(registry.ContractOf(owner), Backwards(Names(tags))) == DeclarationAt(registry, tags, owner)
  {
    if tags != [] {
      FollowIsDeclarationAt(registry, tags[1..], owner);
      BackwardsFromTheFront(Names(tags));
      assert Names(tags)[1..] == Names(tags[1..]);
      var before := Backwards(Names(tags[1..]));
      assert (before + [TagName(tags[0])])[..|before|] == before;
    }
  }

  /** A run of attribute tags only lengthens the chain. */
  lemma {:induction false} ChainGrows(registry: Registry, tags: seq<Parent>, after: seq<Parent>, chain: seq<string>)
    requires AttributeTags(tags)
    ensures registry.Declared(tags + after, chain) == registry.Declared(after, chain + Names(tags))
  {
    if tags == [] {
      assert tags + after == after;
      assert chain + Names(tags) == chain;
    } else {
      assert (tags + after)[1..] == tags[1..] + after;
      ChainGrows(registry, tags[1..], after, chain + [TagName(tags[0])]);
      assert chain + [TagName(tags[0])] + Names(tags[1..]) == chain + Names(tags);
    }
  }

  /** The names are resolved from the owner inwards, and nothing around the owner matters. */
  lemma OwnerAnswers(registry: Registry, tags: seq<Parent>, owner: Parent, after: seq<Parent>)
    requires AttributeTags(tags) && registry.IsAuthored(owner)
    ensures registry.Declared(tags + [owner] + after, []) == DefaultOf(DeclarationAt(registry, tags, owner))
  {
    assert tags + [owner] + after == tags + ([owner] + after);
    ChainGrows(registry, tags, [owner] + after, []);
    assert [] + Names(tags) == Names(tags);
    FollowIsDeclarationAt(registry, tags, owner);
  }

  /** A structural tag that is no control flow owns the attribute tags in it: they are skipped together. */
  lemma StructuralOwnerIsSkipped(registry: Registry, tags: seq<Parent>, owner: Parent, after: seq<Parent>)
    requires AttributeTags(tags) && registry.IsStructural(owner) && !registry.IsControlFlow(owner)
    ensures registry.Declared(tags + [owner] + after, []) == registry.Declared(after, [])
  {
    assert tags + [owner] + after == tags + ([owner] + after);
    ChainGrows(registry, tags, [owner] + after, []);
    assert ([owner] + after)[1..] == after;
  }

  /** Attribute tags that no tag owns have no declaration. */
  lemma OrphansDeclareNothing(registry: Registry, tags: seq<Parent>)
    requires AttributeTags(tags)
    ensures registry.Declared(tags, []) == None
  {
    assert tags + [] == tags;
    ChainGrows(registry, tags, [], []);
  }

  function WithoutControlFlow(registry: Registry, parents: seq<Parent>): seq<Parent> {
    if parents == [] then []
    else if registry.IsControlFlow(parents[0]) then WithoutControlFlow(registry, parents[1..])
    else [parents[0]] + WithoutControlFlow(registry, parents[1..])
  }

  lemma {:induction false} ControlFlowIsDropped(registry: Registry, parents: seq<Parent>, chain: seq<string>)
    ensures registry.Declared(parents, chain) == registry.Declared(WithoutControlFlow(registry, parents), chain)
    decreases |parents|
  {
    if parents != [] {
      var parent, rest := parents[0], parents[1..];
      var kept := WithoutControlFlow(registry, rest);
      ControlFlowIsDropped(registry, rest, chain);
      ControlFlowIsDropped(registry, rest, []);
      ControlFlowIsDropped(registry, rest, chain + [TagName(parent)]);
      assert ([parent] + kept)[1..] == kept;
    }
  }

  /** Two lists of parents that differ in control flow alone have the same answer. */
  lemma ControlFlowIsTransparent(registry: Registry, one: seq<Parent>, other: seq<Parent>)
    requires WithoutControlFlow(registry, one) == WithoutControlFlow(registry, other)
    ensures registry.Declared(one, []) == registry.Declared(other, [])
  {
    ControlFlowIsDropped(registry, one, []);
    ControlFlowIsDropped(registry, other, []);
  }

  /** Everything past the first authored parent is ignored. */
  lemma {:induction false} OnlyToTheFirstAuthored(
      registry: Registry, before: seq<Parent>, owner: Parent, after: seq<Parent>, chain: seq<string>)
    requires registry.IsAuthored(owner)
    ensures registry.Declared(before + [owner] + after, chain) == registry.Declared(before + [owner], chain)
    decreases |before|
  {
    if before == [] {
      assert ([owner] + after)[0] == owner && before + [owner] + after == [owner] + after;
      assert before + [owner] == [owner];
    } else {
      var rest := before[1..];
      assert (before + [owner] + after)[1..] == rest + [owner] + after;
      assert (before + [owner])[1..] == rest + [owner];
      OnlyToTheFirstAuthored(registry, rest, owner, after, chain);
      OnlyToTheFirstAuthored(registry, rest, owner, after, []);
      OnlyToTheFirstAuthored(registry, rest, owner, after, chain + [TagName(before[0])]);
    }
  }

  /** How many attribute tags stand in front. */
  function Leading(parents: seq<Parent>): (n: nat)
    ensures n <= |parents| && AttributeTags(parents[..n]) && (n < |parents| ==> !parents[n].attributeTag)
  {
    if parents == [] || !parents[0].attributeTag then 0
    else
      assert parents[..1 + Leading(parents[1..])] == [parents[0]] + parents[1..][..Leading(parents[1..])];
      1 + Leading(parents[1..])
  }

  /**
   * The rule: with control flow out of sight, the attribute tags in front
   * belong to the tag around them; that tag answers if it is authored, and if
   * it is not the question goes to the tags around it.
   */
  function Answer(registry: Registry, parents: seq<Parent>): Option<string>
    decreases |parents|
  {
    var n := Leading(parents);
    if n == |parents| then None
    else if registry.IsStructural(parents[n]) then Answer(registry, parents[n + 1..])
    else DefaultOf(DeclarationAt(registry, parents[..n], parents[n]))
  }

  lemma {:induction false} DeclaredIsAnswer(registry: Registry, parents: seq<Parent>)
    requires forall parent :: parent in parents ==> !registry.IsControlFlow(parent)
    ensures registry.Declared(parents, []) == Answer(registry, parents)
    decreases |parents|
  {
    var n := Leading(parents);
    if n == |parents| {
      assert parents[..n] == parents;
      OrphansDeclareNothing(registry, parents);
    } else {
      assert parents == parents[..n] + [parents[n]] + parents[n + 1..];
      if registry.IsStructural(parents[n]) {
        StructuralOwnerIsSkipped(registry, parents[..n], parents[n], parents[n + 1..]);
        DeclaredIsAnswer(registry, parents[n + 1..]);
      } else {
        OwnerAnswers(registry, parents[..n], parents[n], parents[n + 1..]);
      }
    }
  }

  lemma {:induction false} NoControlFlowIsLeft(registry: Registry, parents: seq<Parent>)
    ensures forall parent :: parent in WithoutControlFlow(registry, parents) ==> !registry.IsControlFlow(parent)
  {
    if parents != [] {
      NoControlFlowIsLeft(registry, parents[1..]);
    }
  }

  /** The two loops give the answer of the rule. */
  lemma LookupFollowsTheRule(registry: Registry, parents: seq<Parent>)
    ensures registry.Declared(parents, []) == Answer(registry, WithoutControlFlow(registry, parents))
  {
    ControlFlowIsDropped(registry, parents, []);
    NoControlFlowIsLeft(registry, parents);
    DeclaredIsAnswer(registry, WithoutControlFlow(registry, parents));
  }

  // ---- the answer, told of the tags and the contracts alone

  const FLOW_NAMES: set<string> := {"if", "else-if", "else", "for"}

  /** A control-flow tag, `<try>` or a tag of Marko's lookup that is no element, if it has no contract of its own. */
  predicate Structural(registry: Registry, parent: Parent) {
    !parent.attributeTag && parent.wildcard.None? && parent.name !in registry.customTags &&
    (parent.name in FLOW_NAMES || parent.name == "try" || parent.known)
  }

  /** The contract a tag matched as a wildcard child, else the one registered for its name. */
  predicate HasContract(registry: Registry, parent: Parent, contract: Contract) {
    if parent.wildcard.Some? then parent.wildcard.value == contract
    else parent.name in registry.customTags && registry.customTags[parent.name] == contract
  }

  predicate Fits(registry: Registry, wildcard: Wildcard, name: string) {
    wildcard.pattern.None? || registry.matches(wildcard.pattern.value, name)
  }

  ghost predicate FirstFits(registry: Registry, wildcards: seq<Wildcard>, name: string, i: nat) {
    i < |wildcards| && Fits(registry, wildcards[i], name) &&
    forall j :: 0 <= j < i ==> !Fits(registry, wildcards[j], name)
  }

  /** A name that is listed has what it is listed with; `*` and any other have the first wildcard that fits. */
  ghost predicate Declares(registry: Registry, declaration: Contract, name: string, inner: Contract) {
    if name != "*" && name in declaration.named then declaration.named[name] == Some(inner)
    else
      exists i: nat :: FirstFits(registry, declaration.wildcards, name, i) &&
        declaration.wildcards[i].contract == inner
  }

  /** The tag is written `@name`. */
  predicate IsNamed(tag: Parent, name: string) {
    tag.name == "@" + name || (tag.name == name && !("@" <= tag.name))
  }

  ghost predicate DeclaresTag(registry: Registry, declaration: Contract, tag: Parent, inner: Contract) {
    exists name :: IsNamed(tag, name) && Declares(registry, declaration, name, inner)
  }

  /** The contracts of the attribute tags, innermost first, and last the owner's: each declares the one before. */
  ghost predicate Resolves(registry: Registry, tags: seq<Parent>, owner: Parent, contracts: seq<Contract>) {
    |contracts| == |tags| + 1 && HasContract(registry, owner, contracts[|tags|]) &&
    forall i :: 0 <= i < |tags| ==> DeclaresTag(registry, contracts[i + 1], tags[i], contracts[i])
  }

  ghost predicate ResolvesTo(registry: Registry, tags: seq<Parent>, owner: Parent, contract: Contract) {
    exists contracts :: Resolves(registry, tags, owner, contracts) && contracts[0] == contract
  }

  lemma {:induction false} FirstMatchFits(registry: Registry, wildcards: seq<Wildcard>, name: string)
    ensures match registry.FirstMatch(wildcards, name)
            case None => forall i :: 0 <= i < |wildcards| ==> !Fits(registry, wildcards[i], name)
            case Some(found) =>
              exists i: nat :: FirstFits(registry, wildcards, name, i) && wildcards[i].contract == found
  {
    if wildcards != [] {
      FirstMatchFits(registry, wildcards[1..], name);
      if Fits(registry, wildcards[0], name) {
        assert FirstFits(registry, wildcards, name, 0);
      } else if registry.FirstMatch(wildcards[1..], name).Some? {
        var i: nat :| FirstFits(registry, wildcards[1..], name, i) &&
          wildcards[1..][i].contract == registry.FirstMatch(wildcards[1..], name).value;
        assert FirstFits(registry, wildcards, name, i + 1);
      }
    }
  }

  lemma DeclarationIsDeclared(registry: Registry, declaration: Contract, tag: Parent, inner: Contract)
    ensures registry.DeclarationFor(Some(declaration), TagName(tag)) == Some(inner) <==>
            DeclaresTag(registry, declaration, tag, inner)
  {
    var name := TagName(tag);
    FirstMatchFits(registry, declaration.wildcards, name);
    assert IsNamed(tag, name) && forall other :: IsNamed(tag, other) ==> other == name by {
      if "@" <= tag.name {
        assert tag.name == "@" + tag.name[1..];
        forall other | tag.name == "@" + other ensures other == name {
          assert other == ("@" + other)[1..];
        }
      }
    }
    if DeclaresTag(registry, declaration, tag, inner) && !(name != "*" && name in declaration.named) {
      var i: nat :| FirstFits(registry, declaration.wildcards, name, i) &&
        declaration.wildcards[i].contract == inner;
      var k: nat :| FirstFits(registry, declaration.wildcards, name, k) &&
        Some(declaration.wildcards[k].contract) == registry.FirstMatch(declaration.wildcards, name);
      assert i == k;
    }
  }

  lemma ResolvesStep(registry: Registry, tags: seq<Parent>, owner: Parent, contracts: seq<Contract>)
    requires tags != [] && |contracts| > 1
    ensures Resolves(registry, tags, owner, contracts) <==>
            DeclaresTag(registry, contracts[1], tags[0], contracts[0]) &&
            Resolves(registry, tags[1..], owner, contracts[1..])
  {
    hide DeclaresTag, HasContract;
    var tags', contracts' := tags[1..], contracts[1..];
    if Resolves(registry, tags, owner, contracts) {
      assert DeclaresTag(registry, contracts[0 + 1], tags[0], contracts[0]);
      forall i | 0 <= i < |tags'| ensures DeclaresTag(registry, contracts'[i + 1], tags'[i], contracts'[i]) {
        assert DeclaresTag(registry, contracts[i + 1 + 1], tags[i + 1], contracts[i + 1]);
      }
    }
    if Resolves(registry, tags', owner, contracts') && DeclaresTag(registry, contracts[1], tags[0], contracts[0]) {
      forall i | 0 <= i < |tags| ensures DeclaresTag(registry, contracts[i + 1], tags[i], contracts[i]) {
        if i > 0 { assert DeclaresTag(registry, contracts'[i - 1 + 1], tags'[i - 1], contracts'[i - 1]); }
      }
    }
  }

  lemma {:induction false} DeclarationIsResolved(
      registry: Registry, tags: seq<Parent>, owner: Parent, contract: Contract)
    ensures DeclarationAt(registry, tags, owner) == Some(contract) <==> ResolvesTo(registry, tags, owner, contract)
  {
    var at := DeclarationAt(registry, tags, owner);
    if tags == [] {
      if at == Some(contract) {
        assert Resolves(registry, tags, owner, [contract]);
      }
    } else {
      hide DeclaresTag;
      var outer := DeclarationAt(registry, tags[1..], owner);
      if at == Some(contract) {
        hide Resolves;
        DeclarationIsResolved(registry, tags[1..], owner, outer.value);
        DeclarationIsDeclared(registry, outer.value, tags[0], contract);
        var contracts :| Resolves(registry, tags[1..], owner, contracts) && contracts[0] == outer.value;
        assert ([contract] + contracts)[1..] == contracts;
        ResolvesStep(registry, tags, owner, [contract] + contracts);
      }
      if ResolvesTo(registry, tags, owner, contract) {
        var contracts :| Resolves(registry, tags, owner, contracts) && contracts[0] == contract;
        ResolvesStep(registry, tags, owner, contracts);
        DeclarationIsResolved(registry, tags[1..], owner, contracts[1]);
        DeclarationIsDeclared(registry, contracts[1], tags[0], contract);
      }
    }
  }

  /** The attribute tags among the parents. */
  function TagsIn(parents: seq<Parent>): seq<Parent> {
    if parents == [] then []
    else (if parents[0].attributeTag then [parents[0]] else []) + TagsIn(parents[1..])
  }

  /**
   * `owner` is the first tag that answers, and `first` follows the last tag in
   * front of it that owns attribute tags without answering: only attribute tags
   * and control flow stand between.
   */
  ghost predicate IsOwner(registry: Registry, parents: seq<Parent>, first: nat, owner: nat) {
    first <= owner < |parents| &&
    !parents[owner].attributeTag && !Structural(registry, parents[owner]) &&
    (forall i :: 0 <= i < owner ==> parents[i].attributeTag || Structural(registry, parents[i])) &&
    (forall i :: first <= i < owner ==> parents[i].attributeTag || parents[i].name in FLOW_NAMES) &&
    (first > 0 ==> !parents[first - 1].attributeTag && parents[first - 1].name !in FLOW_NAMES)
  }

  /** The owner's declaration of the attribute tags, one in the other, has that default. */
  ghost predicate HasDefault(registry: Registry, tags: seq<Parent>, owner: Parent, name: string) {
    name != "" &&
    exists contract: Contract :: contract.defaultTag == Some(name) && ResolvesTo(registry, tags, owner, contract)
  }

  /** `pending` are attribute tags read before the parents. */
  ghost predicate Answers(
      registry: Registry, pending: seq<Parent>, parents: seq<Parent>, first: nat, owner: nat, name: string)
  {
    IsOwner(registry, parents, first, owner) &&
    HasDefault(registry, (if first == 0 then pending else []) + TagsIn(parents[first..owner]), parents[owner], name)
  }

  ghost predicate Answered(registry: Registry, pending: seq<Parent>, parents: seq<Parent>, name: string) {
    exists first: nat, owner: nat :: Answers(registry, pending, parents, first, owner, name)
  }

  lemma StructuralIs(registry: Registry, parent: Parent)
    ensures registry.IsStructural(parent) <==> Structural(registry, parent)
    ensures registry.IsControlFlow(parent) <==> Structural(registry, parent) && parent.name in FLOW_NAMES
  {
    assert CONTROL_FLOW_TAGS[0] == "if" && CONTROL_FLOW_TAGS[1] == "else-if" && CONTROL_FLOW_TAGS[2] == "else" &&
      CONTROL_FLOW_TAGS[3] == "for";
  }

  /** Attribute tags and control flow in front of an owner. */
  lemma OwnerBehind(registry: Registry, parents: seq<Parent>, first: nat, owner: nat)
    requires parents != [] && (parents[0].attributeTag || Structural(registry, parents[0]))
    requires parents[0].attributeTag || parents[0].name in FLOW_NAMES
    ensures IsOwner(registry, parents, first, owner) ==>
              owner > 0 && first != 1 && IsOwner(registry, parents[1..], if first == 0 then 0 else first - 1, owner - 1)
    ensures IsOwner(registry, parents[1..], first, owner) ==>
              IsOwner(registry, parents, if first == 0 then 0 else first + 1, owner + 1)
  {
    hide Structural, FLOW_NAMES;
    var rest := parents[1..];
    assert forall i :: 0 <= i < |rest| ==> rest[i] == parents[i + 1];
    assert forall i :: 1 <= i < |parents| ==> parents[i] == rest[i - 1];
  }

  lemma OwnerPast(registry: Registry, parents: seq<Parent>, first: nat, owner: nat)
    requires parents != [] && Structural(registry, parents[0]) && parents[0].name !in FLOW_NAMES
    ensures IsOwner(registry, parents, first, owner) ==>
              owner > 0 && first > 0 && IsOwner(registry, parents[1..], first - 1, owner - 1)
    ensures IsOwner(registry, parents[1..], first, owner) ==> IsOwner(registry, parents, first + 1, owner + 1)
  {
    assert Structural(registry, parents[0]) && !parents[0].attributeTag;
    hide Structural, FLOW_NAMES;
    var rest := parents[1..];
    assert forall i :: 0 <= i < |rest| ==> rest[i] == parents[i + 1];
    assert forall i :: 1 <= i < |parents| ==> parents[i] == rest[i - 1];
  }

  lemma SliceBehind<T>(s: seq<T>, from: nat, to': nat)
    requires s != [] && from <= to' < |s|
    ensures s[from + 1..to' + 1] == s[1..][from..to']
  {
    assert forall i :: 0 <= i < to' - from ==> s[from + 1..to' + 1][i] == s[from + 1 + i] == s[1..][from..to'][i];
  }

  lemma TagsOfFront(parents: seq<Parent>, n: nat)
    requires 0 < n <= |parents|
    ensures TagsIn(parents[0..n]) == TagsIn(parents[..1]) + TagsIn(parents[1..][0..n - 1])
  {
    var all, one := parents[0..n], parents[..1];
    assert all[0] == parents[0] && one[0] == parents[0];
    assert all[1..] == parents[1..n];
    SliceBehind(parents, 0, n - 1);
    assert one[1..] == [];
    assert TagsIn(one) == (if parents[0].attributeTag then [parents[0]] else []);
  }

  /** The attribute tags in front of an owner, counted without the first parent. */
  lemma TagsBehind(parents: seq<Parent>, first: nat, owner: nat, pending: seq<Parent>)
    requires parents != [] && first <= owner < |parents| - 1
    ensures TagsIn(parents[first + 1..owner + 1]) == TagsIn(parents[1..][first..owner])
    ensures pending + TagsIn(parents[0..owner + 1]) == pending + TagsIn(parents[..1]) + TagsIn(parents[1..][0..owner])
  {
    hide TagsIn;
    SliceBehind(parents, first, owner);
    TagsOfFront(parents, owner + 1);
  }

  /** One more parent in front that is no owner of attribute tags: it joins those pending, or is control flow. */
  lemma AnswersBehind(registry: Registry, pending: seq<Parent>, parents: seq<Parent>, name: string)
    requires parents != [] && (parents[0].attributeTag || Structural(registry, parents[0]))
    requires parents[0].attributeTag || parents[0].name in FLOW_NAMES
    ensures Answered(registry, pending, parents, name) <==>
            Answered(registry, pending + TagsIn(parents[..1]), parents[1..], name)
  {
    hide HasDefault, Structural, FLOW_NAMES, TagsIn;
    var own, rest := TagsIn(parents[..1]), parents[1..];
    if Answered(registry, pending, parents, name) {
      var first: nat, owner: nat :| Answers(registry, pending, parents, first, owner, name);
      var first': nat := if first == 0 then 0 else first - 1;
      OwnerBehind(registry, parents, first, owner);
      hide IsOwner;
      TagsBehind(parents, first', owner - 1, pending);
      assert Answers(registry, pending + own, rest, first', owner - 1, name);
    }
    if Answered(registry, pending + own, rest, name) {
      var first: nat, owner: nat :| Answers(registry, pending + own, rest, first, owner, name);
      var first': nat := if first == 0 then 0 else first + 1;
      OwnerBehind(registry, parents, first, owner);
      hide IsOwner;
      TagsBehind(parents, first, owner, pending);
      assert Answers(registry, pending, parents, first', owner + 1, name);
    }
  }

  /** A structural tag that is no control flow takes the pending attribute tags with it. */
  lemma AnswersPast(registry: Registry, pending: seq<Parent>, parents: seq<Parent>, name: string)
    requires parents != [] && Structural(registry, parents[0]) && parents[0].name !in FLOW_NAMES
    ensures Answered(registry, pending, parents, name) <==> Answered(registry, [], parents[1..], name)
  {
    hide HasDefault, Structural, FLOW_NAMES, TagsIn;
    var rest := parents[1..];
    if Answered(registry, pending, parents, name) {
      var first: nat, owner: nat :| Answers(registry, pending, parents, first, owner, name);
      OwnerPast(registry, parents, first, owner);
      hide IsOwner;
      TagsBehind(parents, first - 1, owner - 1, []);
      assert Answers(registry, [], rest, first - 1, owner - 1, name);
    }
    if Answered(registry, [], rest, name) {
      var first: nat, owner: nat :| Answers(registry, [], rest, first, owner, name);
      OwnerPast(registry, parents, first, owner);
      hide IsOwner;
      TagsBehind(parents, first, owner, []);
      assert Answers(registry, pending, parents, first + 1, owner + 1, name);
    }
  }

  /** An authored tag in front answers for the pending attribute tags. */
  lemma AnswersHere(registry: Registry, pending: seq<Parent>, parents: seq<Parent>, name: string)
    requires parents != [] && !parents[0].attributeTag && !Structural(registry, parents[0])
    ensures Answered(registry, pending, parents, name) <==>
            DefaultOf(DeclarationAt(registry, pending, parents[0])) == Some(name)
  {
    hide ResolvesTo, Structural;
    assert pending + TagsIn(parents[0..0]) == pending;
    var at := DeclarationAt(registry, pending, parents[0]);
    if Answered(registry, pending, parents, name) {
      var first: nat, owner: nat :| Answers(registry, pending, parents, first, owner, name);
      assert owner == 0 && pending + TagsIn(parents[0..0]) == pending;
      var contract: Contract :| contract.defaultTag == Some(name) &&
        ResolvesTo(registry, pending, parents[0], contract);
      DeclarationIsResolved(registry, pending, parents[0], contract);
    }
    if DefaultOf(at) == Some(name) {
      DeclarationIsResolved(registry, pending, parents[0], at.value);
      assert Answers(registry, pending, parents, 0, 0, name);
    }
  }

  lemma {:induction false} DeclaredIsAnswered(
      registry: Registry, pending: seq<Parent>, parents: seq<Parent>, name: string)
    requires AttributeTags(pending)
    ensures registry.Declared(parents, Names(pending)) == Some(name) <==> Answered(registry, pending, parents, name)
    decreases |parents|
  {
    hide Answered, Structural;
    if parents == [] {
      NothingAnswers(registry, pending, name);
    } else {
      var parent, rest := parents[0], parents[1..];
      StructuralIs(registry, parent);
      if parent.attributeTag {
        AnswersBehind(registry, pending, parents, name);
        assert TagsIn(parents[..1]) == [parent];
        NamesOneMore(pending, parent);
        DeclaredIsAnswered(registry, pending + [parent], rest, name);
      } else if registry.IsControlFlow(parent) {
        AnswersBehind(registry, pending, parents, name);
        assert pending + TagsIn(parents[..1]) == pending;
        DeclaredIsAnswered(registry, pending, rest, name);
      } else if registry.IsStructural(parent) {
        AnswersPast(registry, pending, parents, name);
        DeclaredIsAnswered(registry, [], rest, name);
      } else {
        AnswersHere(registry, pending, parents, name);
        FollowIsDeclarationAt(registry, pending, parent);
      }
    }
  }

  lemma NothingAnswers(registry: Registry, pending: seq<Parent>, name: string)
    ensures !Answered(registry, pending, [], name)
  {
  }

  lemma {:induction false} NamesOneMore(tags: seq<Parent>, tag: Parent)
    ensures Names(tags + [tag]) == Names(tags) + [TagName(tag)]
  {
    if tags == [] {
      assert tags + [tag] == [tag];
      assert [tag][1..] == [];
    } else {
      assert (tags + [tag])[1..] == tags[1..] + [tag];
      NamesOneMore(tags[1..], tag);
    }
  }

  /**
   * The lookup answers a name exactly when the first tag that answers for
   * itself, or its declaration of the attribute tags inside it, one in the
   * other, has that default.
   */
  lemma LookupIsResolved(registry: Registry, parents: seq<Parent>, name: string)
    ensures registry.Declared(parents, []) == Some(name) <==> Answered(registry, [], parents, name)
  {
    DeclaredIsAnswered(registry, [], parents, name);
  }
}
