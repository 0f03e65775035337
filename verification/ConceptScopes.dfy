/** Admissibility scopes and their meet. */
module ConceptScopes {
  import opened Text

  datatype EntityTypeInfo = EntityTypeInfo(hierarchy: seq<string>, classes: set<string>)

  datatype HierarchyPredicate = HierarchyPredicate(index: int, values: set<string>) {
    predicate Admits(info: EntityTypeInfo) {
      match Level(info.hierarchy, index)
      case None => false
      case Some(level) => level in values
    }
  }

  /** Indexing as Python does it: a negative index counts from the end. */
  function Level(hierarchy: seq<string>, index: int): Option<string> {
    if 0 <= index < |hierarchy| then Some(hierarchy[index])
    else if -|hierarchy| <= index < 0 then Some(hierarchy[|hierarchy| + index])
    else None
  }

  datatype EndpointRule = EndpointRule(
    connectionType: Option<string>, sourceTypes: Option<set<string>>, targetTypes: Option<set<string>>)
  {
    predicate AppliesTo(c: string) { connectionType.None? || connectionType.value == c }

    predicate Admits(s: string, t: string, c: string) {
      AppliesTo(c) && Within(s, sourceTypes) && Within(t, targetTypes)
    }
  }

  /** `None` restricts nothing. */
  predicate Within(x: string, xs: Option<set<string>>) { xs.None? || x in xs.value }

  datatype ConceptScope = ConceptScope(
    entityTypes: Option<set<string>>,
    entityClassPredicates: seq<set<string>>,
    hierarchyPredicates: seq<HierarchyPredicate>,
    connectionTypes: Option<set<string>>,
    endpointRules: seq<EndpointRule>,
    excludedEntityTypes: set<string>,
    excludedHierarchyPredicates: seq<HierarchyPredicate>,
    excludedConnectionTypes: set<string>)
  {
    predicate EntityExcluded(e: string, info: Option<EntityTypeInfo>) {
      || e in excludedEntityTypes
      || (info.Some? && exists p | p in excludedHierarchyPredicates :: p.Admits(info.value))
    }

    predicate AdmitsEntityType(e: string, info: Option<EntityTypeInfo>) {
      && Within(e, entityTypes)
      && (entityClassPredicates != [] || hierarchyPredicates != [] ==>
            && info.Some?
            && (forall classes | classes in entityClassPredicates :: classes * info.value.classes != {})
            && AllAdmit(hierarchyPredicates, info.value))
      && !EntityExcluded(e, info)
    }

    predicate AdmitsConnectionType(c: string) { Within(c, connectionTypes) && c !in excludedConnectionTypes }

    /** Everything a connection must pass besides the endpoint rules. */
    predicate AdmitsEnds(s: string, t: string, c: string) {
      && Within(s, entityTypes) && Within(t, entityTypes)
      && !EntityExcluded(s, None) && !EntityExcluded(t, None)
      && AdmitsConnectionType(c)
    }

    predicate RulesAdmit(s: string, t: string, c: string) {
      HasApplicable(endpointRules, c) ==> exists r | r in endpointRules :: r.Admits(s, t, c)
    }

    predicate AdmitsConnection(s: string, t: string, c: string) { AdmitsEnds(s, t, c) && RulesAdmit(s, t, c) }

    /** `self & other`. */
    function Meet(other: ConceptScope): ConceptScope {
      var connections := IntersectOptional(connectionTypes, other.connectionTypes);
      ConceptScope(
        IntersectOptional(entityTypes, other.entityTypes),
        entityClassPredicates + other.entityClassPredicates,
        MergedByIndex(hierarchyPredicates + other.hierarchyPredicates),
        connections,
        IntersectEndpointRules(endpointRules, other.endpointRules, connections),
        excludedEntityTypes + other.excludedEntityTypes,
        excludedHierarchyPredicates + other.excludedHierarchyPredicates,
        excludedConnectionTypes + other.excludedConnectionTypes)
    }
  }

  predicate AllAdmit(ps: seq<HierarchyPredicate>, info: EntityTypeInfo) { forall p | p in ps :: p.Admits(info) }

  predicate HasApplicable(rules: seq<EndpointRule>, c: string) { exists r | r in rules :: r.AppliesTo(c) }

  function IntersectOptional(left: Option<set<string>>, right: Option<set<string>>): (r: Option<set<string>>)
    ensures forall x :: Within(x, r) <==> Within(x, left) && Within(x, right)
  {
    if left.None? then right else if right.None? then left else Some(left.value * right.value)
  }

  // ---------------------------------------------------------------- hierarchy predicates, merged per index

  /** The merge after reading one more predicate: narrowed in place, or appended. */
  function Narrowed(merged: seq<HierarchyPredicate>, p: HierarchyPredicate): seq<HierarchyPredicate> {
    if merged == [] then [p]
    else if merged[0].index == p.index then [merged[0].(values := merged[0].values * p.values)] + merged[1..]
    else [merged[0]] + Narrowed(merged[1..], p)
  }

  /** One predicate per index, in order of first appearance, holding the values common to all. */
  function MergedByIndex(ps: seq<HierarchyPredicate>): seq<HierarchyPredicate> {
    if ps == [] then [] else Narrowed(MergedByIndex(ps[..|ps| - 1]), ps[|ps| - 1])
  }

  lemma {:induction false} NarrowedAdmits(merged: seq<HierarchyPredicate>, p: HierarchyPredicate, info: EntityTypeInfo)
    ensures AllAdmit(Narrowed(merged, p), info) <==> AllAdmit(merged, info) && p.Admits(info)
    ensures Narrowed(merged, p) != []
  {
    if merged != [] {
      assert merged == [merged[0]] + merged[1..];
      NarrowedAdmits(merged[1..], p, info);
      if merged[0].index == p.index {
        AllAdmitCons(merged[0].(values := merged[0].values * p.values), merged[1..], info);
      } else {
        AllAdmitCons(merged[0], Narrowed(merged[1..], p), info);
      }
      AllAdmitCons(merged[0], merged[1..], info);
    }
  }

  lemma AllAdmitCons(p: HierarchyPredicate, rest: seq<HierarchyPredicate>, info: EntityTypeInfo)
    ensures AllAdmit([p] + rest, info) <==> p.Admits(info) && AllAdmit(rest, info)
  {
    assert p in [p] + rest && forall q | q in rest :: q in [p] + rest;
  }

  lemma {:induction false} MergedAdmits(ps: seq<HierarchyPredicate>, info: EntityTypeInfo)
    ensures AllAdmit(MergedByIndex(ps), info) <==> AllAdmit(ps, info)
    ensures MergedByIndex(ps) == [] <==> ps == []
  {
    if ps != [] {
      var rest := ps[..|ps| - 1];
      var last := ps[|ps| - 1];
      MergedAdmits(rest, info);
      NarrowedAdmits(MergedByIndex(rest), last, info);
      assert ps == rest + [last];
      assert AllAdmit(ps, info) <==> AllAdmit(rest, info) && last.Admits(info);
    }
  }

  function Listed(order: seq<int>, byIndex: map<int, set<string>>): seq<HierarchyPredicate>
    requires forall k | 0 <= k < |order| :: order[k] in byIndex
  {
    seq(|order|, k requires 0 <= k < |order| => HierarchyPredicate(order[k], byIndex[order[k]]))
  }

  /** The loop over a dictionary and an order list computes that merge. */
  method IntersectHierarchyPredicates(left: seq<HierarchyPredicate>, right: seq<HierarchyPredicate>)
    returns (merged: seq<HierarchyPredicate>)
    ensures merged == MergedByIndex(left + right)
    ensures forall info :: AllAdmit(merged, info) <==> AllAdmit(left, info) && AllAdmit(right, info)
    ensures forall i, j | 0 <= i < j < |merged| :: merged[i].index != merged[j].index
  {
    var all := left + right;
    var byIndex: map<int, set<string>> := map[];
    var order: seq<int> := [];
    for n := 0 to |all|
      invariant forall k | 0 <= k < |order| :: order[k] in byIndex
      invariant forall i | i in byIndex :: i in order
      invariant forall i, j | 0 <= i < j < |order| :: order[i] != order[j]
      invariant Listed(order, byIndex) == MergedByIndex(all[..n])
    {
      var p := all[n];
      assert all[..n + 1][..n] == all[..n];
      if p.index !in byIndex {
        NarrowedAppends(order, byIndex, p);
        order := order + [p.index];
        byIndex := byIndex[p.index := p.values];
      } else {
        NarrowedInPlace(order, byIndex, p);
        byIndex := byIndex[p.index := byIndex[p.index] * p.values];
      }
    }
    assert all[..|all|] == all;
    merged := Listed(order, byIndex);
    forall info ensures AllAdmit(merged, info) <==> AllAdmit(left, info) && AllAdmit(right, info) {
      MergedAdmits(all, info);
    }
  }

  lemma {:induction false} NarrowedAppends(order: seq<int>, byIndex: map<int, set<string>>, p: HierarchyPredicate)
    requires forall k | 0 <= k < |order| :: order[k] in byIndex
    requires p.index !in order
    ensures Narrowed(Listed(order, byIndex), p) == Listed(order, byIndex) + [p]
    ensures Listed(order + [p.index], byIndex[p.index := p.values]) == Listed(order, byIndex) + [p]
  {
    if order != [] {
      assert Listed(order, byIndex)[1..] == Listed(order[1..], byIndex);
      NarrowedAppends(order[1..], byIndex, p);
    }
  }

  lemma {:induction false} NarrowedInPlace(order: seq<int>, byIndex: map<int, set<string>>, p: HierarchyPredicate)
    requires forall k | 0 <= k < |order| :: order[k] in byIndex
    requires p.index in order && forall i, j | 0 <= i < j < |order| :: order[i] != order[j]
    ensures Narrowed(Listed(order, byIndex), p)
         == Listed(order, byIndex[p.index := byIndex[p.index] * p.values])
  {
    var narrowed := byIndex[p.index := byIndex[p.index] * p.values];
    assert Listed(order, byIndex)[1..] == Listed(order[1..], byIndex);
    assert Listed(order, narrowed)[1..] == Listed(order[1..], narrowed);
    if order[0] == p.index {
      assert Listed(order[1..], byIndex) == Listed(order[1..], narrowed);
    } else {
      NarrowedInPlace(order[1..], byIndex, p);
    }
  }

  // ---------------------------------------------------------------- endpoint rules, combined pairwise

  function CombineConnectionType(left: Option<string>, right: Option<string>): Option<Option<string>> {
    if left.None? then Some(right) else if right.None? || left == right then Some(left) else None
  }

  function CombineEndpointRule(left: EndpointRule, right: EndpointRule): Option<EndpointRule> {
    match CombineConnectionType(left.connectionType, right.connectionType)
    case None => None
    case Some(connectionType) =>
      var sources := IntersectOptional(left.sourceTypes, right.sourceTypes);
      var targets := IntersectOptional(left.targetTypes, right.targetTypes);
      if sources == Some({}) || targets == Some({}) then None
      else Some(EndpointRule(connectionType, sources, targets))
  }

  predicate RuleCanApply(rule: EndpointRule, connectionTypes: Option<set<string>>) {
    connectionTypes.None? || rule.connectionType.None? || rule.connectionType.value in connectionTypes.value
  }

  function Applicable(rules: seq<EndpointRule>, connectionTypes: Option<set<string>>): seq<EndpointRule> {
    if rules == [] then []
    else
      var last := rules[|rules| - 1];
      Applicable(rules[..|rules| - 1], connectionTypes) + if RuleCanApply(last, connectionTypes) then [last] else []
  }

  lemma {:induction false} ApplicableMembers(rules: seq<EndpointRule>, connectionTypes: Option<set<string>>)
    ensures forall x :: x in Applicable(rules, connectionTypes) <==> x in rules && RuleCanApply(x, connectionTypes)
  {
    if rules != [] {
      var init := rules[..|rules| - 1];
      assert rules == init + [rules[|rules| - 1]];
      ApplicableMembers(init, connectionTypes);
    }
  }

  /** A pair of rules both of which speak of `c`, whose endpoint sets still meet. */
  predicate Survives(l: EndpointRule, r: EndpointRule, c: string) {
    CombineEndpointRule(l, r).Some? && l.AppliesTo(c) && r.AppliesTo(c)
  }

  /** `m` is what some pair of rules combines to. */
  ghost predicate IsCombination(m: EndpointRule, left: seq<EndpointRule>, right: seq<EndpointRule>) {
    exists l, r | l in left && r in right :: CombineEndpointRule(l, r) == Some(m)
  }

  /** What one pair of rules contributes to the meet. */
  function Contribution(l: EndpointRule, r: EndpointRule, connectionTypes: Option<set<string>>): seq<EndpointRule> {
    match CombineEndpointRule(l, r)
    case None => []
    case Some(m) => if RuleCanApply(m, connectionTypes) then [m] else []
  }

  function CombineRow(l: EndpointRule, right: seq<EndpointRule>, connectionTypes: Option<set<string>>): seq<EndpointRule> {
    if right == [] then []
    else CombineRow(l, right[..|right| - 1], connectionTypes) + Contribution(l, right[|right| - 1], connectionTypes)
  }

  function CombineAll(left: seq<EndpointRule>, right: seq<EndpointRule>, connectionTypes: Option<set<string>>): seq<EndpointRule> {
    if left == [] then []
    else CombineAll(left[..|left| - 1], right, connectionTypes) + CombineRow(left[|left| - 1], right, connectionTypes)
  }

  function IntersectEndpointRules(
    left: seq<EndpointRule>, right: seq<EndpointRule>, connectionTypes: Option<set<string>>): seq<EndpointRule>
  {
    if left == [] then Applicable(right, connectionTypes)
    else if right == [] then Applicable(left, connectionTypes)
    else CombineAll(left, right, connectionTypes)
  }

  lemma {:induction false} RowMembers(l: EndpointRule, right: seq<EndpointRule>, connectionTypes: Option<set<string>>)
    ensures forall m :: m in CombineRow(l, right, connectionTypes) <==>
              RuleCanApply(m, connectionTypes) && exists r | r in right :: CombineEndpointRule(l, r) == Some(m)
  {
    if right != [] {
      var init := right[..|right| - 1];
      assert right == init + [right[|right| - 1]];
      RowMembers(l, init, connectionTypes);
    }
  }

  lemma {:induction false} CombineMembers(left: seq<EndpointRule>, right: seq<EndpointRule>, connectionTypes: Option<set<string>>)
    ensures forall m :: m in CombineAll(left, right, connectionTypes) <==>
              RuleCanApply(m, connectionTypes) && IsCombination(m, left, right)
  {
    if left != [] {
      var init := left[..|left| - 1];
      assert left == init + [left[|left| - 1]];
      CombineMembers(init, right, connectionTypes);
      RowMembers(left[|left| - 1], right, connectionTypes);
    }
  }

  lemma RowStep(l: EndpointRule, right: seq<EndpointRule>, j: nat, connectionTypes: Option<set<string>>)
    requires j < |right|
    ensures CombineRow(l, right[..j + 1], connectionTypes)
         == CombineRow(l, right[..j], connectionTypes) + Contribution(l, right[j], connectionTypes)
  {
    assert right[..j + 1][..j] == right[..j];
  }

  lemma RowsStep(left: seq<EndpointRule>, i: nat, right: seq<EndpointRule>, connectionTypes: Option<set<string>>)
    requires i < |left|
    ensures CombineAll(left[..i + 1], right, connectionTypes)
         == CombineAll(left[..i], right, connectionTypes) + CombineRow(left[i], right, connectionTypes)
  {
    assert left[..i + 1][..i] == left[..i];
  }

  /** The nested loops build those rules in that order. */
  method CombineInLoops(left: seq<EndpointRule>, right: seq<EndpointRule>, connectionTypes: Option<set<string>>)
    returns (combined: seq<EndpointRule>)
    ensures combined == CombineAll(left, right, connectionTypes)
    ensures forall m :: m in combined <==> RuleCanApply(m, connectionTypes) && IsCombination(m, left, right)
  {
    combined := [];
    for i := 0 to |left|
      invariant combined == CombineAll(left[..i], right, connectionTypes)
    {
      ghost var before := combined;
      for j := 0 to |right|
        invariant combined == before + CombineRow(left[i], right[..j], connectionTypes)
      {
        RowStep(left[i], right, j, connectionTypes);
        var rule := CombineEndpointRule(left[i], right[j]);
        if rule.Some? && RuleCanApply(rule.value, connectionTypes) {
          combined := combined + [rule.value];
        }
      }
      assert right[..|right|] == right;
      RowsStep(left, i, right, connectionTypes);
    }
    assert left[..|left|] == left;
    CombineMembers(left, right, connectionTypes);
  }

  // ---------------------------------------------------------------- what a meet admits

  /** A meet admits an entity type exactly when both operands do, whatever is known of the type. */
  lemma MeetAdmitsEntityType(a: ConceptScope, b: ConceptScope, e: string, info: Option<EntityTypeInfo>)
    ensures a.Meet(b).AdmitsEntityType(e, info) <==> a.AdmitsEntityType(e, info) && b.AdmitsEntityType(e, info)
  {
    var m := a.Meet(b);
    MeetExcludes(a, b, e, info);
    var ps := a.hierarchyPredicates + b.hierarchyPredicates;
    if info.Some? {
      MergedAdmits(ps, info.value);
      assert AllAdmit(ps, info.value) <==> AllAdmit(a.hierarchyPredicates, info.value) && AllAdmit(b.hierarchyPredicates, info.value);
    } else {
      MergedAdmits(ps, EntityTypeInfo([], {}));
    }
  }

  lemma MeetExcludes(a: ConceptScope, b: ConceptScope, e: string, info: Option<EntityTypeInfo>)
    ensures a.Meet(b).EntityExcluded(e, info) <==> a.EntityExcluded(e, info) || b.EntityExcluded(e, info)
  {}

  /** The cases in which the rules of a meet fall silent about `c`: both operands carry rules, yet no
      pair of rules about `c` survives combination. */
  predicate FallsSilent(a: ConceptScope, b: ConceptScope, c: string) {
    && a.endpointRules != [] && b.endpointRules != []
    && forall l, r | l in a.endpointRules && r in b.endpointRules :: !Survives(l, r, c)
  }

  lemma CombinationOf(l: EndpointRule, r: EndpointRule, s: string, t: string, c: string)
    ensures CombineEndpointRule(l, r).Some? ==>
              var m := CombineEndpointRule(l, r).value;
              && (m.AppliesTo(c) <==> l.AppliesTo(c) && r.AppliesTo(c))
              && (m.Admits(s, t, c) <==> l.Admits(s, t, c) && r.Admits(s, t, c))
    ensures l.Admits(s, t, c) && r.Admits(s, t, c) ==> Survives(l, r, c)
  {
    var sources := IntersectOptional(l.sourceTypes, r.sourceTypes);
    var targets := IntersectOptional(l.targetTypes, r.targetTypes);
    assert Within(s, sources) ==> sources != Some({});
    assert Within(t, targets) ==> targets != Some({});
  }

  lemma MeetRules(a: ConceptScope, b: ConceptScope)
    requires a.endpointRules != [] && b.endpointRules != []
    ensures forall m :: m in a.Meet(b).endpointRules <==>
              && IsCombination(m, a.endpointRules, b.endpointRules)
              && RuleCanApply(m, IntersectOptional(a.connectionTypes, b.connectionTypes))
  {
    CombineMembers(a.endpointRules, b.endpointRules, IntersectOptional(a.connectionTypes, b.connectionTypes));
  }

  lemma CombinedRulesAdmit(a: ConceptScope, b: ConceptScope, s: string, t: string, c: string)
    requires a.endpointRules != [] && b.endpointRules != []
    requires Within(c, IntersectOptional(a.connectionTypes, b.connectionTypes))
    ensures a.Meet(b).RulesAdmit(s, t, c) <==>
            FallsSilent(a, b, c) || (a.RulesAdmit(s, t, c) && b.RulesAdmit(s, t, c))
  {
    var m := a.Meet(b);
    MeetRules(a, b);
    CombinedApplicable(a, b, c);
    if FallsSilent(a, b, c) {
    } else {
      var l0, r0 :| l0 in a.endpointRules && r0 in b.endpointRules && Survives(l0, r0, c);
      assert HasApplicable(a.endpointRules, c) && HasApplicable(b.endpointRules, c);
      if m.RulesAdmit(s, t, c) {
        var k :| k in m.endpointRules && k.Admits(s, t, c);
        var l, r :| l in a.endpointRules && r in b.endpointRules && CombineEndpointRule(l, r) == Some(k);
        CombinationOf(l, r, s, t, c);
      }
      if a.RulesAdmit(s, t, c) && b.RulesAdmit(s, t, c) {
        var l :| l in a.endpointRules && l.Admits(s, t, c);
        var r :| r in b.endpointRules && r.Admits(s, t, c);
        CombinationOf(l, r, s, t, c);
        var k := CombineEndpointRule(l, r).value;
        assert IsCombination(k, a.endpointRules, b.endpointRules);
        assert k in m.endpointRules;
      }
    }
  }

  lemma CombinedApplicable(a: ConceptScope, b: ConceptScope, c: string)
    requires a.endpointRules != [] && b.endpointRules != []
    requires Within(c, IntersectOptional(a.connectionTypes, b.connectionTypes))
    ensures HasApplicable(a.Meet(b).endpointRules, c) <==> !FallsSilent(a, b, c)
  {
    var m := a.Meet(b);
    MeetRules(a, b);
    if HasApplicable(m.endpointRules, c) {
      var k :| k in m.endpointRules && k.AppliesTo(c);
      var l, r :| l in a.endpointRules && r in b.endpointRules && CombineEndpointRule(l, r) == Some(k);
      CombinationOf(l, r, "", "", c);
      assert Survives(l, r, c);
    }
    if !FallsSilent(a, b, c) {
      var l, r :| l in a.endpointRules && r in b.endpointRules && Survives(l, r, c);
      CombinationOf(l, r, "", "", c);
      var k := CombineEndpointRule(l, r).value;
      assert IsCombination(k, a.endpointRules, b.endpointRules);
      assert k in m.endpointRules;
    }
  }

  /** When one operand has no rules, the other's govern alone. */
  lemma OneSidedRulesAdmit(a: ConceptScope, b: ConceptScope, s: string, t: string, c: string)
    requires a.endpointRules == [] || b.endpointRules == []
    requires Within(c, IntersectOptional(a.connectionTypes, b.connectionTypes))
    ensures a.Meet(b).RulesAdmit(s, t, c) <==> a.RulesAdmit(s, t, c) && b.RulesAdmit(s, t, c)
  {
    var m := a.Meet(b).endpointRules;
    var rules := if a.endpointRules == [] then b.endpointRules else a.endpointRules;
    ApplicableMembers(rules, IntersectOptional(a.connectionTypes, b.connectionTypes));
    assert forall r :: r in m ==> r in rules;
    assert forall r :: r in rules && r.AppliesTo(c) ==> r in m;
  }

  lemma MeetAdmitsEnds(a: ConceptScope, b: ConceptScope, s: string, t: string, c: string)
    ensures a.Meet(b).AdmitsEnds(s, t, c) <==> a.AdmitsEnds(s, t, c) && b.AdmitsEnds(s, t, c)
  {
    MeetExcludes(a, b, s, None);
    MeetExcludes(a, b, t, None);
  }

  /** Exactly what a meet admits of connections: what both operands admit, and, where its rules fall
      silent, whatever passes both operands apart from their rules. */
  lemma MeetAdmitsConnection(a: ConceptScope, b: ConceptScope, s: string, t: string, c: string)
    ensures a.Meet(b).AdmitsConnection(s, t, c) <==>
            || (a.AdmitsConnection(s, t, c) && b.AdmitsConnection(s, t, c))
            || (FallsSilent(a, b, c) && a.AdmitsEnds(s, t, c) && b.AdmitsEnds(s, t, c))
  {
    MeetAdmitsEnds(a, b, s, t, c);
    if a.AdmitsEnds(s, t, c) && b.AdmitsEnds(s, t, c) {
      if a.endpointRules == [] || b.endpointRules == [] {
        OneSidedRulesAdmit(a, b, s, t, c);
      } else {
        CombinedRulesAdmit(a, b, s, t, c);
      }
    }
  }

  /** For one connection the meet is the conjunction exactly when it does not fall silent over a
      rule that would have refused it. */
  lemma MeetIsConjunctionIff(a: ConceptScope, b: ConceptScope, s: string, t: string, c: string)
    ensures (a.Meet(b).AdmitsConnection(s, t, c) <==> a.AdmitsConnection(s, t, c) && b.AdmitsConnection(s, t, c))
       <==> !(FallsSilent(a, b, c) && a.AdmitsEnds(s, t, c) && b.AdmitsEnds(s, t, c)
              && !(a.RulesAdmit(s, t, c) && b.RulesAdmit(s, t, c)))
  {
    MeetAdmitsConnection(a, b, s, t, c);
  }

  /** On entity types the meet is commutative, associative and idempotent in what it admits. */
  lemma EntityMeetIsALattice(a: ConceptScope, b: ConceptScope, c: ConceptScope, e: string, info: Option<EntityTypeInfo>)
    ensures a.Meet(b).AdmitsEntityType(e, info) <==> b.Meet(a).AdmitsEntityType(e, info)
    ensures a.Meet(b).Meet(c).AdmitsEntityType(e, info) <==> a.Meet(b.Meet(c)).AdmitsEntityType(e, info)
    ensures a.Meet(a).AdmitsEntityType(e, info) <==> a.AdmitsEntityType(e, info)
  {
    MeetAdmitsEntityType(a, b, e, info);
    MeetAdmitsEntityType(b, a, e, info);
    MeetAdmitsEntityType(a.Meet(b), c, e, info);
    MeetAdmitsEntityType(a, b.Meet(c), e, info);
    MeetAdmitsEntityType(b, c, e, info);
    MeetAdmitsEntityType(a, a, e, info);
  }

  lemma SurvivalIsSymmetric(l: EndpointRule, r: EndpointRule, c: string)
    ensures Survives(l, r, c) <==> Survives(r, l, c)
  {
    assert l.sourceTypes.Some? && r.sourceTypes.Some? ==>
      l.sourceTypes.value * r.sourceTypes.value == r.sourceTypes.value * l.sourceTypes.value;
    assert l.targetTypes.Some? && r.targetTypes.Some? ==>
      l.targetTypes.value * r.targetTypes.value == r.targetTypes.value * l.targetTypes.value;
  }

  /** On connections it is still commutative. */
  lemma ConnectionMeetCommutes(a: ConceptScope, b: ConceptScope, s: string, t: string, c: string)
    ensures a.Meet(b).AdmitsConnection(s, t, c) <==> b.Meet(a).AdmitsConnection(s, t, c)
  {
    MeetAdmitsConnection(a, b, s, t, c);
    MeetAdmitsConnection(b, a, s, t, c);
    forall l, r | l in a.endpointRules && r in b.endpointRules
      ensures Survives(l, r, c) <==> Survives(r, l, c)
    {
      SurvivalIsSymmetric(l, r, c);
    }
  }

  const UNRESTRICTED := ConceptScope(None, [], [], None, [], {}, [], {})

  function WithRule(r: EndpointRule): ConceptScope { UNRESTRICTED.(endpointRules := [r]) }

  /** Two scopes whose rules about one type have no source in common: each refuses the connection,
      their meet admits it. */
  lemma MeetCanAdmitMore()
    ensures var a := WithRule(EndpointRule(Some("flow"), Some({"actor"}), None));
            var b := WithRule(EndpointRule(Some("flow"), Some({"role"}), None));
            && !a.AdmitsConnection("node", "node", "flow") && !b.AdmitsConnection("node", "node", "flow")
            && a.Meet(b).AdmitsConnection("node", "node", "flow")
  {
    var a := WithRule(EndpointRule(Some("flow"), Some({"actor"}), None));
    var b := WithRule(EndpointRule(Some("flow"), Some({"role"}), None));
    assert {"actor"} * {"role"} == {};
    assert FallsSilent(a, b, "flow");
    assert HasApplicable(a.endpointRules, "flow") by { assert a.endpointRules[0] in a.endpointRules; }
    assert HasApplicable(b.endpointRules, "flow") by { assert b.endpointRules[0] in b.endpointRules; }
    MeetAdmitsConnection(a, b, "node", "node", "flow");
  }

  /** A meet with rules only about other types silences every rule about this one. */
  lemma SilencedByOthers(a: ConceptScope, b: ConceptScope, s: string, t: string, c: string)
    requires a.endpointRules != [] && b.endpointRules != [] && !HasApplicable(b.endpointRules, c)
    requires a.AdmitsEnds(s, t, c) && b.AdmitsEnds(s, t, c)
    ensures a.Meet(b).AdmitsConnection(s, t, c)
  {
    MeetAdmitsConnection(a, b, s, t, c);
  }

  /** The first grouping of three scopes lets the rules pass a connection that all three pass apart
      from their rules: its last meet falls silent, or its inner one does and the third rules admit. */
  predicate SilencePasses(a: ConceptScope, b: ConceptScope, d: ConceptScope, s: string, t: string, c: string) {
    FallsSilent(a.Meet(b), d, c) || (FallsSilent(a, b, c) && d.RulesAdmit(s, t, c))
  }

  /** And the second grouping. */
  predicate SilencePassesRight(a: ConceptScope, b: ConceptScope, d: ConceptScope, s: string, t: string, c: string) {
    FallsSilent(a, b.Meet(d), c) || (FallsSilent(b, d, c) && a.RulesAdmit(s, t, c))
  }

  predicate AllAdmitEnds(a: ConceptScope, b: ConceptScope, d: ConceptScope, s: string, t: string, c: string) {
    a.AdmitsEnds(s, t, c) && b.AdmitsEnds(s, t, c) && d.AdmitsEnds(s, t, c)
  }

  predicate AllRulesAdmit(a: ConceptScope, b: ConceptScope, d: ConceptScope, s: string, t: string, c: string) {
    a.RulesAdmit(s, t, c) && b.RulesAdmit(s, t, c) && d.RulesAdmit(s, t, c)
  }

  lemma LeftGroupingAdmits(a: ConceptScope, b: ConceptScope, d: ConceptScope, s: string, t: string, c: string)
    ensures a.Meet(b).Meet(d).AdmitsConnection(s, t, c)
       <==> AllAdmitEnds(a, b, d, s, t, c) && (AllRulesAdmit(a, b, d, s, t, c) || SilencePasses(a, b, d, s, t, c))
  {
    MeetAdmitsEnds(a, b, s, t, c);
    MeetAdmitsConnection(a, b, s, t, c);
    MeetAdmitsConnection(a.Meet(b), d, s, t, c);
  }

  lemma RightGroupingAdmits(a: ConceptScope, b: ConceptScope, d: ConceptScope, s: string, t: string, c: string)
    ensures a.Meet(b.Meet(d)).AdmitsConnection(s, t, c)
       <==> AllAdmitEnds(a, b, d, s, t, c) && (AllRulesAdmit(a, b, d, s, t, c) || SilencePassesRight(a, b, d, s, t, c))
  {
    MeetAdmitsEnds(b, d, s, t, c);
    MeetAdmitsConnection(b, d, s, t, c);
    MeetAdmitsConnection(a, b.Meet(d), s, t, c);
  }

  /** For one connection the two groupings of three scopes agree exactly when, over a connection that
      only rules refuse, silence passes it in both groupings or in neither. */
  lemma ConnectionMeetIsAssociativeIff(a: ConceptScope, b: ConceptScope, d: ConceptScope, s: string, t: string, c: string)
    ensures (a.Meet(b).Meet(d).AdmitsConnection(s, t, c) <==> a.Meet(b.Meet(d)).AdmitsConnection(s, t, c))
       <==> (AllAdmitEnds(a, b, d, s, t, c) && !AllRulesAdmit(a, b, d, s, t, c) ==>
              (SilencePasses(a, b, d, s, t, c) <==> SilencePassesRight(a, b, d, s, t, c)))
  {
    LeftGroupingAdmits(a, b, d, s, t, c);
    RightGroupingAdmits(a, b, d, s, t, c);
  }

  /** Where no meet falls silent about the type, the meet is associative, and is the conjunction. */
  lemma UnsilencedMeetIsAssociative(a: ConceptScope, b: ConceptScope, d: ConceptScope, s: string, t: string, c: string)
    requires !FallsSilent(a, b, c) && !FallsSilent(a.Meet(b), d, c)
    requires !FallsSilent(b, d, c) && !FallsSilent(a, b.Meet(d), c)
    ensures a.Meet(b).Meet(d).AdmitsConnection(s, t, c) <==> a.Meet(b.Meet(d)).AdmitsConnection(s, t, c)
    ensures a.Meet(b).Meet(d).AdmitsConnection(s, t, c)
       <==> a.AdmitsConnection(s, t, c) && b.AdmitsConnection(s, t, c) && d.AdmitsConnection(s, t, c)
  {
    LeftGroupingAdmits(a, b, d, s, t, c);
    RightGroupingAdmits(a, b, d, s, t, c);
  }

  /** They need not: a silenced pair forgets its restrictions. */
  lemma ConnectionMeetIsNotAssociative(a: ConceptScope, b: ConceptScope, s: string, t: string, c: string)
    requires a.endpointRules != [] && b.endpointRules != []
    requires a.Meet(b).endpointRules == [] && a.Meet(a).endpointRules != []
    requires a.AdmitsEnds(s, t, c) && b.AdmitsEnds(s, t, c)
    requires !a.RulesAdmit(s, t, c) && !HasApplicable(b.endpointRules, c)
    ensures !a.Meet(a.Meet(b)).AdmitsConnection(s, t, c) && a.Meet(a).Meet(b).AdmitsConnection(s, t, c)
  {
    MeetAdmitsConnection(a, a.Meet(b), s, t, c);
    MeetExcludes(a, a, s, None);
    MeetExcludes(a, a, t, None);
    SilencedByOthers(a.Meet(a), b, s, t, c);
  }

  lemma NonAssociativeRules()
    ensures var a := WithRule(EndpointRule(Some("flow"), Some({"actor"}), None));
            var b := WithRule(EndpointRule(Some("access"), None, None));
            && a.Meet(b).endpointRules == [] && a.Meet(a).endpointRules != []
            && !a.RulesAdmit("node", "node", "flow") && !HasApplicable(b.endpointRules, "flow")
  {
    var ra := EndpointRule(Some("flow"), Some({"actor"}), None);
    var rb := EndpointRule(Some("access"), None, None);
    assert CombineAll([ra], [rb], None) == CombineRow(ra, [rb], None) == [];
    assert ra in [ra];
    assert "actor" in {"actor"} * {"actor"};
    MeetWithItselfKeepsRules(WithRule(ra), ra);
  }

  /** Scopes over which the two groupings differ. */
  lemma NonAssociativePairExists()
    ensures var a := WithRule(EndpointRule(Some("flow"), Some({"actor"}), None));
            var b := WithRule(EndpointRule(Some("access"), None, None));
            !a.Meet(a.Meet(b)).AdmitsConnection("node", "node", "flow") && a.Meet(a).Meet(b).AdmitsConnection("node", "node", "flow")
  {
    NonAssociativeRules();
    ConnectionMeetIsNotAssociative(WithRule(EndpointRule(Some("flow"), Some({"actor"}), None)),
                                   WithRule(EndpointRule(Some("access"), None, None)), "node", "node", "flow");
  }

  lemma MeetWithItselfKeepsRules(a: ConceptScope, r: EndpointRule)
    requires r in a.endpointRules && CombineEndpointRule(r, r).Some? && a.connectionTypes.None?
    ensures a.Meet(a).endpointRules != []
  {
    MeetRules(a, a);
    assert IsCombination(CombineEndpointRule(r, r).value, a.endpointRules, a.endpointRules);
    assert CombineEndpointRule(r, r).value in a.Meet(a).endpointRules;
  }

  // ---------------------------------------------------------------- what single restrictions admit

  /** A scope with one rule admits sources from its sources and targets from its targets, on the
      connection type it names; on any other it admits all. */
  lemma OneRuleAdmits(connectionType: string, sources: set<string>, targets: set<string>, s: string, t: string, c: string)
    ensures WithRule(EndpointRule(Some(connectionType), Some(sources), Some(targets))).AdmitsConnection(s, t, c)
       <==> (c == connectionType ==> s in sources && t in targets)
    ensures WithRule(EndpointRule(None, Some(sources), Some(targets))).AdmitsConnection(s, t, c) <==> s in sources && t in targets
    ensures WithRule(EndpointRule(None, Some(sources), None)).AdmitsConnection(s, t, c) <==> s in sources
    ensures WithRule(EndpointRule(None, None, Some(targets))).AdmitsConnection(s, t, c) <==> t in targets
  {
    OneRuleDecides(EndpointRule(Some(connectionType), Some(sources), Some(targets)), s, t, c);
    OneRuleDecides(EndpointRule(None, Some(sources), Some(targets)), s, t, c);
    OneRuleDecides(EndpointRule(None, Some(sources), None), s, t, c);
    OneRuleDecides(EndpointRule(None, None, Some(targets)), s, t, c);
  }

  lemma OneRuleDecides(r: EndpointRule, s: string, t: string, c: string)
    ensures WithRule(r).AdmitsConnection(s, t, c) <==> (r.AppliesTo(c) ==> r.Admits(s, t, c))
  {
    assert r in WithRule(r).endpointRules;
    assert forall q | q in WithRule(r).endpointRules :: q == r;
  }

  function WithLevel(p: HierarchyPredicate): ConceptScope { UNRESTRICTED.(hierarchyPredicates := [p]) }

  function WithoutLevel(p: HierarchyPredicate): ConceptScope { UNRESTRICTED.(excludedHierarchyPredicates := [p]) }

  /** A scope that asks for a level of the hierarchy admits what has one of the values there, counted from
      the top or, below zero, from the bottom; one that excludes it admits the rest. */
  lemma OneLevelAdmits(n: int, values: set<string>, e: string, info: EntityTypeInfo)
    requires n >= 0
    ensures WithLevel(HierarchyPredicate(n, values)).AdmitsEntityType(e, Some(info))
       <==> n < |info.hierarchy| && info.hierarchy[n] in values
    ensures 0 < n <= |info.hierarchy| ==>
      (WithLevel(HierarchyPredicate(-n, values)).AdmitsEntityType(e, Some(info)) <==> info.hierarchy[|info.hierarchy| - n] in values)
    ensures !WithLevel(HierarchyPredicate(n, values)).AdmitsEntityType(e, None)
    ensures WithoutLevel(HierarchyPredicate(n, values)).AdmitsEntityType(e, Some(info))
       <==> !(n < |info.hierarchy| && info.hierarchy[n] in values)
  {
    OneLevelDecides(HierarchyPredicate(n, values), e, info);
    OneLevelDecides(HierarchyPredicate(-n, values), e, info);
  }

  lemma OneLevelDecides(p: HierarchyPredicate, e: string, info: EntityTypeInfo)
    ensures WithLevel(p).AdmitsEntityType(e, Some(info)) <==> p.Admits(info)
    ensures WithoutLevel(p).AdmitsEntityType(e, Some(info)) <==> !p.Admits(info)
    ensures !WithLevel(p).AdmitsEntityType(e, None)
  {
    assert p in [p] && forall q | q in [p] :: q == p;
  }

  function WithClasses(classes: set<string>): ConceptScope { UNRESTRICTED.(entityClassPredicates := [classes]) }

  /** A scope that asks for classes admits what has one of them. */
  lemma OneClassAdmits(classes: set<string>, e: string, info: EntityTypeInfo)
    ensures WithClasses(classes).AdmitsEntityType(e, Some(info)) <==> exists k :: k in classes && k in info.classes
    ensures !WithClasses(classes).AdmitsEntityType(e, None)
  {
    assert classes in [classes] && forall q | q in [classes] :: q == classes;
    if classes * info.classes != {} {
      var k :| k in classes * info.classes;
      assert k in classes && k in info.classes;
    } else {
      assert forall k | k in classes && k in info.classes :: k in classes * info.classes;
    }
  }
}
