/**
  Per-file visitor dispatch (ktlint `VisitorProvider`).

  A visitor provider is built from the set of enabled rule providers. The set
  is sorted once, at construction, by a rule provider sorter: the process-wide
  shared one, or a new one when `recreateRuleSorter` is set. The ordering
  algorithm itself (`RuleProviderSorter`) is not part of this model: each of
  the two sorters is a function parameter, and all the model relies on is
  that a sorter returns every provider of its input exactly once. The two
  sorters may order the providers differently (a new sorter exists for tests
  that run the same rules with distinct visitor modifiers).

  The provider hands out a visitor. When the sorted list is empty the visitor
  does nothing; otherwise one run calls `visit(rule, ruleId)` once per sorted
  provider, in order, each time with a newly created rule instance. Instance
  creation is modelled by an allocation counter: the instance created n-th
  carries serial number n, so an instance is fresh exactly when its serial was
  not handed out before.
 */
module VisitorProviders {

  datatype RuleProvider = RuleProvider(ruleId: string)

  /** A rule instance; `serial` is its identity as an object. */
  datatype Rule = Rule(ruleId: string, serial: nat)

  /** Which sorter object ordered the providers. */
  datatype Sorter = SharedSorter | NewSorter

  type SortFunction = set<RuleProvider> -> seq<RuleProvider>

  datatype VisitorProvider = VisitorProvider(sorter: Sorter, ruleProvidersSorted: seq<RuleProvider>)

  /** The visitor handed out by `visitor()`. */
  datatype Visitor = SkipFile | VisitInOrder(ruleProviders: seq<RuleProvider>)

  /** One call `visit(rule, fqRuleId)`. */
  datatype VisitCall = VisitCall(rule: Rule, fqRuleId: string)

  /** The calls of one run of a visitor, and the allocation counter after it. */
  datatype Run = Run(calls: seq<VisitCall>, nextSerial: nat)

  /** `ps` lists every provider of `s` exactly once, in some order. */
  predicate Arranges(ps: seq<RuleProvider>, s: set<RuleProvider>) {
    multiset(ps) == multiset(s)
  }

  /** What `getSortedRuleProviders` promises: an ordering of exactly the given providers. */
  ghost predicate IsSorter(sort: SortFunction) {
    forall s :: Arranges(sort(s), s)
  }

  /**
    The constructor: choose the shared sorter, or a new one when
    `recreateRuleSorter` is set, and sort the given providers with it once.
   */
  function NewVisitorProvider(
    ruleProviders: set<RuleProvider>,
    recreateRuleSorter: bool,
    sharedSorter: SortFunction,
    newSorter: SortFunction
  ): (vp: VisitorProvider)
    ensures vp.sorter == (if recreateRuleSorter then NewSorter else SharedSorter)
    ensures IsSorter(sharedSorter) && IsSorter(newSorter) ==> Arranges(vp.ruleProvidersSorted, ruleProviders)
  {
    if recreateRuleSorter then VisitorProvider(NewSorter, newSorter(ruleProviders))
    else VisitorProvider(SharedSorter, sharedSorter(ruleProviders))
  }

  /** `visitor()`: short-circuits to a visitor that does nothing when no rule is enabled. */
  function GetVisitor(vp: VisitorProvider): (v: Visitor)
    ensures v.SkipFile? <==> vp.ruleProvidersSorted == []
  {
    if vp.ruleProvidersSorted == [] then SkipFile else VisitInOrder(vp.ruleProvidersSorted)
  }

  /**
    `forEach { visit(it.createNewRuleInstance(), it.ruleId.value) }` from
    allocation counter `nextSerial` on.
   */
  function VisitEach(ps: seq<RuleProvider>, nextSerial: nat): (r: Run)
    ensures |r.calls| == |ps|
    ensures r.nextSerial == nextSerial + |ps|
    ensures forall i :: 0 <= i < |ps| ==> r.calls[i].rule.serial == nextSerial + i
    ensures forall i :: 0 <= i < |ps| ==> r.calls[i].rule.ruleId == ps[i].ruleId
    ensures forall i :: 0 <= i < |ps| ==> r.calls[i].fqRuleId == ps[i].ruleId
    decreases ps
  {
    if ps == [] then Run([], nextSerial)
    else
      var rule := Rule(ps[0].ruleId, nextSerial);
      var rest := VisitEach(ps[1..], nextSerial + 1);
      Run([VisitCall(rule, ps[0].ruleId)] + rest.calls, rest.nextSerial)
  }

  /**
    One run of a visitor: each call creates one new rule instance, and the
    rule passed to a call is an instance of the provider whose id goes with it.
   */
  function RunVisitor(v: Visitor, nextSerial: nat): (r: Run)
    ensures r.nextSerial == nextSerial + |r.calls|
    ensures forall i :: 0 <= i < |r.calls| ==> r.calls[i].rule == Rule(r.calls[i].fqRuleId, nextSerial + i)
    ensures v.SkipFile? ==> r.calls == []
  {
    match v
    case SkipFile => Run([], nextSerial)
    case VisitInOrder(ps) => VisitEach(ps, nextSerial)
  }

  function RuleIds(calls: seq<VisitCall>): seq<string> {
    seq(|calls|, i requires 0 <= i < |calls| => calls[i].fqRuleId)
  }

  function ProviderIds(ps: seq<RuleProvider>): seq<string> {
    seq(|ps|, i requires 0 <= i < |ps| => ps[i].ruleId)
  }

  /** Without enabled rules a run visits nothing and creates no rule instance. */
  lemma {:induction false} EmptyVisitorNeverVisits(vp: VisitorProvider, nextSerial: nat)
    requires vp.ruleProvidersSorted == []
    ensures RunVisitor(GetVisitor(vp), nextSerial) == Run([], nextSerial)
  {
  }

  /**
    A run calls `visit` once per sorted provider, in the sorted order; the
    second argument of each call is the id of the provider at that position,
    and the rule passed along is an instance of that very provider.
   */
  lemma {:induction false} VisitsInSortedOrder(vp: VisitorProvider, nextSerial: nat)
    ensures RuleIds(RunVisitor(GetVisitor(vp), nextSerial).calls) == ProviderIds(vp.ruleProvidersSorted)
    ensures forall c :: c in RunVisitor(GetVisitor(vp), nextSerial).calls ==> c.rule.ruleId == c.fqRuleId
  {
  }

  /**
    Every call of a run gets a newly created instance: the instances are
    pairwise distinct, none existed before the run, and the run creates
    exactly as many instances as there are sorted providers.
   */
  lemma {:induction false} FreshInstancePerCall(vp: VisitorProvider, nextSerial: nat)
    ensures var r := RunVisitor(GetVisitor(vp), nextSerial);
      && r.nextSerial - nextSerial == |vp.ruleProvidersSorted|
      && (forall i, j :: 0 <= i < j < |r.calls| ==> r.calls[i].rule != r.calls[j].rule)
      && (forall c :: c in r.calls ==> nextSerial <= c.rule.serial < r.nextSerial)
  {
    var r := RunVisitor(GetVisitor(vp), nextSerial);
    forall c | c in r.calls ensures nextSerial <= c.rule.serial < r.nextSerial {
      var i :| 0 <= i < |r.calls| && r.calls[i] == c;
    }
  }

  /**
    The order is fixed at construction: two visitors of one provider, run one
    after the other, visit the same rule ids in the same order, and the second
    run shares no rule instance with the first.
   */
  lemma {:induction false} RepeatedRunsAgree(vp: VisitorProvider, nextSerial: nat)
    ensures var first := RunVisitor(GetVisitor(vp), nextSerial);
      var second := RunVisitor(GetVisitor(vp), first.nextSerial);
      && RuleIds(first.calls) == RuleIds(second.calls)
      && (forall c, d :: c in first.calls && d in second.calls ==> c.rule != d.rule)
  {
    var first := RunVisitor(GetVisitor(vp), nextSerial);
    var second := RunVisitor(GetVisitor(vp), first.nextSerial);
    forall c, d | c in first.calls && d in second.calls ensures c.rule != d.rule {
      var i :| 0 <= i < |first.calls| && first.calls[i] == c;
      var j :| 0 <= j < |second.calls| && second.calls[j] == d;
    }
  }

  /**
    Whichever sorter `recreateRuleSorter` selects, and whatever order it
    picks, a run visits every enabled rule provider exactly once and nothing
    else.
   */
  lemma {:induction false} EachEnabledRuleVisitedOnce(
    ruleProviders: set<RuleProvider>, recreate: bool,
    sharedSorter: SortFunction, newSorter: SortFunction, nextSerial: nat)
    requires IsSorter(sharedSorter) && IsSorter(newSorter)
    ensures var r := RunVisitor(GetVisitor(NewVisitorProvider(ruleProviders, recreate, sharedSorter, newSorter)), nextSerial);
      && |r.calls| == |ruleProviders|
      && (forall i, j :: 0 <= i < j < |r.calls| ==> r.calls[i].fqRuleId != r.calls[j].fqRuleId)
      && (forall i :: 0 <= i < |r.calls| ==> RuleProvider(r.calls[i].fqRuleId) in ruleProviders)
      && (forall p :: p in ruleProviders ==> exists i :: 0 <= i < |r.calls| && r.calls[i].fqRuleId == p.ruleId)
  {
    var vp := NewVisitorProvider(ruleProviders, recreate, sharedSorter, newSorter);
    var ps := vp.ruleProvidersSorted;
    var r := RunVisitor(GetVisitor(vp), nextSerial);
    assert |ps| == |multiset(ps)| == |multiset(ruleProviders)| == |ruleProviders|;
    forall i, j | 0 <= i < j < |r.calls| ensures r.calls[i].fqRuleId != r.calls[j].fqRuleId {
      ArrangedOnce(ps, ruleProviders, i, j);
    }
    forall i | 0 <= i < |r.calls| ensures RuleProvider(r.calls[i].fqRuleId) in ruleProviders {
      assert ps[i] in multiset(ps);
    }
    forall p | p in ruleProviders ensures exists i :: 0 <= i < |r.calls| && r.calls[i].fqRuleId == p.ruleId {
      assert p in multiset(ps);
      var i :| 0 <= i < |ps| && ps[i] == p;
      assert r.calls[i].fqRuleId == p.ruleId;
    }
  }

  /** An arrangement of a set repeats no provider. */
  lemma {:induction false} ArrangedOnce(ps: seq<RuleProvider>, s: set<RuleProvider>, i: nat, j: nat)
    requires Arranges(ps, s) && i < j < |ps|
    ensures ps[i] != ps[j]
  {
    var x := ps[i];
    var front, back := ps[..j], ps[j..];
    assert ps == front + back;
    assert front[i] == x && x in front;
    assert multiset(ps)[x] == multiset(front)[x] + multiset(back)[x];
  }
}
