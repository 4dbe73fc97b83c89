/**
  `ruleGroups` of `apps/ui/src/board/TasksTab.tsx`: a task's scenarios, in file order, grouped by the rule
  they sit under.
 */
module TasksTab {
  import opened Wrappers

  // The wire's `rule`: absent on a payload from an older node, else null or a title.
  datatype RuleField = Missing | Null | Title(title: string)

  datatype Scenario = Scenario(name: string, rule: RuleField)

  datatype Group = Group(rule: Option<string>, start: nat, scenarios: seq<Scenario>)

  function RuleOf(s: Scenario): Option<string> {
    match s.rule
    case Title(title) => Some(title)
    case _ => None
  }

  function Concat(groups: seq<Group>): seq<Scenario> {
    if groups == [] then [] else Concat(groups[..|groups| - 1]) + groups[|groups| - 1].scenarios
  }

  ghost predicate IsRun(g: Group) {
    g.scenarios != [] && forall s <- g.scenarios :: RuleOf(s) == g.rule
  }

  // Non-empty runs of one rule, each as long as it can be, that together are the scenarios in order;
  // `start` is where a run begins among them.
  ghost predicate IsGrouping(scenarios: seq<Scenario>, groups: seq<Group>) {
    && Concat(groups) == scenarios
    && (forall i :: 0 <= i < |groups| ==> IsRun(groups[i]) && groups[i].start == |Concat(groups[..i])|)
    && (forall i :: 0 < i < |groups| ==> groups[i - 1].rule != groups[i].rule)
  }

  method RuleGroups(scenarios: seq<Scenario>) returns (groups: seq<Group>)
    ensures IsGrouping(scenarios, groups)
  {
    groups := [];
    for index := 0 to |scenarios|
      invariant IsGrouping(scenarios[..index], groups)
    {
      hide IsGrouping;
      var scenario, rule, n := scenarios[index], RuleOf(scenarios[index]), |groups|;
      assert scenarios[..index + 1] == scenarios[..index] + [scenario];
      if n > 0 && groups[n - 1].rule == rule {
        LastGrows(scenarios[..index], groups, scenario);
        groups := groups[n - 1 := groups[n - 1].(scenarios := groups[n - 1].scenarios + [scenario])];
      } else {
        GroupIsAdded(scenarios[..index], groups, scenario);
        groups := groups + [Group(rule, index, [scenario])];
      }
    }
    assert scenarios[..|scenarios|] == scenarios;
  }

  lemma LastGrows(scenarios: seq<Scenario>, groups: seq<Group>, s: Scenario)
    requires IsGrouping(scenarios, groups) && groups != [] && groups[|groups| - 1].rule == RuleOf(s)
    ensures var n := |groups| - 1;
      IsGrouping(scenarios + [s], groups[n := groups[n].(scenarios := groups[n].scenarios + [s])])
  {
    var n := |groups| - 1;
    var after := groups[n := groups[n].(scenarios := groups[n].scenarios + [s])];
    assert after[..n] == groups[..n];
    assert forall i :: 0 <= i <= n ==> after[..i] == groups[..i];
    assert Concat(groups[..n]) + (groups[n].scenarios + [s]) == (Concat(groups[..n]) + groups[n].scenarios) + [s];
  }

  lemma ConcatSnoc(groups: seq<Group>, g: Group)
    ensures Concat(groups + [g]) == Concat(groups) + g.scenarios
  {
    assert (groups + [g])[..|groups|] == groups;
  }

  lemma OneRun(s: Scenario, start: nat)
    ensures IsRun(Group(RuleOf(s), start, [s]))
  {
  }

  lemma GroupIsAdded(scenarios: seq<Scenario>, groups: seq<Group>, s: Scenario)
    requires IsGrouping(scenarios, groups) && (groups == [] || groups[|groups| - 1].rule != RuleOf(s))
    ensures IsGrouping(scenarios + [s], groups + [Group(RuleOf(s), |scenarios|, [s])])
  {
    hide Concat, IsRun, RuleOf;
    var g, n := Group(RuleOf(s), |scenarios|, [s]), |groups|;
    var after := groups + [g];
    OneRun(s, |scenarios|);
    ConcatSnoc(groups, g);
    forall i | 0 <= i < |after| ensures IsRun(after[i]) && after[i].start == |Concat(after[..i])| {
      if i < n {
        assert after[i] == groups[i] && after[..i] == groups[..i];
      } else {
        assert after[i] == g && after[..i] == groups;
      }
    }
    forall i | 0 < i < |after| ensures after[i - 1].rule != after[i].rule {
      assert after[i - 1] == groups[i - 1];
    }
  }

  // What a group's rule says of its scenarios: a title is theirs, and none is a null or a missing field.
  lemma RulesAreTheirs(scenarios: seq<Scenario>, groups: seq<Group>, i: nat, s: Scenario)
    requires IsGrouping(scenarios, groups) && i < |groups| && s in groups[i].scenarios
    ensures groups[i].rule == None <==> s.rule == Missing || s.rule == Null
    ensures forall title :: groups[i].rule == Some(title) <==> s.rule == Title(title)
  {
    assert IsRun(groups[i]);
  }

  // All but the last group are a grouping of what comes before it.
  lemma AllButLast(scenarios: seq<Scenario>, groups: seq<Group>)
    requires IsGrouping(scenarios, groups) && groups != []
    ensures var n := |groups| - 1;
      && groups[n].start <= |scenarios|
      && scenarios[groups[n].start..] == groups[n].scenarios
      && IsGrouping(scenarios[..groups[n].start], groups[..n])
  {
    var n := |groups| - 1;
    var before := groups[..n];
    assert scenarios == Concat(before) + groups[n].scenarios;
    assert scenarios[..groups[n].start] == Concat(before);
    assert forall i :: 0 <= i < n ==> before[..i] == groups[..i];
  }

  // The last group reaches back over every scenario of its rule that leads up to the end.
  lemma LastIsMaximal(scenarios: seq<Scenario>, groups: seq<Group>)
    requires IsGrouping(scenarios, groups) && groups != []
    ensures var last := groups[|groups| - 1];
      last.start <= |scenarios| && (last.start > 0 ==> RuleOf(scenarios[last.start - 1]) != last.rule)
  {
    AllButLast(scenarios, groups);
    var n := |groups| - 1;
    var start := groups[n].start;
    if start > 0 {
      assert n > 0;
      var before := groups[..n];
      AllButLast(scenarios[..start], before);
      var previous := before[n - 1];
      assert previous == groups[n - 1] && IsRun(previous);
      assert scenarios[start - 1] == scenarios[..start][previous.start..][start - 1 - previous.start];
      assert scenarios[start - 1] in previous.scenarios;
    }
  }

  lemma LastRules(scenarios: seq<Scenario>, groups: seq<Group>)
    requires IsGrouping(scenarios, groups) && groups != []
    ensures var last := groups[|groups| - 1];
      last.start < |scenarios| && forall k :: last.start <= k < |scenarios| ==> RuleOf(scenarios[k]) == last.rule
  {
    AllButLast(scenarios, groups);
    var last := groups[|groups| - 1];
    assert IsRun(last);
    forall k | last.start <= k < |scenarios| ensures RuleOf(scenarios[k]) == last.rule {
      assert scenarios[last.start..][k - last.start] in last.scenarios;
    }
  }

  // There is one such grouping.
  lemma {:induction false} GroupingIsUnique(scenarios: seq<Scenario>, a: seq<Group>, b: seq<Group>)
    requires IsGrouping(scenarios, a) && IsGrouping(scenarios, b)
    ensures a == b
    decreases |a|
  {
    hide IsGrouping, RuleOf;
    EmptyGrouping(scenarios, a);
    EmptyGrouping(scenarios, b);
    if a != [] {
      AllButLast(scenarios, a);
      AllButLast(scenarios, b);
      LastIsMaximal(scenarios, a);
      LastIsMaximal(scenarios, b);
      LastRules(scenarios, a);
      LastRules(scenarios, b);
      var x, y := a[|a| - 1], b[|b| - 1];
      assert x.rule == RuleOf(scenarios[|scenarios| - 1]) == y.rule;
      assert x.start == y.start;
      GroupingIsUnique(scenarios[..x.start], a[..|a| - 1], b[..|b| - 1]);
      assert a == a[..|a| - 1] + [x] && b == b[..|b| - 1] + [y];
    }
  }

  lemma EmptyGrouping(scenarios: seq<Scenario>, groups: seq<Group>)
    requires IsGrouping(scenarios, groups)
    ensures groups == [] <==> scenarios == []
  {
    if groups != [] { assert IsRun(groups[|groups| - 1]); }
  }
}
