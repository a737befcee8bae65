/** The relationship and dependency checks a manifest passes before the client is touched. */
module Validation {
  import opened Wrappers
  import opened Text
  import opened Markers
  import opened Catalog
  import opened DependencyGraph
  import opened Rendering

  datatype RelationError =
    | UnknownEpic(key: string)
    | UnknownChild(epic: string, child: string)
    | WrongDirection(child: string, epic: string)
    | MilestoneMismatch(child: string, epic: string)
    | UnknownDependency(key: string, dependency: string)
    | SelfDependency(key: string)
    | UnknownLabels(key: string, labels: set<string>)
    | UnknownMilestone(key: string, milestone: string)

  function Find(m: Manifest, key: string): Option<IssueSpec> {
    match IndexOf(m.issues, key)
    case Some(i) => IndexOfFinds(m.issues, key); Some(m.issues[i])
    case None => None
  }

  predicate IsChildOf(m: Manifest, key: string) {
    Find(m, key).Some? && !Find(m, key).value.IsEpic()
  }

  lemma FindIsExact(m: Manifest, key: string)
    requires DistinctKeys(m.issues)
    ensures Find(m, key).Some? ==> Find(m, key).value in m.issues && Find(m, key).value.key == key
    ensures forall i | 0 <= i < |m.issues| && m.issues[i].key == key :: Find(m, key) == Some(m.issues[i])
  {
    IndexOfFinds(m.issues, key);
  }

  lemma ListableIsFound(m: Manifest, epic: IssueSpec, key: string)
    requires DistinctKeys(m.issues)
    ensures IsListable(m, epic, key) <==>
      && IsChildOf(m, key)
      && Find(m, key).value.epic == Some(epic.key)
      && Find(m, key).value.milestone == epic.milestone
  {
    FindIsExact(m, key);
  }

  /** What an error about an epic says is so. */
  predicate EpicDefect(m: Manifest, epic: IssueSpec, e: RelationError) {
    match e
    case UnknownChild(key, child) =>
      && key == epic.key && child in epic.children
      && forall i | 0 <= i < |m.issues| && m.issues[i].key == child :: m.issues[i].IsEpic()
    case WrongDirection(child, key) =>
      && key == epic.key && child in epic.children
      && exists i | 0 <= i < |m.issues| ::
           m.issues[i].key == child && !m.issues[i].IsEpic() && m.issues[i].epic != Some(key)
    case MilestoneMismatch(child, key) =>
      && key == epic.key && child in epic.children
      && exists i | 0 <= i < |m.issues| ::
           m.issues[i].key == child && m.issues[i].epic == Some(key) && m.issues[i].milestone != epic.milestone
    case _ => false
  }

  /** What an error about a child says is so. */
  predicate ChildDefect(m: Manifest, child: IssueSpec, e: RelationError) {
    match e
    case UnknownEpic(key) =>
      && key == child.key
      && forall i | 0 <= i < |m.issues| && Some(m.issues[i].key) == child.epic :: !m.issues[i].IsEpic()
    case WrongDirection(key, epic) =>
      && key == child.key && child.epic == Some(epic)
      && exists i | 0 <= i < |m.issues| ::
           m.issues[i].key == epic && m.issues[i].IsEpic() && key !in m.issues[i].children
    case UnknownDependency(key, dependency) =>
      && key == child.key && dependency in child.dependsOn
      && forall i | 0 <= i < |m.issues| && m.issues[i].key == dependency :: m.issues[i].IsEpic()
    case SelfDependency(key) => key == child.key && key in child.dependsOn
    case _ => false
  }

  predicate IsDefect(m: Manifest, issue: IssueSpec, e: RelationError) {
    if e.UnknownLabels? then
      e.key == issue.key && e.labels != {} && e.labels <= issue.labels && e.labels !! m.LabelNames()
    else if e.UnknownMilestone? then
      e.key == issue.key && e.milestone == issue.milestone && !KnowsMilestone(m, e.milestone)
    else if issue.IsEpic() then EpicDefect(m, issue, e) else ChildDefect(m, issue, e)
  }

  /** The checks on one epic, in the order they are made. */
  method CheckEpic(m: Manifest, epic: IssueSpec) returns (problem: Option<RelationError>)
    requires DistinctKeys(m.issues)
    ensures problem.None? <==> EpicIsRelated(m, epic)
    ensures problem.Some? ==> EpicDefect(m, epic, problem.value)
  {
    for c := 0 to |epic.children|
      invariant forall j | 0 <= j < c :: IsListable(m, epic, epic.children[j])
    {
      var key := epic.children[c];
      ListableIsFound(m, epic, key);
      FindIsExact(m, key);
      if !IsChildOf(m, key) {
        return Some(UnknownChild(epic.key, key));
      }
      var child := Find(m, key).value;
      if child.epic != Some(epic.key) {
        return Some(WrongDirection(key, epic.key));
      }
      if child.milestone != epic.milestone {
        return Some(MilestoneMismatch(key, epic.key));
      }
    }
    problem := None;
  }

  method CheckChild(m: Manifest, child: IssueSpec) returns (problem: Option<RelationError>)
    requires DistinctKeys(m.issues) && child.epic.Some?
    ensures problem.None? <==> ChildIsRelated(m, child)
    ensures problem.Some? ==> ChildDefect(m, child, problem.value)
  {
    FindIsExact(m, child.epic.value);
    var parent := Find(m, child.epic.value);
    if parent.None? || !parent.value.IsEpic() {
      return Some(UnknownEpic(child.key));
    }
    if child.key !in parent.value.children {
      return Some(WrongDirection(child.key, parent.value.key));
    }
    for d := 0 to |child.dependsOn|
      invariant forall j | 0 <= j < d ::
        && child.dependsOn[j] != child.key
        && exists i | 0 <= i < |m.issues| ::
             m.issues[i].key == child.dependsOn[j] && !m.issues[i].IsEpic()
    {
      FindIsExact(m, child.dependsOn[d]);
      if !IsChildOf(m, child.dependsOn[d]) {
        return Some(UnknownDependency(child.key, child.dependsOn[d]));
      }
      if child.dependsOn[d] == child.key {
        return Some(SelfDependency(child.key));
      }
    }
    problem := None;
  }

  /** The records use labels and milestones the manifest has. */
  predicate UsesKnown(m: Manifest) {
    forall i | 0 <= i < |m.issues| ::
      m.issues[i].labels <= m.LabelNames() && KnowsMilestone(m, m.issues[i].milestone)
  }

  method CheckCatalogUse(m: Manifest) returns (problem: Option<RelationError>)
    ensures problem.None? <==> UsesKnown(m)
    ensures problem.Some? ==> exists i | 0 <= i < |m.issues| :: IsDefect(m, m.issues[i], problem.value)
  {
    for i := 0 to |m.issues|
      invariant forall j | 0 <= j < i ::
        m.issues[j].labels <= m.LabelNames() && KnowsMilestone(m, m.issues[j].milestone)
    {
      var issue := m.issues[i];
      var unknown := issue.labels - m.LabelNames();
      if unknown != {} {
        assert IsDefect(m, m.issues[i], UnknownLabels(issue.key, unknown));
        return Some(UnknownLabels(issue.key, unknown));
      }
      assert issue.labels <= m.LabelNames() by {
        forall l | l in issue.labels
          ensures l in m.LabelNames()
        {
          assert l !in unknown;
        }
      }
      if !KnowsMilestone(m, issue.milestone) {
        assert IsDefect(m, m.issues[i], UnknownMilestone(issue.key, issue.milestone));
        return Some(UnknownMilestone(issue.key, issue.milestone));
      }
    }
    problem := None;
  }

  /** The checks between records in `load_and_validate`: every child's epic first, then the
      labels and milestones, then each record with the other end of its relationships. */
  method CheckRelationships(m: Manifest) returns (problem: Option<RelationError>)
    requires DistinctKeys(m.issues)
    requires forall i | 0 <= i < |m.issues| :: WellShaped(m.issues[i])
    ensures problem.None? <==> WellRelated(m) && UsesKnown(m)
    ensures problem.Some? ==> exists i | 0 <= i < |m.issues| :: IsDefect(m, m.issues[i], problem.value)
  {
    for i := 0 to |m.issues| {
      var issue := m.issues[i];
      if !issue.IsEpic() {
        FindIsExact(m, issue.epic.value);
        var parent := Find(m, issue.epic.value);
        if parent.None? || !parent.value.IsEpic() {
          assert !IsRelated(m, m.issues[i]);
          assert IsDefect(m, m.issues[i], UnknownEpic(issue.key));
          return Some(UnknownEpic(issue.key));
        }
      }
    }
    problem := CheckCatalogUse(m);
    if problem.Some? {
      return;
    }
    for i := 0 to |m.issues|
      invariant forall j | 0 <= j < i :: IsRelated(m, m.issues[j])
    {
      var issue := m.issues[i];
      if issue.IsEpic() {
        problem := CheckEpic(m, issue);
      } else {
        problem := CheckChild(m, issue);
      }
      if problem.Some? {
        assert !IsRelated(m, m.issues[i]);
        assert IsDefect(m, m.issues[i], problem.value);
        return;
      }
    }
    problem := None;
  }

  /** What the checks establish: epics and children form a two-level tree. An epic lists a
      child exactly when the child names it, every child is listed by exactly one epic, and
      the two share a milestone. */
  lemma RelationsFormTree(m: Manifest, e: nat, c: nat)
    requires DistinctKeys(m.issues) && WellRelated(m)
    requires e < |m.issues| && m.issues[e].IsEpic()
    requires c < |m.issues| && !m.issues[c].IsEpic()
    ensures m.issues[c].key in m.issues[e].children <==> m.issues[c].epic == Some(m.issues[e].key)
    ensures m.issues[c].key in m.issues[e].children ==> m.issues[c].milestone == m.issues[e].milestone
    ensures exists p | 0 <= p < |m.issues| ::
      && m.issues[p].IsEpic()
      && m.issues[c].key in m.issues[p].children
      && forall q | 0 <= q < |m.issues| && m.issues[q].IsEpic() && m.issues[c].key in m.issues[q].children ::
           q == p
  {
    hide WellRelated, EpicIsRelated;
    AllRelated(m, c);
    var p :| 0 <= p < |m.issues| && m.issues[p].IsEpic() && Some(m.issues[p].key) == m.issues[c].epic
      && m.issues[c].key in m.issues[p].children;
    forall q | 0 <= q < |m.issues| && m.issues[q].IsEpic() && m.issues[c].key in m.issues[q].children
      ensures m.issues[c].epic == Some(m.issues[q].key)
      ensures m.issues[c].milestone == m.issues[q].milestone
      ensures q == p
    {
      ListedNamesEpic(m, q, c);
    }
  }

  lemma ListedNamesEpic(m: Manifest, q: nat, c: nat)
    requires DistinctKeys(m.issues) && WellRelated(m)
    requires q < |m.issues| && m.issues[q].IsEpic() && c < |m.issues|
    requires m.issues[c].key in m.issues[q].children
    ensures m.issues[c].epic == Some(m.issues[q].key)
    ensures m.issues[c].milestone == m.issues[q].milestone
  {
    AllRelated(m, q);
    hide WellRelated, ChildIsRelated;
    var k :| 0 <= k < |m.issues[q].children| && m.issues[q].children[k] == m.issues[c].key;
    assert IsListable(m, m.issues[q], m.issues[q].children[k]);
    var i :| 0 <= i < |m.issues| && m.issues[i].key == m.issues[q].children[k]
      && m.issues[i].epic == Some(m.issues[q].key) && m.issues[i].milestone == m.issues[q].milestone;
    assert i == c;
  }

  // ----- Dependencies -----

  function ChildKeys(m: Manifest): set<string> {
    set i | 0 <= i < |m.issues| && !m.issues[i].IsEpic() :: m.issues[i].key
  }

  function DependenciesOf(m: Manifest, key: string): seq<string> {
    match Find(m, key)
    case Some(issue) => issue.dependsOn
    case None => []
  }

  function GraphOf(m: Manifest): Graph {
    map key | key in ChildKeys(m) :: DependenciesOf(m, key)
  }

  lemma AllRelated(m: Manifest, i: nat)
    requires WellRelated(m) && i < |m.issues|
    ensures IsRelated(m, m.issues[i])
  {
  }

  lemma GraphIsClosed(m: Manifest)
    requires DistinctKeys(m.issues) && WellRelated(m)
    ensures Closed(GraphOf(m))
  {
    hide WellRelated, Find, EpicIsRelated, DistinctKeys;
    forall key | key in ChildKeys(m)
      ensures forall d | 0 <= d < |DependenciesOf(m, key)| :: DependenciesOf(m, key)[d] in ChildKeys(m)
    {
      var c :| 0 <= c < |m.issues| && !m.issues[c].IsEpic() && m.issues[c].key == key;
      FindIsExact(m, key);
      AllRelated(m, c);
    }
  }

  /** A child record with this key lists that one among its dependencies. */
  ghost predicate DependsOn(m: Manifest, key: string, dependency: string) {
    exists record <- m.issues :: !record.IsEpic() && record.key == key && dependency in record.dependsOn
  }

  /** Keys that depend on one another in turn, and the last is the first again. */
  ghost predicate IsDependencyCycle(m: Manifest, p: seq<string>) {
    && |p| >= 2 && p[0] == p[|p| - 1]
    && forall k | 0 <= k < |p| - 1 :: DependsOn(m, p[k], p[k + 1])
  }

  /** Every child once, each behind everything it depends on. */
  ghost predicate IsWorkOrder(m: Manifest, order: seq<string>) {
    && Distinct(order)
    && (forall k :: k in order <==> exists record <- m.issues :: !record.IsEpic() && record.key == k)
    && forall record <- m.issues, a | 0 <= a < |order| && !record.IsEpic() && order[a] == record.key ::
         forall d <- record.dependsOn :: d in order[..a]
  }

  /** The graph that is searched is the records': the children's keys, each with just the
      dependencies its record lists. */
  lemma GraphIsTheRecords(m: Manifest)
    requires DistinctKeys(m.issues)
    ensures forall k :: k in GraphOf(m) <==> exists record <- m.issues :: !record.IsEpic() && record.key == k
    ensures forall record <- m.issues :: !record.IsEpic() ==> GraphOf(m)[record.key] == record.dependsOn
  {
    forall i | 0 <= i < |m.issues| && !m.issues[i].IsEpic()
      ensures m.issues[i].key in GraphOf(m) && GraphOf(m)[m.issues[i].key] == m.issues[i].dependsOn
    {
      FindIsExact(m, m.issues[i].key);
    }
  }

  lemma EdgesAreTheRecords(m: Manifest, key: string, dependency: string)
    requires DistinctKeys(m.issues)
    ensures DependsOn(m, key, dependency) <==> key in GraphOf(m) && dependency in GraphOf(m)[key]
  {
    GraphIsTheRecords(m);
    hide DistinctKeys, GraphOf;
  }

  lemma CyclesAreTheRecords(m: Manifest, p: seq<string>)
    requires DistinctKeys(m.issues) && WellRelated(m)
    ensures IsDependencyCycle(m, p) <==> p != [] && IsCycle(GraphOf(m), p, p[0])
  {
    hide DistinctKeys, WellRelated, GraphOf, DependsOn;
    GraphIsClosed(m);
    forall k | 0 <= k < |p| - 1
      ensures DependsOn(m, p[k], p[k + 1]) <==> p[k] in GraphOf(m) && p[k + 1] in GraphOf(m)[p[k]]
    {
      EdgesAreTheRecords(m, p[k], p[k + 1]);
    }
    if IsDependencyCycle(m, p) {
      forall k | 0 <= k < |p|
        ensures p[k] in GraphOf(m)
      {
        var j := if k == |p| - 1 then 0 else k;
        assert p[j] == p[k] && DependsOn(m, p[j], p[j + 1]);
      }
    }
  }

  lemma AcyclicMeansNoCycle(m: Manifest)
    requires DistinctKeys(m.issues) && WellRelated(m)
    ensures Acyclic(GraphOf(m)) <==> forall p :: !IsDependencyCycle(m, p)
  {
    hide DistinctKeys, WellRelated, GraphOf, IsDependencyCycle;
    forall p
      ensures IsDependencyCycle(m, p) <==> p != [] && IsCycle(GraphOf(m), p, p[0])
    {
      CyclesAreTheRecords(m, p);
    }
    if !Acyclic(GraphOf(m)) {
      var key :| OnCycle(GraphOf(m), key);
      var p :| IsCycle(GraphOf(m), p, key);
      assert IsDependencyCycle(m, p);
    }
    if p :| IsDependencyCycle(m, p) {
      assert OnCycle(GraphOf(m), p[0]);
    }
  }

  lemma OrderIsTheRecords(m: Manifest, order: seq<string>)
    requires DistinctKeys(m.issues) && Sorts(GraphOf(m), order)
    ensures IsWorkOrder(m, order)
  {
    GraphIsTheRecords(m);
    hide DistinctKeys, GraphOf;
  }

  /** The dependency check of a manifest whose relationships hold: nothing is reported exactly
      when no children depend on one another in a circle, and then they can be put in a working
      order; a reported key lies on a circle. */
  method CheckDependencies(m: Manifest) returns (cycle: Option<string>, ghost order: seq<string>)
    requires DistinctKeys(m.issues) && WellRelated(m)
    ensures cycle.None? <==> forall p :: !IsDependencyCycle(m, p)
    ensures cycle.Some? ==> exists p :: IsDependencyCycle(m, p) && p[0] == cycle.value
    ensures cycle.None? ==> IsWorkOrder(m, order)
  {
    hide WellRelated, DistinctKeys, DependenciesOf, Closed, IsDependencyCycle, IsWorkOrder, Sorts, Acyclic, OnCycle;
    GraphIsClosed(m);
    AcyclicMeansNoCycle(m);
    var keys: seq<string> := [];
    for i := 0 to |m.issues|
      invariant forall k <- keys :: k in ChildKeys(m)
      invariant forall j | 0 <= j < i && !m.issues[j].IsEpic() :: m.issues[j].key in keys
    {
      if !m.issues[i].IsEpic() {
        keys := keys + [m.issues[i].key];
      }
    }
    cycle, order := FindCycle(GraphOf(m), keys);
    if cycle.None? {
      OrderIsTheRecords(m, order);
    } else {
      ghost var p := CycleThrough(m, cycle.value);
      assert IsDependencyCycle(m, p) && p[0] == cycle.value;
    }
  }

  lemma CycleThrough(m: Manifest, key: string) returns (p: seq<string>)
    requires DistinctKeys(m.issues) && WellRelated(m) && OnCycle(GraphOf(m), key)
    ensures IsDependencyCycle(m, p) && p != [] && p[0] == key
  {
    hide DistinctKeys, WellRelated, GraphOf;
    p :| IsCycle(GraphOf(m), p, key);
    CyclesAreTheRecords(m, p);
  }
}
