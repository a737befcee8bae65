/** The issue catalog after parsing: its records and what validation demands of them. */
module Catalog {
  import opened Wrappers
  import opened Text
  import opened Markers

  datatype LabelSpec = LabelSpec(name: string, color: string, description: string)

  datatype MilestoneSpec = MilestoneSpec(key: string, title: string, description: string)

  datatype Execution =
    | Executable(owner: string, model: string, effort: string, reason: string,
                 dispatchGate: seq<string>, escalationTriggers: seq<string>)
    | Deferred(reason: string, dispatchGate: seq<string>)
    | Historical(reason: string)

  datatype IssueSpec = IssueSpec(
    key: string, title: string, milestone: string, labels: set<string>,
    acceptance: seq<string>, privacyImpact: string, verification: seq<string>,
    plan: string, task: string,
    children: seq<string>, epic: Option<string>, dependsOn: seq<string>,
    execution: Option<Execution>)
  {
    predicate IsEpic() {
      children != []
    }

    predicate IsHistorical() {
      execution.Some? && execution.value.Historical?
    }

    /** The issues whose numbers the rendered body links to. */
    function Mentions(): set<string> {
      if IsEpic() then set k | k in children
      else (if epic.Some? then {epic.value} else {}) + set k | k in dependsOn
    }
  }

  datatype Manifest = Manifest(
    labels: seq<LabelSpec>, milestones: seq<MilestoneSpec>, issues: seq<IssueSpec>)
  {
    function Keys(): set<string> {
      set i | 0 <= i < |issues| :: issues[i].key
    }

    function LabelNames(): set<string> {
      set i | 0 <= i < |labels| :: labels[i].name
    }
  }

  // ----- Keys -----

  /** `E[1-9][0-9]*` */
  predicate IsEpicKey(key: string) {
    && |key| >= 2
    && key[0] == 'E'
    && '1' <= key[1] <= '9'
    && AllDigits(key[2..])
  }

  /** `E[1-9][0-9]*-I[0-9]{2}` */
  predicate IsChildKey(key: string) {
    && |key| >= 6
    && IsEpicKey(key[..|key| - 4])
    && key[|key| - 4..|key| - 2] == "-I"
    && AllDigits(key[|key| - 2..])
  }

  lemma KeysFitMarkers(key: string)
    requires IsEpicKey(key) || IsChildKey(key)
    ensures IsMarkerKey(key)
  {
    var head := if IsEpicKey(key) then key else key[..|key| - 4];
    forall i | 0 <= i < |key|
      ensures 'A' <= key[i] <= 'Z' || IsDigit(key[i]) || key[i] == '-'
    {
      if i < |head| {
        assert head[i] == key[i];
        if i >= 2 {
          assert IsDigit(head[2..][i - 2]);
        }
      } else if i < |key| - 2 {
        assert key[|key| - 4..|key| - 2][i - (|key| - 4)] == key[i];
      } else {
        assert IsDigit(key[|key| - 2..][i - (|key| - 2)]);
      }
    }
  }

  // ----- Validity -----

  /** No string of the manifest holds the reserved token (`_reject_reserved_marker_content`,
      on the strings that reach a rendered body). */
  predicate IssueIsClean(issue: IssueSpec) {
    && Clean(issue.key) && Clean(issue.title) && Clean(issue.plan) && Clean(issue.task)
    && Clean(issue.privacyImpact)
    && AllClean(issue.acceptance) && AllClean(issue.verification)
    && AllClean(issue.children) && AllClean(issue.dependsOn)
    && (issue.epic.Some? ==> Clean(issue.epic.value))
    && (issue.execution.Some? ==> ExecutionIsClean(issue.execution.value))
  }

  predicate ExecutionIsClean(e: Execution) {
    && Clean(e.reason)
    && (!e.Historical? ==> AllClean(e.dispatchGate))
    && (e.Executable? ==>
      Clean(e.owner) && Clean(e.model) && Clean(e.effort) && AllClean(e.escalationTriggers))
  }

  predicate AllClean(parts: seq<string>) {
    forall i | 0 <= i < |parts| :: Clean(parts[i])
  }

  predicate Distinct<T(==)>(s: seq<T>) {
    forall i, j | 0 <= i < j < |s| :: s[i] != s[j]
  }

  predicate DistinctKeys(issues: seq<IssueSpec>) {
    forall i, j | 0 <= i < j < |issues| :: issues[i].key != issues[j].key
  }

  predicate DistinctLabels(labels: seq<LabelSpec>) {
    forall i, j | 0 <= i < j < |labels| :: labels[i].name != labels[j].name
  }

  predicate DistinctMilestones(ms: seq<MilestoneSpec>) {
    forall i, j | 0 <= i < j < |ms| :: ms[i].title != ms[j].title && ms[i].key != ms[j].key
  }

  /** The shape of one record: an epic has children and nothing else, a child has an epic
      and execution metadata (sync_issues.py:637-657, 752-753). */
  predicate WellShaped(issue: IssueSpec) {
    if issue.IsEpic() then
      && IsEpicKey(issue.key)
      && issue.epic == None && issue.dependsOn == [] && issue.execution == None
      && Distinct(issue.children)
    else
      && IsChildKey(issue.key)
      && issue.epic.Some? && issue.execution.Some?
      && Distinct(issue.dependsOn)
  }

  predicate KnowsMilestone(m: Manifest, key: string) {
    exists i | 0 <= i < |m.milestones| :: m.milestones[i].key == key
  }

  predicate ValidIssues(m: Manifest) {
    forall i | 0 <= i < |m.issues| ::
      && WellShaped(m.issues[i])
      && IssueIsClean(m.issues[i])
      && m.issues[i].labels <= m.LabelNames()
      && KnowsMilestone(m, m.issues[i].milestone)
  }

  /** What the planner and the renderer rely on. */
  predicate ValidManifest(m: Manifest) {
    && DistinctLabels(m.labels)
    && (forall i | 0 <= i < |m.labels| :: IsUpperHex(m.labels[i].color))
    && DistinctMilestones(m.milestones)
    && DistinctKeys(m.issues)
    && ValidIssues(m)
    && WellRelated(m)
  }

  // ----- Relationships -----

  function IndexOf(issues: seq<IssueSpec>, key: string): Option<nat> {
    if issues == [] then None
    else if issues[|issues| - 1].key == key then Some(|issues| - 1)
    else IndexOf(issues[..|issues| - 1], key)
  }

  lemma {:induction false} IndexOfFinds(issues: seq<IssueSpec>, key: string)
    ensures IndexOf(issues, key).Some? ==>
      IndexOf(issues, key).value < |issues| && issues[IndexOf(issues, key).value].key == key
    ensures IndexOf(issues, key).None? <==> forall i | 0 <= i < |issues| :: issues[i].key != key
    ensures DistinctKeys(issues) ==>
      forall i | 0 <= i < |issues| && issues[i].key == key :: IndexOf(issues, key) == Some(i)
  {
    if issues != [] {
      IndexOfFinds(issues[..|issues| - 1], key);
    }
  }

  /** Children point back to the epic that lists them and share its milestone. */
  predicate EpicIsRelated(m: Manifest, epic: IssueSpec) {
    forall c | 0 <= c < |epic.children| :: IsListable(m, epic, epic.children[c])
  }

  predicate IsListable(m: Manifest, epic: IssueSpec, key: string) {
    exists i | 0 <= i < |m.issues| ::
      && m.issues[i].key == key
      && !m.issues[i].IsEpic()
      && m.issues[i].epic == Some(epic.key)
      && m.issues[i].milestone == epic.milestone
  }

  /** A child is listed by the epic it names and depends on other children only. */
  predicate ChildIsRelated(m: Manifest, child: IssueSpec) {
    && (exists e | 0 <= e < |m.issues| ::
          && m.issues[e].IsEpic()
          && Some(m.issues[e].key) == child.epic
          && child.key in m.issues[e].children)
    && (forall d | 0 <= d < |child.dependsOn| ::
          && child.dependsOn[d] != child.key
          && exists i | 0 <= i < |m.issues| ::
               m.issues[i].key == child.dependsOn[d] && !m.issues[i].IsEpic())
  }

  predicate IsRelated(m: Manifest, issue: IssueSpec) {
    if issue.IsEpic() then EpicIsRelated(m, issue) else ChildIsRelated(m, issue)
  }

  predicate WellRelated(m: Manifest) {
    forall i | 0 <= i < |m.issues| :: IsRelated(m, m.issues[i])
  }
}
