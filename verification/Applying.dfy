/** Carrying a plan out: catalog records first, then issues, then the links that only exist
    once every new issue has its number. */
module Applying {
  import opened Wrappers
  import opened Text
  import opened Markers
  import opened Catalog
  import opened Rendering
  import opened GitHub
  import opened Planning

  /** The repository and the client's record of who owns what. */
  datatype Work = Work(st: ServerState, owned: Owned)

  predicate Consistent(w: Work) {
    w.st.WellFormed() && Scan(w.st.issues) == Success(w.owned)
  }

  // ----- Labels and milestones -----

  function ApplyLabel(change: LabelChange, st: ServerState): ServerState {
    match change
    case CreateLabel(spec) => st.CreateLabel(spec.name, spec.color, spec.description)
    case UpdateLabel(spec) => st.UpdateLabel(spec.name, spec.color, spec.description)
  }

  function ApplyLabels(changes: seq<LabelChange>, st: ServerState): ServerState {
    if changes == [] then st
    else ApplyLabel(changes[|changes| - 1], ApplyLabels(changes[..|changes| - 1], st))
  }

  function ApplyMilestone(change: MilestoneChange, st: ServerState): ServerState {
    match change
    case CreateMilestone(spec) => st.CreateMilestone(spec.title, spec.description)
    case UpdateMilestone(number, spec) => st.UpdateMilestone(number, spec.title, spec.description)
  }

  function ApplyMilestones(changes: seq<MilestoneChange>, st: ServerState): ServerState {
    if changes == [] then st
    else ApplyMilestone(changes[|changes| - 1], ApplyMilestones(changes[..|changes| - 1], st))
  }

  // ----- Issues -----

  /** The milestone numbers by title, as listed after the milestones were written. */
  function MilestoneNumbers(ms: seq<Milestone>): map<string, nat> {
    if ms == [] then map[]
    else MilestoneNumbers(ms[..|ms| - 1])[ms[|ms| - 1].title := ms[|ms| - 1].number]
  }

  function PayloadOf(desired: Desired, numbers: map<string, nat>): IssuePayload {
    IssuePayload(desired.title, desired.body, desired.labels,
      if desired.milestoneTitle in numbers then numbers[desired.milestoneTitle]
      else 0)  // never reached: every milestone of the catalog has just been written
  }

  function ApplyIssue(change: IssueChange, numbers: map<string, nat>, w: Work): Work {
    var payload := PayloadOf(change.desired, numbers);
    match change
    case CreateIssue(key, _) =>
      Work(w.st.CreateIssue(payload), w.owned[key := w.st.NewIssue(payload)])
    case UpdateIssue(key, number, _) =>
      match FindIssue(w.st.issues, number)
      case Some(existing) =>
        Work(w.st.UpdateIssue(number, payload), w.owned[key := w.st.Rewritten(existing, payload)])
      case None => w
  }

  function ApplyIssues(changes: seq<IssueChange>, numbers: map<string, nat>, w: Work): Work {
    if changes == [] then w
    else ApplyIssue(changes[|changes| - 1], numbers, ApplyIssues(changes[..|changes| - 1], numbers, w))
  }

  // ----- The second rendering -----

  /** The write the second pass makes for one record, if any. */
  function RelinkOf(issue: IssueSpec, m: Manifest, issueNumbers: Numbers, w: Work): seq<IssueChange> {
    if issue.IsHistorical() || issue.key !in w.owned || w.owned[issue.key].isClosed then []
    else
      var existing := w.owned[issue.key];
      var desired := DesiredOf(issue, m, issueNumbers, Some(existing));
      if IssueDiffers(existing, desired) then [UpdateIssue(issue.key, existing.number, desired)]
      else []
  }

  /** The second pass over a prefix of the catalog: the state it reaches and its writes. */
  function Relink(issues: seq<IssueSpec>, m: Manifest, issueNumbers: Numbers,
                  numbers: map<string, nat>, w: Work): (Work, nat)
  {
    if issues == [] then (w, 0)
    else
      var (before, writes) := Relink(issues[..|issues| - 1], m, issueNumbers, numbers, w);
      var change := RelinkOf(issues[|issues| - 1], m, issueNumbers, before);
      (ApplyIssues(change, numbers, before), writes + |change|)
  }

  // ----- The whole run -----

  /** Labels and milestones written, nothing else yet. */
  function CatalogWritten(plan: SyncPlan, st: ServerState): ServerState {
    ApplyMilestones(plan.milestones, ApplyLabels(plan.labels, st))
  }

  function Started(plan: SyncPlan, st: ServerState, owned: Owned): Work {
    Work(CatalogWritten(plan, st), owned)
  }

  /** Issue changes made, links not yet renewed. */
  function IssuesWritten(plan: SyncPlan, st: ServerState, owned: Owned): Work {
    var start := Started(plan, st, owned);
    ApplyIssues(plan.issues, MilestoneNumbers(start.st.milestones), start)
  }

  /** The state a run ends in, and how many writes it made beyond the planned ones. */
  function Run(m: Manifest, plan: SyncPlan, st: ServerState, owned: Owned): (Work, nat) {
    var written := IssuesWritten(plan, st, owned);
    Relink(m.issues, m, NumbersOf(written.owned), MilestoneNumbers(written.st.milestones), written)
  }

  // ----- Consistency of one write -----

  lemma {:induction false} FindIssueIsUnique(issues: seq<Issue>, issue: Issue)
    requires issue in issues
    requires forall i, j | 0 <= i < j < |issues| :: issues[i].number != issues[j].number
    ensures FindIssue(issues, issue.number) == Some(issue)
  {
    var n := |issues| - 1;
    if issues[n] != issue {
      var i :| 0 <= i < |issues| && issues[i] == issue;
      assert issues[i].number != issues[n].number;
      FindIssueIsUnique(issues[..n], issue);
    }
  }

  /** Where the issue a key owns stands: it is the last one, or the front holds it too. */
  lemma OwnedStands(issues: seq<Issue>, owned: Owned, key: string)
    requires issues != [] && Scan(issues) == Success(owned) && key in owned
    requires forall i, j | 0 <= i < j < |issues| :: issues[i].number != issues[j].number
    ensures owned[key] in issues
    ensures var last := issues[|issues| - 1];
      if last.number == owned[key].number then owned[key] == last && OwnerOf(last.body) == Managed(key)
      else OwnerOf(last.body) != Managed(key)
  {
    hide OwnerOf, Scan;
    ScanMaps(issues);
    var i :| 0 <= i < |issues| && issues[i] == owned[key];
    assert issues[|issues| - 1] in issues;
  }

  lemma {:induction false} ScanReplaces(issues: seq<Issue>, owned: Owned, key: string, record: Issue)
    requires Scan(issues) == Success(owned) && key in owned
    requires forall i, j | 0 <= i < j < |issues| :: issues[i].number != issues[j].number
    requires OwnerOf(record.body) == Managed(key) && record.number == owned[key].number
    ensures Scan(ReplaceIssue(issues, record)) == Success(owned[key := record])
  {
    hide OwnerOf;
    var n := |issues| - 1;
    var front, last := issues[..n], issues[n];
    var replaced := ReplaceIssue(issues, record);
    assert replaced[..n] == ReplaceIssue(front, record);
    OwnedStands(issues, owned, key);
    var inner := Scan(front).value;
    if last.number == record.number {
      assert ReplaceIssue(front, record) == front;
      assert owned[key := record] == inner[key := record];
    } else {
      ScanReplaces(front, inner, key, record);
      if OwnerOf(last.body).Managed? {
        assert owned[key := record] == inner[key := record][OwnerOf(last.body).key := last];
      }
    }
  }

  /** Creating an issue under a free key, or rewriting the one a key owns, keeps the client's
      record and the repository in step when the new body is owned by that key. */
  lemma WriteKeepsConsistency(w: Work, change: IssueChange, numbers: map<string, nat>)
    requires Consistent(w)
    requires OwnerOf(change.desired.body) == Managed(change.key)
    requires change.CreateIssue? <==> change.key !in w.owned
    requires change.UpdateIssue? ==> change.number == w.owned[change.key].number
    ensures Consistent(ApplyIssue(change, numbers, w))
    ensures change.UpdateIssue? ==> FindIssue(w.st.issues, change.number) == Some(w.owned[change.key])
  {
    hide OwnerOf;
    var next := ApplyIssue(change, numbers, w);
    if change.CreateIssue? {
      var record := w.st.NewIssue(PayloadOf(change.desired, numbers));
      assert next.st.issues[..|w.st.issues|] == w.st.issues;
    } else {
      var existing := w.owned[change.key];
      ScanMaps(w.st.issues);
      FindIssueIsUnique(w.st.issues, existing);
      var record := w.st.Rewritten(existing, PayloadOf(change.desired, numbers));
      ScanReplaces(w.st.issues, w.owned, change.key, record);
    }
  }

  // ----- What one write leaves alone -----

  /** The promise to an issue that was there before: its number and state never change, and
      it is rewritten only if it is open and managed by the catalog, still owned by the same
      key and with every label the synchronizer has no say in. */
  predicate Preserved(m: Manifest, before: Issue, after: Issue) {
    && before.number == after.number
    && before.isClosed == after.isClosed
    && (after != before ==>
      && !before.isClosed
      && OwnerOf(before.body).Managed?
      && OwnerOf(before.body).key in m.Keys()
      && OwnerOf(after.body) == OwnerOf(before.body)
      && KeptLabels(before.labels, m) <= after.labels
      && after.labels <= before.labels + LabelsOf(m, OwnerOf(before.body).key))
  }

  function LabelsOf(m: Manifest, key: string): set<string> {
    match IndexOf(m.issues, key)
    case Some(i) => IndexOfFinds(m.issues, key); m.issues[i].labels
    case None => {}
  }

  /** Nothing is deleted, old issues are preserved, and new ones belong to the catalog. */
  predicate FrameHolds(m: Manifest, before: seq<Issue>, after: seq<Issue>) {
    && |before| <= |after|
    && (forall i | 0 <= i < |before| :: Preserved(m, before[i], after[i]))
    && (forall i | |before| <= i < |after| ::
          && OwnerOf(after[i].body).Managed?
          && OwnerOf(after[i].body).key in m.Keys()
          && after[i].labels <= LabelsOf(m, OwnerOf(after[i].body).key))
  }

  lemma PreservedIsTransitive(m: Manifest, a: Issue, b: Issue, c: Issue)
    requires Preserved(m, a, b) && Preserved(m, b, c)
    ensures Preserved(m, a, c)
  {
    hide OwnerOf, IsKept, LabelsOf;
    if a != b && b != c {
      forall name | name in KeptLabels(a.labels, m)
        ensures name in c.labels
      {
        assert name in KeptLabels(b.labels, m);
      }
    }
  }

  lemma FrameIsTransitive(m: Manifest, a: seq<Issue>, b: seq<Issue>, c: seq<Issue>)
    requires FrameHolds(m, a, b) && FrameHolds(m, b, c)
    ensures FrameHolds(m, a, c)
  {
    hide OwnerOf, KeptLabels, LabelsOf;
    forall i | 0 <= i < |a|
      ensures Preserved(m, a[i], c[i])
    {
      PreservedIsTransitive(m, a[i], b[i], c[i]);
    }
    assert forall i | |a| <= i < |b| :: Preserved(m, b[i], c[i]);
  }

  lemma WriteKeepsFrame(m: Manifest, w: Work, change: IssueChange, numbers: map<string, nat>)
    requires Consistent(w)
    requires OwnerOf(change.desired.body) == Managed(change.key) && change.key in m.Keys()
    requires change.CreateIssue? <==> change.key !in w.owned
    requires change.CreateIssue? ==> change.desired.labels <= LabelsOf(m, change.key)
    requires change.UpdateIssue? ==>
      && change.number == w.owned[change.key].number
      && !w.owned[change.key].isClosed
      && KeptLabels(w.owned[change.key].labels, m) <= change.desired.labels
      && change.desired.labels <= w.owned[change.key].labels + LabelsOf(m, change.key)
    ensures FrameHolds(m, w.st.issues, ApplyIssue(change, numbers, w).st.issues)
  {
    hide OwnerOf, KeptLabels, LabelsOf;
    if change.UpdateIssue? {
      ScanMaps(w.st.issues);
      FindIssueIsUnique(w.st.issues, w.owned[change.key]);
      RewriteKeepsFrame(m, w.st.issues, w.owned[change.key],
                        w.st.Rewritten(w.owned[change.key], PayloadOf(change.desired, numbers)));
    } else {
      forall i | 0 <= i < |w.st.issues|
        ensures Preserved(m, w.st.issues[i], ApplyIssue(change, numbers, w).st.issues[i])
      {
        assert ApplyIssue(change, numbers, w).st.issues[i] == w.st.issues[i];
      }
    }
  }

  lemma RewriteKeepsFrame(m: Manifest, issues: seq<Issue>, existing: Issue, record: Issue)
    requires existing in issues && Preserved(m, existing, record)
    requires forall i, j | 0 <= i < j < |issues| :: issues[i].number != issues[j].number
    ensures FrameHolds(m, issues, ReplaceIssue(issues, record))
  {
    hide OwnerOf, KeptLabels, LabelsOf;
    var k :| 0 <= k < |issues| && issues[k] == existing;
    forall i | 0 <= i < |issues|
      ensures Preserved(m, issues[i], ReplaceIssue(issues, record)[i])
    {
      if i != k {
        assert issues[i].number != issues[k].number;
      }
    }
  }
}
