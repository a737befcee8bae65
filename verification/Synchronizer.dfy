/** The synchronizer as it runs: writes made one at a time against the repository. */
module Synchronizer {
  import opened Wrappers
  import opened Text
  import opened Markers
  import opened Catalog
  import opened Rendering
  import opened GitHub
  import opened Planning
  import opened Applying
  import opened CatalogPhase
  import opened IssuePhase
  import opened Convergence

  // ----- Updates always name an issue that exists -----

  predicate KnowsNumber(issues: seq<Issue>, number: nat) {
    FindIssue(issues, number).Some?
  }

  lemma NumbersAreKept(change: IssueChange, numbers: map<string, nat>, w: Work, number: nat)
    requires KnowsNumber(w.st.issues, number)
    ensures KnowsNumber(ApplyIssue(change, numbers, w).st.issues, number)
  {
    var k :| 0 <= k < |w.st.issues| && w.st.issues[k].number == number;
    var after := ApplyIssue(change, numbers, w).st.issues;
    assert after[k].number == number;
  }

  predicate ChangesKnown(changes: seq<IssueChange>, issues: seq<Issue>, titles: map<string, nat>) {
    forall c | c in changes ::
      && (c.UpdateIssue? ==> KnowsNumber(issues, c.number))
      && c.desired.milestoneTitle in titles
  }

  lemma {:induction false} PlannedChangesKnown(issues: seq<IssueSpec>, m: Manifest, start: Work)
    requires Consistent(start) && Resolves(m, start.st.milestones)
    requires forall issue | issue in issues :: issue in m.issues
    ensures ChangesKnown(IssueChanges(issues, m, start.owned), start.st.issues,
                         MilestoneNumbers(start.st.milestones))
  {
    hide OwnerOf, Render, DesiredLabels;
    if issues != [] {
      var n := |issues| - 1;
      PlannedChangesKnown(issues[..n], m, start);
      assert issues[n] in m.issues;
      ScanMaps(start.st.issues);
      if issues[n].key in start.owned {
        FindIssueIsUnique(start.st.issues, start.owned[issues[n].key]);
      }
    }
  }

  // ----- The phases -----

  method WriteLabels(changes: seq<LabelChange>, repo: Repository)
    modifies repo
    ensures repo.State() == ApplyLabels(changes, old(repo.State()))
  {
    for i := 0 to |changes|
      invariant repo.State() == ApplyLabels(changes[..i], old(repo.State()))
    {
      assert changes[..i + 1][..i] == changes[..i];
      match changes[i]
      case CreateLabel(spec) => repo.CreateLabel(spec.name, spec.color, spec.description);
      case UpdateLabel(spec) => repo.UpdateLabel(spec.name, spec.color, spec.description);
    }
    assert changes[..|changes|] == changes;
  }

  method WriteMilestones(changes: seq<MilestoneChange>, repo: Repository)
    modifies repo
    ensures repo.State() == ApplyMilestones(changes, old(repo.State()))
  {
    for i := 0 to |changes|
      invariant repo.State() == ApplyMilestones(changes[..i], old(repo.State()))
    {
      assert changes[..i + 1][..i] == changes[..i];
      match changes[i]
      case CreateMilestone(spec) => repo.CreateMilestone(spec.title, spec.description);
      case UpdateMilestone(number, spec) => repo.UpdateMilestone(number, spec.title, spec.description);
    }
    assert changes[..|changes|] == changes;
  }

  /** One issue write; the record the server answers with replaces the client's. */
  method WriteIssue(change: IssueChange, numbers: map<string, nat>, repo: Repository, owned: Owned)
    returns (after: Owned)
    requires change.UpdateIssue? ==> KnowsNumber(repo.issues, change.number)
    modifies repo
    ensures Work(repo.State(), after) == ApplyIssue(change, numbers, Work(old(repo.State()), owned))
  {
    match change
    case CreateIssue(key, desired) =>
      var record := repo.CreateIssue(PayloadOf(desired, numbers));
      after := owned[key := record];
    case UpdateIssue(key, number, desired) =>
      var record := repo.UpdateIssue(number, PayloadOf(desired, numbers));
      after := owned[key := record];
  }

  method WriteIssues(changes: seq<IssueChange>, numbers: map<string, nat>, repo: Repository, owned: Owned)
    returns (after: Owned)
    requires ChangesKnown(changes, repo.issues, numbers)
    modifies repo
    ensures Work(repo.State(), after) == ApplyIssues(changes, numbers, Work(old(repo.State()), owned))
  {
    hide ApplyIssue, KnowsNumber;
    after := owned;
    for i := 0 to |changes|
      invariant Work(repo.State(), after) == ApplyIssues(changes[..i], numbers, Work(old(repo.State()), owned))
      invariant ChangesKnown(changes, repo.issues, numbers)
    {
      assert changes[..i + 1][..i] == changes[..i];
      ghost var w := Work(repo.State(), after);
      assert changes[i].desired.milestoneTitle in numbers;  // no write lacks its milestone
      after := WriteIssue(changes[i], numbers, repo, after);
      forall c | c in changes && c.UpdateIssue?
        ensures KnowsNumber(repo.issues, c.number)
      {
        NumbersAreKept(changes[i], numbers, w, c.number);
      }
    }
    assert changes[..|changes|] == changes;
  }

  /** The second pass: render again with every number known, and rewrite what differs. */
  method WriteLinks(m: Manifest, numbers: map<string, nat>, repo: Repository, owned: Owned)
    returns (after: Owned, writes: nat)
    requires ValidManifest(m) && Resolves(m, repo.milestones)
    requires Consistent(Work(repo.State(), owned)) && m.Keys() <= owned.Keys
    requires numbers == MilestoneNumbers(repo.milestones)
    modifies repo
    ensures (Work(repo.State(), after), writes)
         == AfterRelink(m, |m.issues|, NumbersOf(owned), Work(old(repo.State()), owned))
  {
    hide ValidManifest, ApplyIssue, Resolves, RelinkOf, Consistent, AfterRelink, KnowsNumber;
    ghost var start := Work(repo.State(), owned);
    var issueNumbers := NumbersOf(owned);
    after, writes := owned, 0;
    NoLinksYet(m, issueNumbers, start);
    for i := 0 to |m.issues|
      invariant (Work(repo.State(), after), writes) == AfterRelink(m, i, issueNumbers, start)
    {
      var issue := m.issues[i];
      ghost var before := Work(repo.State(), after);
      LinksKeepKeys(m, i, issueNumbers, start);
      RelinkSplit(m, i, issueNumbers, start);
      assert issue.key in m.Keys();
      var change := LinkWrite(issue, m, issueNumbers, after, before);
      if change != [] {
        UpdateIsKnown(issue, m, issueNumbers, before);
        after := WriteIssue(change[0], numbers, repo, after);
        writes := writes + 1;
      }
    }
  }

  lemma NoLinksYet(m: Manifest, numbers: Numbers, start: Work)
    ensures AfterRelink(m, 0, numbers, start) == (start, 0)
  {
  }

  lemma LinksKeepKeys(m: Manifest, n: nat, numbers: Numbers, start: Work)
    requires ValidManifest(m) && Consistent(start) && Resolves(m, start.st.milestones)
    requires n <= |m.issues|
    ensures var w := AfterRelink(m, n, numbers, start).0;
      Consistent(w) && w.owned.Keys == start.owned.Keys
  {
    hide Consistent, ValidManifest, Resolves, OwnedEvolves, FrameHolds, AfterRelink;
    PassTwoHolds(m, n, numbers, start);
  }

  method LinkWrite(issue: IssueSpec, m: Manifest, issueNumbers: Numbers, owned: Owned, ghost w: Work)
    returns (change: seq<IssueChange>)
    requires w.owned == owned && issue.key in owned
    ensures change == RelinkOf(issue, m, issueNumbers, w) && |change| <= 1
  {
    hide Render, DesiredLabels;
    if issue.IsHistorical() {
      return [];
    }
    var existing := owned[issue.key];
    if existing.isClosed {
      return [];
    }
    var body := RenderIssueBody(issue, m, issueNumbers);
    var desired := Desired(issue.title, body, DesiredLabels(issue, m, Some(existing)),
                           MilestoneTitle(m.milestones, issue.milestone));
    if IssueDiffers(existing, desired) {
      return [UpdateIssue(issue.key, existing.number, desired)];
    }
    return [];
  }

  lemma UpdateIsKnown(issue: IssueSpec, m: Manifest, issueNumbers: Numbers, w: Work)
    requires Consistent(w) && RelinkOf(issue, m, issueNumbers, w) != []
    ensures var change := RelinkOf(issue, m, issueNumbers, w)[0];
      change.UpdateIssue? && KnowsNumber(w.st.issues, change.number)
  {
    hide OwnerOf, Render, DesiredLabels, IssueDiffers;
    ScanMaps(w.st.issues);
    FindIssueIsUnique(w.st.issues, w.owned[issue.key]);
  }

  // ----- The run -----

  /** `apply_sync_plan`, for a plan built from this very repository. */
  method ApplySyncPlan(m: Manifest, plan: SyncPlan, repo: Repository, ghost allowMissing: bool)
    returns (writes: nat)
    requires Planned(m, repo.State(), allowMissing, plan)
    modifies repo
    ensures repo.State() == EndOf(m, plan, old(repo.State())).st
    ensures writes == WritesOf(m, plan, old(repo.State()))
  {
    hide ValidManifest, Plan, PassOne, PassTwo, AfterRelink, AfterChanges, LabelsKept, MilestonesKept, Scan,
         ServerState.WellFormed, LabelSettled, MilestoneSettled, CatalogIsPlanned, Resolves, IssueChanges,
         ChangesKnown, HistoricalProblem;
    ghost var st := repo.State();
    RunIsTwoPasses(m, st, allowMissing, plan);
    CatalogPhaseKeeps(m, plan, st);
    CatalogPhaseSettles(m, plan, st);

    WriteLabels(plan.labels, repo);
    WriteMilestones(plan.milestones, repo);
    var numbers := MilestoneNumbers(repo.milestones);
    var scan := ScanIssues(repo.issues);
    var owned := scan.value;
    ghost var start := Work(repo.State(), owned);
    assert start == StartOf(plan, st);
    PlannedChangesKnown(m.issues, m, start);

    owned := WriteIssues(plan.issues, numbers, repo, owned);
    ghost var middle := Work(repo.State(), owned);
    assert middle == MiddleOf(plan, st);
    PassesHold(m, st, allowMissing, plan);
    PassOneFacts(m, start, middle);
    MiddleKeys(m, start, middle);

    var extra: nat;
    owned, extra := WriteLinks(m, numbers, repo, owned);
    writes := |plan.labels| + |plan.milestones| + |plan.issues| + extra;
  }

  datatype SyncError = NotAuthorised | PlanRefused(error: PlanError)

  /** `sync_manifest` on a validated manifest: without the authorisation to apply, with a
      refused plan, or on a dry run nothing is written, and an applied plan leaves nothing for
      the next one. Only the offline client may plan with history missing, and its
      authorisation always fails, so a plan that is applied refused missing history. */
  method SyncManifest(m: Manifest, repo: Repository, apply: bool, isOffline: bool, isAuthorised: bool)
    returns (r: Result<SyncPlan, SyncError>, writes: nat)
    requires ValidManifest(m) && repo.State().WellFormed()
    requires isOffline ==> !isAuthorised
    modifies repo
    ensures r == if apply && !isAuthorised then Failure(NotAuthorised)
      else
        match Plan(m, old(repo.State()), isOffline)
        case Failure(e) => Failure(PlanRefused(e))
        case Success(plan) => Success(plan)
    ensures r.Failure? || !apply ==> repo.State() == old(repo.State()) && writes == 0
    ensures r.Success? && apply ==>
      && repo.State() == EndOf(m, r.value, old(repo.State())).st
      && writes == WritesOf(m, r.value, old(repo.State()))
      && Plan(m, repo.State(), false).Success?
      && Plan(m, repo.State(), false).value.IsEmpty()
  {
    hide ValidManifest, Plan, EndOf, ServerState.WellFormed;
    writes := 0;
    if apply && !isAuthorised {
      return Failure(NotAuthorised), writes;
    }
    var current := ServerState(repo.labels, repo.milestones, repo.issues, repo.nextMilestone, repo.nextIssue);
    var planned := BuildSyncPlan(m, current, isOffline);
    if planned.Failure? {
      return Failure(PlanRefused(planned.error)), writes;
    }
    r := Success(planned.value);
    if apply {
      RunConverges(m, current, false, r.value, false);
      writes := ApplySyncPlan(m, r.value, repo, false);
    }
  }
}
