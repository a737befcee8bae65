/** What a whole run of the synchronizer guarantees. */
module Convergence {
  import opened Wrappers
  import opened Text
  import opened Markers
  import opened Catalog
  import opened Rendering
  import opened GitHub
  import opened Planning
  import opened Applying
  import opened CatalogPhase
  import opened IssuePhase

  /** A plan built from the repository it is applied to. */
  predicate Planned(m: Manifest, st: ServerState, allowMissing: bool, plan: SyncPlan) {
    ValidManifest(m) && st.WellFormed() && Plan(m, st, allowMissing) == Success(plan)
  }

  /** The first run there is: into a repository without issues, any valid manifest without
      history has a plan. */
  lemma FreshRepositoryHasAPlan(m: Manifest, st: ServerState) returns (plan: SyncPlan)
    requires ValidManifest(m) && st.WellFormed() && st.issues == []
    requires forall i | 0 <= i < |m.issues| :: !m.issues[i].IsHistorical()
    ensures Planned(m, st, false, plan)
  {
    hide ValidManifest, Plan, ServerState.WellFormed, OwnerOf;
    PlanSucceedsExactly(m, st, false);
    plan := Plan(m, st, false).value;
  }

  function OwnedAtStart(st: ServerState): Owned {
    var scan := Scan(st.issues);
    if scan.Success? then scan.value else map[]
  }

  /** The state a planned run ends in. */
  function EndOf(m: Manifest, plan: SyncPlan, st: ServerState): Work {
    Run(m, plan, st, OwnedAtStart(st)).0
  }

  /** The writes a run makes, and those of them the plan does not list. */
  function WritesOf(m: Manifest, plan: SyncPlan, st: ServerState): nat {
    plan.Size() + ExtraOf(m, plan, st)
  }

  function ExtraOf(m: Manifest, plan: SyncPlan, st: ServerState): nat {
    Run(m, plan, st, OwnedAtStart(st)).1
  }

  predicate NoHistoryMissing(m: Manifest, owned: Owned) {
    forall i | 0 <= i < |m.issues| && m.issues[i].IsHistorical() :: m.issues[i].key in owned
  }

  // ----- The three states of a run, linked -----

  function StartOf(plan: SyncPlan, st: ServerState): Work {
    Started(plan, st, OwnedAtStart(st))
  }

  function MiddleOf(plan: SyncPlan, st: ServerState): Work {
    IssuesWritten(plan, st, OwnedAtStart(st))
  }

  lemma RunIsTwoPasses(m: Manifest, st: ServerState, allowMissing: bool, plan: SyncPlan)
    requires Planned(m, st, allowMissing, plan)
    ensures var n, start, middle, done := |m.issues|, StartOf(plan, st), MiddleOf(plan, st), EndOf(m, plan, st);
      && start.owned == OwnedAtStart(st)
      && Scan(st.issues) == Success(start.owned)
      && HistoricalProblem(m.issues, start.owned, allowMissing).None?
      && CatalogIsPlanned(m, plan, st)
      && plan.issues == IssueChanges(m.issues, m, start.owned)
      && middle == AfterChanges(m, n, start)
      && (middle.st.milestones == start.st.milestones ==>
            && done == AfterRelink(m, n, NumbersOf(middle.owned), middle).0
            && ExtraOf(m, plan, st) == AfterRelink(m, n, NumbersOf(middle.owned), middle).1)
  {
    hide ValidManifest, HistoricalProblem;
    assert m.issues[..|m.issues|] == m.issues;
  }

  lemma PassesHold(m: Manifest, st: ServerState, allowMissing: bool, plan: SyncPlan)
    requires Planned(m, st, allowMissing, plan)
    ensures var n, start, middle, done := |m.issues|, StartOf(plan, st), MiddleOf(plan, st), EndOf(m, plan, st);
      && start.st == CatalogWritten(plan, st)
      && CatalogIsPlanned(m, plan, st)
      && PassOne(m, n, start, middle)
      && PassTwo(m, n, NumbersOf(middle.owned), middle, done, ExtraOf(m, plan, st))
  {
    hide ValidManifest, Resolves, PassOne, PassTwo, Scan, ServerState.WellFormed, Plan;
    var n, start, middle := |m.issues|, StartOf(plan, st), MiddleOf(plan, st);
    RunIsTwoPasses(m, st, allowMissing, plan);
    CatalogPhaseKeeps(m, plan, st);
    CatalogPhaseSettles(m, plan, st);
    PassOneHolds(m, n, start);
    PassOneFacts(m, start, middle);
    PassTwoHolds(m, n, NumbersOf(middle.owned), middle);
  }

  lemma PassOneFacts(m: Manifest, start: Work, middle: Work)
    requires PassOne(m, |m.issues|, start, middle)
    ensures Consistent(middle) && middle.st.milestones == start.st.milestones
  {
    hide Consistent;
  }

  // ----- Convergence -----

  lemma {:induction false} NoChangesWhenNone(issues: seq<IssueSpec>, m: Manifest, owned: Owned)
    requires forall i | 0 <= i < |issues| :: IssueChangeOf(issues[i], m, owned) == []
    ensures IssueChanges(issues, m, owned) == []
  {
    hide IssueChangeOf;
    if issues != [] {
      NoChangesWhenNone(issues[..|issues| - 1], m, owned);
    }
  }

  lemma SettledNeedsNoChange(issue: IssueSpec, m: Manifest, owned: Owned)
    requires issue.key in owned
    requires owned[issue.key].isClosed || Settled(owned[issue.key], issue, m, NumbersOf(owned))
    ensures IssueChangeOf(issue, m, owned) == []
  {
    hide DesiredOf, IssueDiffers;
  }

  /** Once both passes are done, no record asks for another write, unless it is historical and
      had been missing: the second pass skips that one. */
  lemma EndNeedsNoChange(m: Manifest, start: Work, middle: Work, done: Work, writes: nat, i: nat)
    requires i < |m.issues|
    requires PassOne(m, |m.issues|, start, middle)
    requires PassTwo(m, |m.issues|, NumbersOf(middle.owned), middle, done, writes)
    requires !m.issues[i].IsHistorical()
      || (m.issues[i].key in start.owned && start.owned[m.issues[i].key].isClosed)
    ensures IssueChangeOf(m.issues[i], m, done.owned) == []
  {
    hide StateEvolves, Settled, IssueChangeOf;
    var issue := m.issues[i];
    assert Handled(m, start.owned, middle.owned, issue);
    assert NumbersOf(done.owned) == NumbersOf(middle.owned);
    SettledNeedsNoChange(issue, m, done.owned);
  }

  lemma HistoryAtEnd(m: Manifest, start: Work, middle: Work, done: Work, writes: nat, i: nat)
    requires i < |m.issues| && m.issues[i].IsHistorical()
    requires PassOne(m, |m.issues|, start, middle)
    requires PassTwo(m, |m.issues|, NumbersOf(middle.owned), middle, done, writes)
    requires m.issues[i].key in start.owned ==> start.owned[m.issues[i].key].isClosed
    ensures m.issues[i].key in done.owned
    ensures done.owned[m.issues[i].key].isClosed <==> m.issues[i].key in start.owned
  {
    hide StateEvolves, Settled;
    assert Handled(m, start.owned, middle.owned, m.issues[i]);
  }

  lemma HistoryDecides(m: Manifest, before: Owned, after: Owned, allowMissing: bool, allowNext: bool)
    requires HistoricalProblem(m.issues, before, allowMissing).None?
    requires forall i | 0 <= i < |m.issues| && m.issues[i].IsHistorical() ::
      && m.issues[i].key in after
      && (m.issues[i].key in before && before[m.issues[i].key].isClosed ==> after[m.issues[i].key].isClosed)
      && (m.issues[i].key !in before ==> !after[m.issues[i].key].isClosed)
    ensures HistoricalProblem(m.issues, after, allowNext).None? <==> NoHistoryMissing(m, before)
  {
    hide HistoricalProblem;
    HistoricalCheckIsExact(m.issues, before, allowMissing);
    HistoricalCheckIsExact(m.issues, after, allowNext);
  }

  lemma HistoryIsClosed(m: Manifest, owned: Owned, allowMissing: bool, i: nat)
    requires HistoricalProblem(m.issues, owned, allowMissing).None?
    requires i < |m.issues| && m.issues[i].IsHistorical()
    ensures m.issues[i].key in owned ==> owned[m.issues[i].key].isClosed
  {
    HistoricalCheckIsExact(m.issues, owned, allowMissing);
  }

  lemma HistoryAtEndOfRun(m: Manifest, st: ServerState, allowMissing: bool, plan: SyncPlan, i: nat)
    requires Planned(m, st, allowMissing, plan)
    requires i < |m.issues| && m.issues[i].IsHistorical()
    ensures var key, before, after := m.issues[i].key, OwnedAtStart(st), EndOf(m, plan, st).owned;
      && key in after
      && (key in before && before[key].isClosed ==> after[key].isClosed)
      && (key !in before ==> !after[key].isClosed)
  {
    hide ValidManifest, PassOne, PassTwo, EndOf, ExtraOf, StartOf, MiddleOf, HistoricalProblem, Plan, Scan,
         ServerState.WellFormed, CatalogIsPlanned, AfterChanges, AfterRelink, OwnedAtStart;
    RunIsTwoPasses(m, st, allowMissing, plan);
    PassesHold(m, st, allowMissing, plan);
    HistoryIsClosed(m, OwnedAtStart(st), allowMissing, i);
    HistoryAtEnd(m, StartOf(plan, st), MiddleOf(plan, st), EndOf(m, plan, st),
                 ExtraOf(m, plan, st), i);
  }

  /** Replanning after a run gets past the historical check exactly when no historical child
      was missing before. */
  lemma ReplanChecksHistory(m: Manifest, st: ServerState, allowMissing: bool, plan: SyncPlan, allowNext: bool)
    requires Planned(m, st, allowMissing, plan)
    ensures HistoricalProblem(m.issues, EndOf(m, plan, st).owned, allowNext).None?
        <==> NoHistoryMissing(m, OwnedAtStart(st))
  {
    hide ValidManifest, EndOf, HistoricalProblem, IssueSpec.IsHistorical;
    forall i | 0 <= i < |m.issues| && m.issues[i].IsHistorical()
      ensures var key, before, after := m.issues[i].key, OwnedAtStart(st), EndOf(m, plan, st).owned;
        && key in after
        && (key in before && before[key].isClosed ==> after[key].isClosed)
        && (key !in before ==> !after[key].isClosed)
    {
      HistoryAtEndOfRun(m, st, allowMissing, plan, i);
    }
    HistoryDecides(m, OwnedAtStart(st), EndOf(m, plan, st).owned, allowMissing, allowNext);
  }

  lemma NothingLeftToChange(m: Manifest, st: ServerState, allowMissing: bool, plan: SyncPlan)
    requires Planned(m, st, allowMissing, plan) && NoHistoryMissing(m, OwnedAtStart(st))
    ensures var done := EndOf(m, plan, st);
      && LabelChanges(m.labels, done.st.labels) == []
      && MilestoneChanges(m.milestones, done.st.milestones) == []
      && IssueChanges(m.issues, m, done.owned) == []
  {
    hide ValidManifest, Handled, IssueChangeOf, Consistent, FrameHolds, EndOf, ExtraOf, StartOf, MiddleOf,
         LabelSettled, MilestoneSettled;
    var start, middle, done := StartOf(plan, st), MiddleOf(plan, st), EndOf(m, plan, st);
    PassesHold(m, st, allowMissing, plan);
    CatalogPhaseSettles(m, plan, st);
    SettledNeedsNothing(m.labels, done.st.labels, m.milestones, done.st.milestones);
    HistoricalCheckIsExact(m.issues, OwnedAtStart(st), allowMissing);
    RunIsTwoPasses(m, st, allowMissing, plan);
    forall i | 0 <= i < |m.issues|
      ensures IssueChangeOf(m.issues[i], m, done.owned) == []
    {
      EndNeedsNoChange(m, start, middle, done, ExtraOf(m, plan, st), i);
    }
    NoChangesWhenNone(m.issues, m, done.owned);
  }

  /** Convergence, exactly: after a run, planning again succeeds with nothing to do if and
      only if no historical child was missing from the repository before. A plan that refuses
      missing history therefore always converges. The stale report does not change. */
  lemma RunConverges(m: Manifest, st: ServerState, allowMissing: bool, plan: SyncPlan, allowNext: bool)
    requires Planned(m, st, allowMissing, plan)
    ensures var again := Plan(m, EndOf(m, plan, st).st, allowNext);
      && (again.Success? && again.value.IsEmpty() <==> NoHistoryMissing(m, OwnedAtStart(st)))
      && (again.Success? ==> again.value.IsEmpty() && again.value.stale == plan.stale)
    ensures !allowMissing ==> NoHistoryMissing(m, OwnedAtStart(st))
  {
    hide ValidManifest, HistoricalProblem, LabelChanges, MilestoneChanges, IssueChanges, EndOf, PassOne, PassTwo,
         Scan, ServerState.WellFormed, StartOf, MiddleOf;
    ReplanChecksHistory(m, st, allowMissing, plan, allowNext);
    EndKeys(m, st, allowMissing, plan);
    if NoHistoryMissing(m, OwnedAtStart(st)) {
      NothingLeftToChange(m, st, allowMissing, plan);
    }
    HistoricalCheckIsExact(m.issues, OwnedAtStart(st), allowMissing);
  }

  /** The other side of it: a manifest with history, planned with missing history allowed and
      run on a repository without issues, leaves a repository that the next plan refuses. */
  lemma MissingHistoryIsRefused(m: Manifest, st: ServerState, i: nat, allowNext: bool) returns (plan: SyncPlan)
    requires ValidManifest(m) && st.WellFormed() && st.issues == []
    requires i < |m.issues| && m.issues[i].IsHistorical()
    ensures Planned(m, st, true, plan)
    ensures Plan(m, EndOf(m, plan, st).st, allowNext).Failure?
  {
    hide ValidManifest, Plan, ServerState.WellFormed, OwnerOf, EndOf;
    PlanSucceedsExactly(m, st, true);
    plan := Plan(m, st, true).value;
    RunConverges(m, st, true, plan, allowNext);
    assert OwnedAtStart(st) == map[];
    assert m.issues[i].key !in OwnedAtStart(st);
  }

  /** One epic and its one child, which is history. */
  function Sample(epic: string, child: string, milestone: string): Manifest {
    Manifest([], [MilestoneSpec(milestone, milestone, "")],
      [IssueSpec(epic, "", milestone, {}, [], "", [], "", "", [child], None, [], None),
       IssueSpec(child, "", milestone, {}, [], "", [], "", "", [], Some(epic), [], Some(Historical("")))])
  }

  lemma SampleIsValid(epic: string, child: string, milestone: string)
    requires IsEpicKey(epic) && IsChildKey(child) && Clean(epic) && Clean(child) && epic != child
    ensures ValidManifest(Sample(epic, child, milestone))
  {
    ShortIsClean("");
    hide Clean, IsEpicKey, IsChildKey;
    var m := Sample(epic, child, milestone);
    assert IsListable(m, m.issues[0], m.issues[0].children[0]) by {
      assert m.issues[1].key == child;
    }
    assert m.milestones[0].key == milestone;
  }

  lemma SampleKeys(epic: string, child: string)
    requires |epic| == 2 && epic[0] == 'E' && '1' <= epic[1] <= '9' && child == epic + "-I01"
    ensures IsEpicKey(epic) && IsChildKey(child) && Clean(epic) && Clean(child)
  {
    ShortIsClean(epic);
    ShortIsClean(child);
    assert child[..2] == epic;
  }

  /** There are such manifests, and so such runs: `E1` with the historical child `E1-I01`, or
      any other digit, on an empty repository. */
  lemma HistoryCanBeRefused(epic: string, milestone: string) returns (m: Manifest, plan: SyncPlan)
    requires |epic| == 2 && epic[0] == 'E' && '1' <= epic[1] <= '9'
    ensures m == Sample(epic, epic + "-I01", milestone)
    ensures var st := ServerState([], [], [], 1, 1);
      Planned(m, st, true, plan) && Plan(m, EndOf(m, plan, st).st, true).Failure?
  {
    var child, st := epic + "-I01", ServerState([], [], [], 1, 1);
    SampleKeys(epic, child);
    hide Clean, IsEpicKey, IsChildKey, ValidManifest, Plan, EndOf;
    SampleIsValid(epic, child, milestone);
    m := Sample(epic, child, milestone);
    plan := MissingHistoryIsRefused(m, st, 1, true);
  }

  lemma EndKeys(m: Manifest, st: ServerState, allowMissing: bool, plan: SyncPlan)
    requires Planned(m, st, allowMissing, plan)
    ensures var done := EndOf(m, plan, st);
      && Scan(st.issues) == Success(OwnedAtStart(st))
      && Scan(done.st.issues) == Success(done.owned)
      && done.owned.Keys == OwnedAtStart(st).Keys + m.Keys()
  {
    hide ValidManifest, Settled, FrameHolds, EndOf, ExtraOf, StartOf, MiddleOf, ServerState.WellFormed;
    RunIsTwoPasses(m, st, allowMissing, plan);
    PassesHold(m, st, allowMissing, plan);
    MiddleKeys(m, StartOf(plan, st), MiddleOf(plan, st));
  }

  lemma MiddleKeys(m: Manifest, start: Work, middle: Work)
    requires PassOne(m, |m.issues|, start, middle)
    ensures middle.owned.Keys == start.owned.Keys + m.Keys()
  {
    hide StateEvolves, Settled;
    assert KeysBefore(m, |m.issues|) == m.Keys();
    forall k
      ensures k in middle.owned.Keys <==> k in start.owned.Keys + m.Keys()
    {
      if k in m.Keys() {
        var i :| 0 <= i < |m.issues| && m.issues[i].key == k;
        assert Handled(m, start.owned, middle.owned, m.issues[i]);
      }
    }
  }

  // ----- Frame -----

  /** What a run leaves alone. Nothing disappears; a closed, unmanaged or stale issue is
      untouched; every issue keeps its number, its state, its owner and its foreign labels;
      no key ends with two issues; labels and milestones outside the catalog are untouched. */
  lemma RunKeepsFrame(m: Manifest, st: ServerState, allowMissing: bool, plan: SyncPlan)
    requires Planned(m, st, allowMissing, plan)
    ensures var done := EndOf(m, plan, st).st;
      && |st.issues| <= |done.issues|
      && NoneShared(done.issues)
      && (forall i | 0 <= i < |st.issues| ::
            var before, after := st.issues[i], done.issues[i];
            && after.number == before.number && after.isClosed == before.isClosed
            && OwnerOf(after.body) == OwnerOf(before.body)
            && KeptLabels(before.labels, m) <= after.labels
            && (before.isClosed || !OwnerOf(before.body).Managed? || OwnerOf(before.body).key !in m.Keys()
                ==> after == before))
      && LabelsKept(m.LabelNames(), st.labels, done.labels)
      && MilestonesKept(Titles(m), st.milestones, done.milestones)
  {
    hide ValidManifest, OwnerOf, Settled, Handled, EndOf, ExtraOf, StartOf, MiddleOf, OwnedEvolves,
         LabelsKept, MilestonesKept, NoneShared, KeptLabels, LabelsOf, Preserved, Scan, Manifest.Keys,
         Consistent, StateEvolves, PassOne, Plan, ServerState.WellFormed;
    var done := EndOf(m, plan, st);
    RunFrame(m, st, allowMissing, plan);
    EndKeys(m, st, allowMissing, plan);
    EndCatalog(m, st, allowMissing, plan);
    MalformedStopsScan(done.st.issues);
    ScanIsExact(done.st.issues);
    forall i | 0 <= i < |st.issues|
      ensures var before, after := st.issues[i], done.st.issues[i];
        && after.number == before.number && after.isClosed == before.isClosed
        && OwnerOf(after.body) == OwnerOf(before.body)
        && KeptLabels(before.labels, m) <= after.labels
        && (before.isClosed || !OwnerOf(before.body).Managed? || OwnerOf(before.body).key !in m.Keys()
            ==> after == before)
    {
      PreservedMeans(m, st.issues[i], done.st.issues[i]);
    }
  }

  lemma PreservedMeans(m: Manifest, before: Issue, after: Issue)
    requires Preserved(m, before, after)
    ensures after.number == before.number && after.isClosed == before.isClosed
    ensures OwnerOf(after.body) == OwnerOf(before.body)
    ensures KeptLabels(before.labels, m) <= after.labels
    ensures before.isClosed || !OwnerOf(before.body).Managed? || OwnerOf(before.body).key !in m.Keys()
      ==> after == before
  {
    hide OwnerOf;
  }

  lemma EndCatalog(m: Manifest, st: ServerState, allowMissing: bool, plan: SyncPlan)
    requires Planned(m, st, allowMissing, plan)
    ensures var done := EndOf(m, plan, st).st;
      && LabelsKept(m.LabelNames(), st.labels, done.labels)
      && MilestonesKept(Titles(m), st.milestones, done.milestones)
  {
    hide ValidManifest, FrameHolds, Settled, Handled, EndOf, ExtraOf, StartOf, MiddleOf, OwnedEvolves, Consistent,
         LabelsKept, MilestonesKept;
    PassesHold(m, st, allowMissing, plan);
    CatalogPhaseKeeps(m, plan, st);
  }

  lemma RunFrame(m: Manifest, st: ServerState, allowMissing: bool, plan: SyncPlan)
    requires Planned(m, st, allowMissing, plan)
    ensures FrameHolds(m, st.issues, EndOf(m, plan, st).st.issues)
  {
    hide ValidManifest, FrameHolds, Settled, Handled, EndOf, ExtraOf, StartOf, MiddleOf, OwnedEvolves, Consistent;
    PassesHold(m, st, allowMissing, plan);
    CatalogPhaseKeeps(m, plan, st);
    FrameIsTransitive(m, st.issues, MiddleOf(plan, st).st.issues, EndOf(m, plan, st).st.issues);
  }

  // ----- What the repository holds at the end -----

  /** The issue a record that is not missing history ends with: the closed one it had, or an open one with
      the manifest's title and milestone, the body rendered with every number of the final
      repository, and exactly the manifest's labels plus the foreign labels it started with. */
  lemma EndMatchesManifest(m: Manifest, st: ServerState, allowMissing: bool, plan: SyncPlan, i: nat)
    requires Planned(m, st, allowMissing, plan)
    requires i < |m.issues| && (m.issues[i].IsHistorical() ==> m.issues[i].key in OwnedAtStart(st))
    ensures var issue, before, done := m.issues[i], OwnedAtStart(st), EndOf(m, plan, st);
      && issue.key in done.owned
      && done.owned[issue.key] in done.st.issues
      && var record := done.owned[issue.key];
         if issue.key in before && before[issue.key].isClosed then record == before[issue.key]
         else
           && !record.isClosed
           && record.title == issue.title
           && record.body == Render(issue, m, NumbersOf(done.owned))
           && record.milestone == Some(MilestoneTitle(m.milestones, issue.milestone))
           && record.labels == issue.labels
                + (if issue.key in before then KeptLabels(before[issue.key].labels, m) else {})
  {
    hide ValidManifest, OwnerOf, EndOf, ExtraOf, StartOf, MiddleOf, Render, IsKept, FrameHolds, Plan,
         CatalogIsPlanned, ServerState.WellFormed, Settled, Scan, LabelsOf, PassOne, PassTwo, OwnedAtStart,
         AfterChanges, AfterRelink, HistoricalProblem, MilestoneTitle;
    var issue, start, middle, done := m.issues[i], StartOf(plan, st), MiddleOf(plan, st), EndOf(m, plan, st);
    RunIsTwoPasses(m, st, allowMissing, plan);
    PassesHold(m, st, allowMissing, plan);
    HistoryIsInOrder(m, st, allowMissing, plan, i);
    EndSettled(m, start, middle, done, ExtraOf(m, plan, st), i);
    RunFrame(m, st, allowMissing, plan);
    RecordFollows(m, st.issues, start.owned, done.st.issues, done.owned, issue.key);
    if !(issue.key in start.owned && start.owned[issue.key].isClosed) {
      EndRecord(m, issue, start.owned, done.owned);
    }
  }

  lemma HistoryIsInOrder(m: Manifest, st: ServerState, allowMissing: bool, plan: SyncPlan, i: nat)
    requires Planned(m, st, allowMissing, plan) && i < |m.issues|
    requires m.issues[i].IsHistorical() ==> m.issues[i].key in OwnedAtStart(st)
    ensures m.issues[i].IsHistorical() ==> OwnedAtStart(st)[m.issues[i].key].isClosed
  {
    hide ValidManifest, ServerState.WellFormed, Scan, LabelChanges, MilestoneChanges, IssueChanges, HistoricalProblem;
    HistoricalCheckIsExact(m.issues, OwnedAtStart(st), allowMissing);
  }

  lemma EndSettled(m: Manifest, start: Work, middle: Work, done: Work, extra: nat, i: nat)
    requires PassOne(m, |m.issues|, start, middle)
    requires PassTwo(m, |m.issues|, NumbersOf(middle.owned), middle, done, extra)
    requires i < |m.issues|
    requires m.issues[i].IsHistorical() ==>
      m.issues[i].key in start.owned && start.owned[m.issues[i].key].isClosed
    ensures Scan(done.st.issues) == Success(done.owned)
    ensures var key := m.issues[i].key;
      && key in done.owned
      && (!(key in start.owned && start.owned[key].isClosed) ==>
            !done.owned[key].isClosed && Settled(done.owned[key], m.issues[i], m, NumbersOf(done.owned)))
  {
    hide Settled, FrameHolds, Scan;
    var key := m.issues[i].key;
    assert Handled(m, start.owned, middle.owned, m.issues[i]);
    assert NumbersOf(done.owned) == NumbersOf(middle.owned);
  }

  /** The issue a key ends with is the preserved one it started with, or a new one. */
  lemma RecordFollows(m: Manifest, before: seq<Issue>, ownedBefore: Owned,
                      after: seq<Issue>, ownedAfter: Owned, key: string)
    requires FrameHolds(m, before, after)
    requires Scan(before) == Success(ownedBefore) && Scan(after) == Success(ownedAfter)
    requires key in ownedAfter
    ensures ownedAfter[key] in after
    ensures if key in ownedBefore then Preserved(m, ownedBefore[key], ownedAfter[key])
            else ownedAfter[key].labels <= LabelsOf(m, key)
    ensures key in ownedBefore ==> OwnerOf(ownedBefore[key].body) == Managed(key)
  {
    hide OwnerOf, LabelsOf, Scan, KeptLabels, Manifest.Keys;
    ScanMaps(before);
    ScanMaps(after);
    if key in ownedBefore {
      var q :| 0 <= q < |before| && before[q] == ownedBefore[key];
      assert Preserved(m, before[q], after[q]);
      assert OwnerOf(after[q].body) == Managed(key);
    } else {
      forall q | 0 <= q < |before|
        ensures OwnerOf(after[q].body) != Managed(key)
      {
        assert Preserved(m, before[q], after[q]);
      }
      var p :| 0 <= p < |after| && after[p] == ownedAfter[key];
      assert p >= |before|;
    }
  }

  lemma LabelsAreExact(labels: set<string>, before: set<string>, after: set<string>, m: Manifest)
    requires after == labels + KeptLabels(after, m)
    requires KeptLabels(before, m) <= after <= before + labels
    ensures after == labels + KeptLabels(before, m)
  {
    hide IsKept;
  }

  lemma EndRecord(m: Manifest, issue: IssueSpec, before: Owned, after: Owned)
    requires ValidManifest(m) && issue in m.issues && issue.key in after
    requires Settled(after[issue.key], issue, m, NumbersOf(after))
    requires if issue.key in before then
        Preserved(m, before[issue.key], after[issue.key])
        && OwnerOf(before[issue.key].body) == Managed(issue.key)
      else after[issue.key].labels <= LabelsOf(m, issue.key)
    ensures var record := after[issue.key];
      && record.title == issue.title
      && record.body == Render(issue, m, NumbersOf(after))
      && record.milestone == Some(MilestoneTitle(m.milestones, issue.milestone))
      && record.labels == issue.labels
           + (if issue.key in before then KeptLabels(before[issue.key].labels, m) else {})
  {
    hide OwnerOf, LabelsOf, Render, IsKept, Manifest.Keys, ValidManifest, MilestoneTitle;
    var record := after[issue.key];
    CatalogOwnsBody(m, issue, NumbersOf(after));
    if issue.key in before {
      LabelsAreExact(issue.labels, before[issue.key].labels, record.labels, m);
    }
  }

  // ----- Economy -----

  /** The records whose links a run can only fill in after it created something. */
  predicate AwaitsLinks(m: Manifest, issue: IssueSpec, owned: Owned) {
    && !issue.IsHistorical()
    && !(issue.key in owned && owned[issue.key].isClosed)
    && issue.Mentions() * (m.Keys() - owned.Keys) != {}
  }

  function LinkWrites(m: Manifest, n: nat, owned: Owned): nat
    requires n <= |m.issues|
  {
    if n == 0 then 0
    else LinkWrites(m, n - 1, owned) + if AwaitsLinks(m, m.issues[n - 1], owned) then 1 else 0
  }

  /** The second pass rewrites a record exactly when it mentions an issue the first pass
      created. */
  lemma RelinkIsForNewLinks(m: Manifest, start: Work, middle: Work, i: nat)
    requires i < |m.issues| && PassOne(m, |m.issues|, start, middle)
    ensures |RelinkOf(m.issues[i], m, NumbersOf(middle.owned), middle)|
         == if AwaitsLinks(m, m.issues[i], start.owned) then 1 else 0
  {
    hide StateEvolves, Render;
    var issue := m.issues[i];
    var early, late := NumbersOf(start.owned), NumbersOf(middle.owned);
    MiddleKeys(m, start, middle);
    assert Handled(m, start.owned, middle.owned, issue);
    assert Extends(early, late);
    if issue.Mentions() * (m.Keys() - start.owned.Keys) != {} {
      var k :| k in issue.Mentions() * (m.Keys() - start.owned.Keys);
      RenderGrows(issue, m, early, late, k);
    } else {
      forall k | k in issue.Mentions()
        ensures Reference(k, early) == Reference(k, late)
      {
        assert k !in issue.Mentions() * (m.Keys() - start.owned.Keys);
      }
      RenderIgnoresOthers(issue, m, early, late);
    }
  }

  lemma {:induction false} RelinksAreForNewLinks(m: Manifest, start: Work, middle: Work, n: nat)
    requires n <= |m.issues| && PassOne(m, |m.issues|, start, middle)
    ensures RelinkCount(m, n, NumbersOf(middle.owned), middle) == LinkWrites(m, n, start.owned)
  {
    hide PassOne, AwaitsLinks, RelinkOf;
    if n > 0 {
      RelinksAreForNewLinks(m, start, middle, n - 1);
      RelinkIsForNewLinks(m, start, middle, n - 1);
    }
  }

  lemma {:induction false} NoCreatesNoLinks(m: Manifest, n: nat, owned: Owned)
    requires n <= |m.issues| && m.Keys() <= owned.Keys
    ensures LinkWrites(m, n, owned) == 0
  {
    if n > 0 {
      NoCreatesNoLinks(m, n - 1, owned);
      assert m.Keys() - owned.Keys == {};
    }
  }

  /** Write economy, exactly: a run makes one write for each planned change and one more for
      each open record that mentions a newly created issue; with nothing to create it makes
      the planned writes and no other. */
  lemma RunIsEconomical(m: Manifest, st: ServerState, allowMissing: bool, plan: SyncPlan)
    requires Planned(m, st, allowMissing, plan)
    ensures WritesOf(m, plan, st) == plan.Size() + LinkWrites(m, |m.issues|, OwnedAtStart(st))
    ensures (forall c | c in plan.issues :: c.UpdateIssue?) ==> WritesOf(m, plan, st) == plan.Size()
  {
    hide ValidManifest, PassOne, EndOf, ExtraOf, StartOf, MiddleOf, StateEvolves, OwnedEvolves, LinkWrites,
         Plan, Scan, ServerState.WellFormed, CatalogIsPlanned, AfterChanges, AfterRelink, OwnedAtStart,
         HistoricalProblem;
    var start, middle := StartOf(plan, st), MiddleOf(plan, st);
    RunIsTwoPasses(m, st, allowMissing, plan);
    PassesHold(m, st, allowMissing, plan);
    RelinksAreForNewLinks(m, start, middle, |m.issues|);
    if forall c | c in plan.issues :: c.UpdateIssue? {
      OnlyUpdatesNoCreates(m, start.owned);
      NoCreatesNoLinks(m, |m.issues|, start.owned);
    }
  }

  lemma OnlyUpdatesNoCreates(m: Manifest, owned: Owned)
    requires forall c | c in IssueChanges(m.issues, m, owned) :: c.UpdateIssue?
    ensures m.Keys() <= owned.Keys
  {
    hide IssueChanges;
    forall key | key in m.Keys()
      ensures key in owned
    {
      var i :| 0 <= i < |m.issues| && m.issues[i].key == key;
      if key !in owned {
        CreatesAreListed(m.issues, m, owned, i);
      }
    }
  }

  lemma {:induction false} CreatesAreListed(issues: seq<IssueSpec>, m: Manifest, owned: Owned, i: nat)
    requires i < |issues| && issues[i].key !in owned
    ensures exists c :: c in IssueChanges(issues, m, owned) && c.CreateIssue?
  {
    hide DesiredOf;
    var n := |issues| - 1;
    var front, last := IssueChanges(issues[..n], m, owned), IssueChangeOf(issues[n], m, owned);
    if i < n {
      CreatesAreListed(issues[..n], m, owned, i);
      var c :| c in front && c.CreateIssue?;
      assert c in front + last;
    } else {
      assert (front + last)[|front|] == last[0];
      assert last[0] in IssueChanges(issues, m, owned) && last[0].CreateIssue?;
    }
  }
}
