/** A run that is cut off between two writes, and the run after it. */
module Interruption {
  import opened Wrappers
  import opened Text
  import opened Markers
  import opened Catalog
  import opened Rendering
  import opened GitHub
  import opened Planning
  import opened Applying
  import opened CatalogPhase
  import opened IssuePhase
  import opened Convergence

  /** How far a run came: so many label, milestone or issue changes of the plan, or so many
      records of the re-rendering pass. */
  datatype Point = InLabels(n: nat) | InMilestones(n: nat) | InIssues(n: nat) | InLinks(n: nat)

  predicate IsPoint(point: Point, m: Manifest, plan: SyncPlan) {
    match point
    case InLabels(n) => n <= |plan.labels|
    case InMilestones(n) => n <= |plan.milestones|
    case InIssues(n) => n <= |plan.issues|
    case InLinks(n) => n <= |m.issues|
  }

  /** The repository a run leaves when it stops there. */
  function CutOff(m: Manifest, plan: SyncPlan, st: ServerState, point: Point): ServerState
    requires IsPoint(point, m, plan)
  {
    match point
    case InLabels(n) => ApplyLabels(plan.labels[..n], st)
    case InMilestones(n) => ApplyMilestones(plan.milestones[..n], ApplyLabels(plan.labels, st))
    case InIssues(n) =>
      var start := StartOf(plan, st);
      ApplyIssues(plan.issues[..n], MilestoneNumbers(start.st.milestones), start).st
    case InLinks(n) =>
      var middle := MiddleOf(plan, st);
      AfterRelink(m, n, NumbersOf(middle.owned), middle).0.st
  }

  // ----- What every point keeps -----

  lemma {:induction false} LabelWritesKeep(changes: seq<LabelChange>, st: ServerState)
    ensures var done := ApplyLabels(changes, st);
      && (done.WellFormed() <==> st.WellFormed())
      && done.issues == st.issues
  {
    if changes != [] {
      LabelWritesKeep(changes[..|changes| - 1], st);
    }
  }

  lemma {:induction false} MilestoneWritesKeep(changes: seq<MilestoneChange>, st: ServerState)
    requires st.WellFormed()
    ensures var done := ApplyMilestones(changes, st);
      && done.WellFormed()
      && done.issues == st.issues
  {
    if changes != [] {
      MilestoneWritesKeep(changes[..|changes| - 1], st);
    }
  }

  /** Every prefix of the issue changes is the changes of a prefix of the records. */
  lemma {:induction false} PrefixOfRecords(m: Manifest, owned: Owned, n: nat) returns (k: nat)
    requires n <= |IssueChanges(m.issues, m, owned)|
    ensures k <= |m.issues| && IssueChanges(m.issues[..k], m, owned) == IssueChanges(m.issues, m, owned)[..n]
  {
    hide IssueChangeOf;
    assert m.issues[..|m.issues|] == m.issues;
    k := PrefixOfFirst(m, owned, |m.issues|, n);
  }

  lemma {:induction false} PrefixOfFirst(m: Manifest, owned: Owned, i: nat, n: nat) returns (k: nat)
    requires i <= |m.issues| && n <= |IssueChanges(m.issues[..i], m, owned)|
    ensures k <= i && IssueChanges(m.issues[..k], m, owned) == IssueChanges(m.issues[..i], m, owned)[..n]
  {
    hide IssueChangeOf;
    k := i;
    if n < |IssueChanges(m.issues[..i], m, owned)| {
      assert m.issues[..i][..i - 1] == m.issues[..i - 1];
      IssueChangeIsOne(m.issues[i - 1], m, owned);
      k := PrefixOfFirst(m, owned, i - 1, n);
    }
  }

  /** The issues of the repository are scanned without a complaint, and no closed issue
      was touched. */
  ghost predicate IsTidy(m: Manifest, before: ServerState, after: ServerState, owned: Owned) {
    && after.WellFormed()
    && Scan(after.issues) == Success(owned)
    && FrameHolds(m, before.issues, after.issues)
  }

  ghost predicate IsTidyAt(m: Manifest, plan: SyncPlan, st: ServerState, point: Point, owned: Owned) {
    IsPoint(point, m, plan) && IsTidy(m, st, CutOff(m, plan, st, point), owned)
  }

  lemma EveryPointIsTidy(m: Manifest, st: ServerState, allowMissing: bool, plan: SyncPlan, point: Point)
    returns (owned: Owned)
    requires Planned(m, st, allowMissing, plan) && IsPoint(point, m, plan)
    ensures IsTidyAt(m, plan, st, point, owned)
    ensures KeepsOwners(OwnedAtStart(st), owned)
  {
    hide ValidManifest, FrameHolds, Scan, Settled, Handled, Resolves, ServerState.WellFormed, LabelChanges,
         MilestoneChanges, IssueChanges, StartOf, MiddleOf, EndOf, ExtraOf;
    owned := OwnedAtStart(st);
    var start, middle := StartOf(plan, st), MiddleOf(plan, st);
    NothingFrames(m, st.issues);
    match point
    case InLabels(n) =>
      LabelWritesKeep(plan.labels[..n], st);
    case InMilestones(n) =>
      LabelWritesKeep(plan.labels, st);
      MilestoneWritesKeep(plan.milestones[..n], ApplyLabels(plan.labels, st));
    case InIssues(n) =>
      owned := IssuePointIsTidy(m, st, allowMissing, plan, n);
    case InLinks(n) =>
      owned := LinkPointIsTidy(m, st, allowMissing, plan, n);
  }

  lemma NothingFrames(m: Manifest, issues: seq<Issue>)
    ensures FrameHolds(m, issues, issues)
  {
    hide OwnerOf;
  }

  /** No issue that had an owner lost it, or changed between open and closed. */
  ghost predicate KeepsOwners(before: Owned, after: Owned) {
    forall k | k in before :: k in after && after[k].isClosed == before[k].isClosed
  }

  lemma PassIsTidy(m: Manifest, st: ServerState, start: Work, cut: Work, visited: set<string>)
    requires StateEvolves(m, start, cut) && OwnedEvolves(start.owned, cut.owned, visited)
    requires FrameHolds(m, st.issues, start.st.issues)
    ensures IsTidy(m, st, cut.st, cut.owned) && KeepsOwners(start.owned, cut.owned)
  {
    hide FrameHolds, Scan, ServerState.WellFormed;
    FrameIsTransitive(m, st.issues, start.st.issues, cut.st.issues);
  }

  /** What the passes start from. */
  lemma PassesStart(m: Manifest, st: ServerState, allowMissing: bool, plan: SyncPlan)
    requires Planned(m, st, allowMissing, plan)
    ensures var start, middle := StartOf(plan, st), MiddleOf(plan, st);
      && start.owned == OwnedAtStart(st)
      && plan.issues == IssueChanges(m.issues, m, start.owned)
      && Consistent(start) && Consistent(middle)
      && Resolves(m, start.st.milestones) && Resolves(m, middle.st.milestones)
      && FrameHolds(m, st.issues, start.st.issues) && FrameHolds(m, st.issues, middle.st.issues)
      && KeepsOwners(start.owned, middle.owned)
  {
    hide ValidManifest, FrameHolds, Scan, Handled, Resolves, ServerState.WellFormed, StartOf, MiddleOf,
         OwnedAtStart, Planning.Plan, HistoricalProblem, PassTwo, AfterChanges, AfterRelink, EndOf, ExtraOf;
    var start, middle := StartOf(plan, st), MiddleOf(plan, st);
    RunIsTwoPasses(m, st, allowMissing, plan);
    PassesHold(m, st, allowMissing, plan);
    CatalogPhaseKeeps(m, plan, st);
    CatalogPhaseSettles(m, plan, st);
    NothingFrames(m, st.issues);
  }

  lemma IssuePointIsTidy(m: Manifest, st: ServerState, allowMissing: bool, plan: SyncPlan, n: nat)
    returns (owned: Owned)
    requires Planned(m, st, allowMissing, plan) && n <= |plan.issues|
    ensures IsTidyAt(m, plan, st, InIssues(n), owned) && KeepsOwners(OwnedAtStart(st), owned)
  {
    hide ValidManifest, FrameHolds, Resolves, Consistent, StartOf, MiddleOf, OwnedAtStart, Planned, IsTidy,
         AfterChanges, KeepsOwners, CutOff, IssueChanges;
    var start := StartOf(plan, st);
    PassesStart(m, st, allowMissing, plan);
    PlannedIsValid(m, st, allowMissing, plan);
    var k := PrefixOfRecords(m, start.owned, n);
    IssueCut(m, plan, st, n, k);
    var cut := ChangesAreTidy(m, st, start, k);
    owned := cut.owned;
  }

  lemma IssueCut(m: Manifest, plan: SyncPlan, st: ServerState, n: nat, k: nat)
    requires n <= |plan.issues| && k <= |m.issues|
    requires IssueChanges(m.issues[..k], m, StartOf(plan, st).owned) == plan.issues[..n]
    ensures CutOff(m, plan, st, InIssues(n)) == AfterChanges(m, k, StartOf(plan, st)).st
  {
    hide StartOf, IssueChanges, ApplyIssues, MilestoneNumbers;
  }

  lemma ChangesAreTidy(m: Manifest, st: ServerState, start: Work, k: nat) returns (cut: Work)
    requires ValidManifest(m) && Consistent(start) && Resolves(m, start.st.milestones)
    requires FrameHolds(m, st.issues, start.st.issues) && k <= |m.issues|
    ensures cut == AfterChanges(m, k, start)
    ensures IsTidy(m, st, cut.st, cut.owned) && KeepsOwners(start.owned, cut.owned)
  {
    hide ValidManifest, FrameHolds, Resolves, Consistent, IsTidy, StateEvolves, OwnedEvolves, AfterChanges, Handled,
         KeepsOwners;
    PassOneHolds(m, k, start);
    cut := AfterChanges(m, k, start);
    PassIsTidy(m, st, start, cut, KeysBefore(m, k));
  }

  lemma PlannedIsValid(m: Manifest, st: ServerState, allowMissing: bool, plan: SyncPlan)
    requires Planned(m, st, allowMissing, plan)
    ensures ValidManifest(m)
  {
  }

  lemma LinkPointIsTidy(m: Manifest, st: ServerState, allowMissing: bool, plan: SyncPlan, n: nat)
    returns (owned: Owned)
    requires Planned(m, st, allowMissing, plan) && n <= |m.issues|
    ensures IsTidyAt(m, plan, st, InLinks(n), owned) && KeepsOwners(OwnedAtStart(st), owned)
  {
    hide ValidManifest, FrameHolds, Resolves, Consistent, StartOf, MiddleOf, OwnedAtStart, Planned, IsTidy,
         AfterRelink, CutOff;
    PassesStart(m, st, allowMissing, plan);
    PlannedIsValid(m, st, allowMissing, plan);
    LinkCut(m, plan, st, n);
    var cut := RelinkIsTidy(m, st, MiddleOf(plan, st), n);
    owned := cut.owned;
  }

  lemma LinkCut(m: Manifest, plan: SyncPlan, st: ServerState, n: nat)
    requires n <= |m.issues|
    ensures CutOff(m, plan, st, InLinks(n))
         == AfterRelink(m, n, NumbersOf(MiddleOf(plan, st).owned), MiddleOf(plan, st)).0.st
  {
    hide MiddleOf, AfterRelink;
  }

  lemma RelinkIsTidy(m: Manifest, st: ServerState, middle: Work, n: nat) returns (cut: Work)
    requires ValidManifest(m) && Consistent(middle) && Resolves(m, middle.st.milestones)
    requires FrameHolds(m, st.issues, middle.st.issues) && n <= |m.issues|
    ensures cut == AfterRelink(m, n, NumbersOf(middle.owned), middle).0
    ensures IsTidy(m, st, cut.st, cut.owned) && KeepsOwners(middle.owned, cut.owned)
  {
    hide ValidManifest, FrameHolds, Resolves, Consistent, IsTidy, StateEvolves, OwnedEvolves, AfterRelink, Settled,
         RelinkCount, NumbersOf, KeepsOwners;
    PassTwoHolds(m, n, NumbersOf(middle.owned), middle);
    cut := AfterRelink(m, n, NumbersOf(middle.owned), middle).0;
    PassIsTidy(m, st, middle, cut, KeysBefore(m, n));
  }

  /** Stopped after its last record, a run was not cut off at all. */
  lemma LastPointIsTheEnd(m: Manifest, st: ServerState, allowMissing: bool, plan: SyncPlan)
    requires Planned(m, st, allowMissing, plan)
    ensures CutOff(m, plan, st, InLinks(|m.issues|)) == EndOf(m, plan, st).st
  {
    hide ValidManifest, StartOf, MiddleOf, OwnedAtStart, AfterRelink, PassOne, PassTwo, EndOf, Planned, CutOff;
    RunIsTwoPasses(m, st, allowMissing, plan);
    PassesHold(m, st, allowMissing, plan);
    PassOneFacts(m, StartOf(plan, st), MiddleOf(plan, st));
    LinkCut(m, plan, st, |m.issues|);
  }

  // ----- Starting over -----

  /** Wherever a run stops, the next plan is refused over history alone, and with no historical
      child missing at the start it is not refused: running it leaves nothing to do, as the run
      that was cut off would have. Nothing of what a run leaves alone was touched meanwhile. */
  lemma CutRunCanBeRepeated(m: Manifest, st: ServerState, allowMissing: bool, plan: SyncPlan, point: Point,
                            allowNext: bool)
    requires Planned(m, st, allowMissing, plan) && IsPoint(point, m, plan)
    ensures var cut := CutOff(m, plan, st, point);
      && FrameHolds(m, st.issues, cut.issues)
      && cut.WellFormed()
      && (Planning.Plan(m, cut, allowNext).Success? <==> HistoryAllows(m, cut.issues, allowNext))
      && (NoHistoryMissing(m, OwnedAtStart(st)) ==>
            && Planning.Plan(m, cut, allowNext).Success?
            && var again := Planning.Plan(m, cut, allowNext).value;
               && Planned(m, cut, allowNext, again)
               && var last := Planning.Plan(m, EndOf(m, again, cut).st, allowNext);
                  last.Success? && last.value.IsEmpty())
  {
    hide ValidManifest, FrameHolds, Scan, ServerState.WellFormed, EndOf, CutOff, IsPoint, LabelChanges,
         MilestoneChanges, IssueChanges, HistoricalProblem, OwnerOf, NoneMalformed, NoneShared, HistoryAllows;
    var cut := CutOff(m, plan, st, point);
    var owned := EveryPointIsTidy(m, st, allowMissing, plan, point);
    MalformedStopsScan(cut.issues);
    ScanIsExact(cut.issues);
    PlanSucceedsExactly(m, cut, allowNext);
    if NoHistoryMissing(m, OwnedAtStart(st)) {
      HistoricalCheckIsExact(m.issues, OwnedAtStart(st), allowMissing);
      HistoricalCheckIsExact(m.issues, owned, allowNext);
      RunConverges(m, cut, allowNext, Planning.Plan(m, cut, allowNext).value, allowNext);
    }
  }
}
