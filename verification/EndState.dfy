/** What a run leaves in the repository, read from the repository alone. */
module EndState {
  import opened Wrappers
  import opened Text
  import opened Markers
  import opened Catalog
  import opened Rendering
  import opened Reading
  import opened BodyReading
  import opened GitHub
  import opened Planning
  import opened Applying
  import opened CatalogPhase
  import opened IssuePhase
  import opened Convergence

  // ----- The catalog -----

  /** At the end of a run every label of the catalog is there with its colour and description,
      and every milestone is there, open, with its description. */
  lemma EndHoldsCatalog(m: Manifest, st: ServerState, allowMissing: bool, plan: SyncPlan)
    requires Planned(m, st, allowMissing, plan)
    ensures var done := EndOf(m, plan, st).st;
      && (forall spec <- m.labels ::
            var found := FindLabel(done.labels, spec.name);
            found.Some? && Upper(found.value.color) == spec.color && found.value.description == spec.description)
      && (forall spec <- m.milestones ::
            var found := FindMilestone(done.milestones, spec.title);
            found.Some? && found.value.isOpen && found.value.description == spec.description)
  {
    hide ValidManifest, EndOf, ServerState.WellFormed, Planning.Plan, FindLabel, FindMilestone, Upper;
    EndSettlesCatalog(m, st, allowMissing, plan);
  }

  lemma EndSettlesCatalog(m: Manifest, st: ServerState, allowMissing: bool, plan: SyncPlan)
    requires Planned(m, st, allowMissing, plan)
    ensures var done := EndOf(m, plan, st).st;
      && (forall i | 0 <= i < |m.labels| :: LabelSettled(m.labels[i], done.labels))
      && (forall i | 0 <= i < |m.milestones| :: MilestoneSettled(m.milestones[i], done.milestones))
  {
    hide ValidManifest, Handled, Consistent, FrameHolds, EndOf, ExtraOf, StartOf, MiddleOf, LabelSettled,
         MilestoneSettled;
    PassesHold(m, st, allowMissing, plan);
    CatalogPhaseSettles(m, plan, st);
  }

  // ----- One record -----

  /** The labels the synchronizer does not decide about: status labels, and labels that are not
      of the catalog and of none of its families. */
  predicate IsForeign(name: string, m: Manifest) {
    || "status/" <= name
    || ((forall spec <- m.labels :: spec.name != name)
        && !("type/" <= name) && !("area/" <= name) && !("gate/" <= name))
  }

  /** Every key with the number of the issue that has its marker. */
  ghost predicate AreTheNumbers(numbers: Numbers, issues: seq<Issue>) {
    && (forall k | k in numbers :: exists r <- issues :: IsOwnedBy(r, k) && r.number == numbers[k])
    && (forall r, k | r in issues && IsOwnedBy(r, k) :: k in numbers && numbers[k] == r.number)
  }

  /** An open record's issue at the end: its body reads back as the record, with a link to every
      issue it mentions by the number that issue has; its milestone is the one of the record; its
      labels are the record's and the foreign ones its issue had before. */
  lemma EndReadsBack(m: Manifest, st: ServerState, allowMissing: bool, plan: SyncPlan, i: nat)
    returns (record: Issue, numbers: Numbers, lines: seq<string>)
    requires Planned(m, st, allowMissing, plan)
    requires i < |m.issues| && !m.issues[i].IsHistorical()
    requires forall r <- st.issues | IsOwnedBy(r, m.issues[i].key) :: !r.isClosed
    ensures var issue, done := m.issues[i], EndOf(m, plan, st).st;
      && record in done.issues && IsOwnedBy(record, issue.key) && !record.isClosed
      && record.title == issue.title
      && record.body == Join(lines, "\n") + "\n"
      && Reads(lines, issue, m, numbers)
      && AreTheNumbers(numbers, done.issues)
      && (forall spec <- m.milestones :: spec.key == issue.milestone ==> record.milestone == Some(spec.title))
      && forall name :: name in record.labels <==>
           || name in issue.labels
           || (IsForeign(name, m) && exists r <- st.issues :: IsOwnedBy(r, issue.key) && name in r.labels)
  {
    hide ValidManifest, EndOf, ServerState.WellFormed, Planning.Plan, OwnerOf, Scan, Render, Reads, IsForeign, IsKept,
         AreTheNumbers, MilestoneTitle, OwnedAtStart, IsOwnedBy;
    var issue, before, done := m.issues[i], OwnedAtStart(st), EndOf(m, plan, st);
    EndKeys(m, st, allowMissing, plan);
    OwnedIsFound(st.issues, before, issue.key);
    EndMatchesManifest(m, st, allowMissing, plan, i);
    record, numbers := done.owned[issue.key], NumbersOf(done.owned);
    lines := BodyReadsBack(issue, m, numbers);
    OwnedIsFound(done.st.issues, done.owned, issue.key);
    ScanGivesNumbers(done.st.issues, done.owned);
    TitleOfMilestone(m, issue.milestone);
    forall name
      ensures IsKept(name, m) <==> IsForeign(name, m)
    {
      KeptIsForeign(name, m);
    }
  }

  lemma OwnedIsFound(issues: seq<Issue>, owned: Owned, key: string)
    requires Scan(issues) == Success(owned)
    ensures key in owned ==> owned[key] in issues && IsOwnedBy(owned[key], key)
    ensures forall r <- issues | IsOwnedBy(r, key) :: key in owned && r == owned[key]
  {
    hide OwnerOf, Scan;
    ScanMaps(issues);
    forall r | r in issues && IsOwnedBy(r, key)
      ensures key in owned && r == owned[key]
    {
      var j :| 0 <= j < |issues| && issues[j] == r;
      assert OwnerOf(issues[j].body).Managed?;
    }
  }

  lemma ScanGivesNumbers(issues: seq<Issue>, owned: Owned)
    requires Scan(issues) == Success(owned)
    ensures AreTheNumbers(NumbersOf(owned), issues)
  {
    hide Scan, IsOwnedBy;
    forall k
      ensures k in owned ==> owned[k] in issues && IsOwnedBy(owned[k], k)
      ensures forall r <- issues | IsOwnedBy(r, k) :: k in owned && r == owned[k]
    {
      OwnedIsFound(issues, owned, k);
    }
  }

  lemma TitleOfMilestone(m: Manifest, key: string)
    requires ValidManifest(m)
    ensures forall spec <- m.milestones :: spec.key == key ==> MilestoneTitle(m.milestones, key) == spec.title
  {
    hide MilestoneTitle;
    forall spec | spec in m.milestones && spec.key == key
      ensures MilestoneTitle(m.milestones, key) == spec.title
    {
      var j :| 0 <= j < |m.milestones| && m.milestones[j] == spec;
      MilestoneTitleIsTheTitle(m.milestones, j);
    }
  }

  lemma KeptIsForeign(name: string, m: Manifest)
    ensures IsKept(name, m) <==> IsForeign(name, m)
  {
    assert name in m.LabelNames() <==> exists spec <- m.labels :: spec.name == name;
  }
}
