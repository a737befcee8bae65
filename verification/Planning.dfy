/** Comparing the catalog with the repository: the plan of writes that would bring the
    repository in line, built without writing anything. */
module Planning {
  import opened Wrappers
  import opened Text
  import opened Markers
  import opened Catalog
  import opened Rendering
  import opened GitHub

  type Owned = map<string, Issue>

  datatype Desired = Desired(title: string, body: string, labels: set<string>, milestoneTitle: string)

  datatype LabelChange = CreateLabel(spec: LabelSpec) | UpdateLabel(spec: LabelSpec)

  datatype MilestoneChange =
    | CreateMilestone(spec: MilestoneSpec)
    | UpdateMilestone(number: nat, spec: MilestoneSpec)

  datatype IssueChange =
    | CreateIssue(key: string, desired: Desired)
    | UpdateIssue(key: string, number: nat, desired: Desired)

  /** The change list, kept apart by resource, and the managed issues the catalog dropped. */
  datatype SyncPlan = SyncPlan(
    labels: seq<LabelChange>, milestones: seq<MilestoneChange>, issues: seq<IssueChange>,
    stale: set<string>)
  {
    function Size(): nat {
      |labels| + |milestones| + |issues|
    }

    predicate IsEmpty() {
      Size() == 0
    }
  }

  datatype PlanError =
    | InvalidMarker(number: nat)
    | DuplicateMarker(key: string, first: nat, second: nat)
    | HistoricalMissing(key: string)
    | HistoricalNotClosed(key: string)

  // ----- Who owns what -----

  /** Every managed issue by its key, or the first reason to refuse. */
  function Scan(issues: seq<Issue>): Result<Owned, PlanError> {
    if issues == [] then Success(map[])
    else
      var owned :- Scan(issues[..|issues| - 1]);
      var last := issues[|issues| - 1];
      match OwnerOf(last.body)
      case Unmanaged => Success(owned)
      case Malformed => Failure(InvalidMarker(last.number))
      case Managed(key) =>
        if key in owned then Failure(DuplicateMarker(key, owned[key].number, last.number))
        else Success(owned[key := last])
  }

  function NumbersOf(owned: Owned): Numbers {
    map key | key in owned :: owned[key].number
  }

  /** Closed history must still be there, and closed. */
  function HistoricalProblem(issues: seq<IssueSpec>, owned: Owned, allowMissing: bool)
    : Option<PlanError>
  {
    if issues == [] then None
    else
      match HistoricalProblem(issues[..|issues| - 1], owned, allowMissing)
      case Some(e) => Some(e)
      case None => HistoricalProblemOf(issues[|issues| - 1], owned, allowMissing)
  }

  function HistoricalProblemOf(issue: IssueSpec, owned: Owned, allowMissing: bool): Option<PlanError> {
    if !issue.IsHistorical() then None
    else if issue.key !in owned then
      if allowMissing then None else Some(HistoricalMissing(issue.key))
    else if !owned[issue.key].isClosed then Some(HistoricalNotClosed(issue.key))
    else None
  }

  // ----- Labels and milestones -----

  predicate LabelDiffers(existing: Label, spec: LabelSpec) {
    Upper(existing.color) != spec.color || existing.description != spec.description
  }

  function LabelChangeOf(spec: LabelSpec, current: seq<Label>): seq<LabelChange> {
    match FindLabel(current, spec.name)
    case None => [CreateLabel(spec)]
    case Some(existing) => if LabelDiffers(existing, spec) then [UpdateLabel(spec)] else []
  }

  function LabelChanges(specs: seq<LabelSpec>, current: seq<Label>): seq<LabelChange> {
    if specs == [] then []
    else LabelChanges(specs[..|specs| - 1], current) + LabelChangeOf(specs[|specs| - 1], current)
  }

  predicate MilestoneDiffers(existing: Milestone, spec: MilestoneSpec) {
    existing.description != spec.description || !existing.isOpen
  }

  function MilestoneChangeOf(spec: MilestoneSpec, current: seq<Milestone>): seq<MilestoneChange> {
    match FindMilestone(current, spec.title)
    case None => [CreateMilestone(spec)]
    case Some(existing) =>
      if MilestoneDiffers(existing, spec) then [UpdateMilestone(existing.number, spec)] else []
  }

  function MilestoneChanges(specs: seq<MilestoneSpec>, current: seq<Milestone>): seq<MilestoneChange> {
    if specs == [] then []
    else MilestoneChanges(specs[..|specs| - 1], current) + MilestoneChangeOf(specs[|specs| - 1], current)
  }

  // ----- Issues -----

  function MilestoneTitle(specs: seq<MilestoneSpec>, key: string): string {
    if specs == [] then ""  // a validated manifest knows every milestone it names
    else if specs[|specs| - 1].key == key then specs[|specs| - 1].title
    else MilestoneTitle(specs[..|specs| - 1], key)
  }

  predicate IsCatalogFamily(name: string) {
    "type/" <= name || "area/" <= name || "gate/" <= name
  }

  /** Labels the synchronizer leaves on an issue: status labels, and labels that are neither
      in the catalog nor in one of its families. */
  predicate IsKept(name: string, m: Manifest) {
    "status/" <= name || (name !in m.LabelNames() && !IsCatalogFamily(name))
  }

  function KeptLabels(names: set<string>, m: Manifest): set<string> {
    set name | name in names && IsKept(name, m)
  }

  function DesiredLabels(issue: IssueSpec, m: Manifest, existing: Option<Issue>): set<string> {
    issue.labels + (if existing.Some? then KeptLabels(existing.value.labels, m) else {})
  }

  function DesiredOf(issue: IssueSpec, m: Manifest, numbers: Numbers, existing: Option<Issue>): Desired {
    Desired(issue.title, Render(issue, m, numbers), DesiredLabels(issue, m, existing),
            MilestoneTitle(m.milestones, issue.milestone))
  }

  predicate IssueDiffers(existing: Issue, desired: Desired) {
    || existing.title != desired.title
    || existing.body != desired.body
    || existing.labels != desired.labels
    || existing.milestone != Some(desired.milestoneTitle)
  }

  function Lookup(owned: Owned, key: string): Option<Issue> {
    if key in owned then Some(owned[key]) else None
  }

  function IssueChangeOf(issue: IssueSpec, m: Manifest, owned: Owned): seq<IssueChange> {
    var desired := DesiredOf(issue, m, NumbersOf(owned), Lookup(owned, issue.key));
    if issue.key !in owned then [CreateIssue(issue.key, desired)]
    else if owned[issue.key].isClosed then []
    else if IssueDiffers(owned[issue.key], desired) then
      [UpdateIssue(issue.key, owned[issue.key].number, desired)]
    else []
  }

  function IssueChanges(issues: seq<IssueSpec>, m: Manifest, owned: Owned): seq<IssueChange> {
    if issues == [] then []
    else IssueChanges(issues[..|issues| - 1], m, owned) + IssueChangeOf(issues[|issues| - 1], m, owned)
  }

  // ----- The plan -----

  function Plan(m: Manifest, current: ServerState, allowMissing: bool): Result<SyncPlan, PlanError> {
    var owned :- Scan(current.issues);
    match HistoricalProblem(m.issues, owned, allowMissing)
    case Some(e) => Failure(e)
    case None =>
      Success(SyncPlan(
        LabelChanges(m.labels, current.labels),
        MilestoneChanges(m.milestones, current.milestones),
        IssueChanges(m.issues, m, owned),
        owned.Keys - m.Keys()))
  }

  /** `build_sync_plan`. */
  method BuildSyncPlan(m: Manifest, current: ServerState, allowMissing: bool)
    returns (r: Result<SyncPlan, PlanError>)
    ensures r == Plan(m, current, allowMissing)
  {
    hide OwnerOf, LabelChangeOf, MilestoneChangeOf, HistoricalProblemOf;
    var scan := ScanIssues(current.issues);
    if scan.Failure? {
      return Failure(scan.error);
    }
    var owned := scan.value;
    for i := 0 to |m.issues|
      invariant HistoricalProblem(m.issues[..i], owned, allowMissing).None?
    {
      HistoricalProblemGrows(m.issues, i, owned, allowMissing);
      var problem := HistoricalProblemOf(m.issues[i], owned, allowMissing);
      if problem.Some? {
        HistoricalProblemStays(m.issues, i + 1, owned, allowMissing);
        return Failure(problem.value);
      }
    }
    assert m.issues[..|m.issues|] == m.issues;

    var labels: seq<LabelChange> := [];
    for i := 0 to |m.labels|
      invariant labels == LabelChanges(m.labels[..i], current.labels)
    {
      assert m.labels[..i + 1][..i] == m.labels[..i];
      labels := labels + LabelChangeOf(m.labels[i], current.labels);
    }
    assert m.labels[..|m.labels|] == m.labels;

    var milestones: seq<MilestoneChange> := [];
    for i := 0 to |m.milestones|
      invariant milestones == MilestoneChanges(m.milestones[..i], current.milestones)
    {
      assert m.milestones[..i + 1][..i] == m.milestones[..i];
      milestones := milestones + MilestoneChangeOf(m.milestones[i], current.milestones);
    }
    assert m.milestones[..|m.milestones|] == m.milestones;

    var issues := PlanIssues(m, owned);
    r := Success(SyncPlan(labels, milestones, issues, owned.Keys - m.Keys()));
  }

  method ScanIssues(issues: seq<Issue>) returns (r: Result<Owned, PlanError>)
    ensures r == Scan(issues)
  {
    hide OwnerOf;
    var owned: Owned := map[];
    for i := 0 to |issues|
      invariant Scan(issues[..i]) == Success(owned)
    {
      assert issues[..i + 1][..i] == issues[..i];
      var item := issues[i];
      match OwnerOf(item.body)
      case Unmanaged =>
      case Malformed =>
        ScanStops(issues, i + 1);
        return Failure(InvalidMarker(item.number));
      case Managed(key) =>
        if key in owned {
          ScanStops(issues, i + 1);
          return Failure(DuplicateMarker(key, owned[key].number, item.number));
        }
        owned := owned[key := item];
    }
    assert issues[..|issues|] == issues;
    r := Success(owned);
  }

  method PlanIssues(m: Manifest, owned: Owned) returns (changes: seq<IssueChange>)
    ensures changes == IssueChanges(m.issues, m, owned)
  {
    hide IssueChangeOf;
    changes := [];
    var numbers := NumbersOf(owned);
    for i := 0 to |m.issues|
      invariant changes == IssueChanges(m.issues[..i], m, owned)
    {
      assert m.issues[..i + 1][..i] == m.issues[..i];
      var change := PlanIssue(m.issues[i], m, owned, numbers);
      changes := changes + change;
    }
    assert m.issues[..|m.issues|] == m.issues;
  }

  method PlanIssue(issue: IssueSpec, m: Manifest, owned: Owned, numbers: Numbers)
    returns (change: seq<IssueChange>)
    requires numbers == NumbersOf(owned)
    ensures change == IssueChangeOf(issue, m, owned)
  {
    var existing := Lookup(owned, issue.key);
    var body := RenderIssueBody(issue, m, numbers);
    var desired := Desired(issue.title, body, DesiredLabels(issue, m, existing),
                           MilestoneTitle(m.milestones, issue.milestone));
    if existing.None? {
      return [CreateIssue(issue.key, desired)];
    }
    if existing.value.isClosed {
      return [];
    }
    if IssueDiffers(existing.value, desired) {
      return [UpdateIssue(issue.key, existing.value.number, desired)];
    }
    return [];
  }

  lemma {:induction false} ScanStops(issues: seq<Issue>, i: nat)
    requires i <= |issues| && Scan(issues[..i]).Failure?
    ensures Scan(issues) == Scan(issues[..i])
    decreases |issues|
  {
    if i < |issues| {
      var front := issues[..|issues| - 1];
      assert front[..i] == issues[..i];
      ScanStops(front, i);
    } else {
      assert issues[..i] == issues;
    }
  }

  lemma HistoricalProblemGrows(issues: seq<IssueSpec>, i: nat, owned: Owned, allowMissing: bool)
    requires i < |issues| && HistoricalProblem(issues[..i], owned, allowMissing).None?
    ensures HistoricalProblem(issues[..i + 1], owned, allowMissing)
         == HistoricalProblemOf(issues[i], owned, allowMissing)
  {
    assert issues[..i + 1][..i] == issues[..i];
  }

  lemma {:induction false} HistoricalProblemStays(
    issues: seq<IssueSpec>, i: nat, owned: Owned, allowMissing: bool)
    requires i <= |issues| && HistoricalProblem(issues[..i], owned, allowMissing).Some?
    ensures HistoricalProblem(issues, owned, allowMissing)
         == HistoricalProblem(issues[..i], owned, allowMissing)
    decreases |issues|
  {
    if i < |issues| {
      var front := issues[..|issues| - 1];
      assert front[..i] == issues[..i];
      HistoricalProblemStays(front, i, owned, allowMissing);
    } else {
      assert issues[..i] == issues;
    }
  }

  // ----- What a plan decides -----

  /** The historical check passes exactly when every historical child is closed, or missing
      where that is allowed. */
  lemma {:induction false} HistoricalCheckIsExact(issues: seq<IssueSpec>, owned: Owned, allowMissing: bool)
    ensures HistoricalProblem(issues, owned, allowMissing).None? <==>
      forall i | 0 <= i < |issues| && issues[i].IsHistorical() ::
        if issues[i].key in owned then owned[issues[i].key].isClosed else allowMissing
  {
    if issues != [] {
      HistoricalCheckIsExact(issues[..|issues| - 1], owned, allowMissing);
      assert forall i | 0 <= i < |issues| - 1 :: issues[..|issues| - 1][i] == issues[i];
    }
  }

  /** What a successful scan knows. */
  lemma {:induction false} ScanMaps(issues: seq<Issue>)
    requires Scan(issues).Success?
    ensures forall key | key in Scan(issues).value ::
      Scan(issues).value[key] in issues && OwnerOf(Scan(issues).value[key].body) == Managed(key)
    ensures forall i | 0 <= i < |issues| && OwnerOf(issues[i].body).Managed? ::
      && OwnerOf(issues[i].body).key in Scan(issues).value
      && Scan(issues).value[OwnerOf(issues[i].body).key] == issues[i]
  {
    hide OwnerOf;
    if issues != [] {
      var n := |issues| - 1;
      var front, last := issues[..n], issues[n];
      ScanMaps(front);
      forall i | 0 <= i < |issues| && OwnerOf(issues[i].body).Managed?
        ensures OwnerOf(issues[i].body).key in Scan(issues).value
        ensures Scan(issues).value[OwnerOf(issues[i].body).key] == issues[i]
      {
        if i < n {
          assert front[i] == issues[i];
        }
      }
    }
  }

  predicate NoneMalformed(issues: seq<Issue>) {
    forall i | 0 <= i < |issues| :: !OwnerOf(issues[i].body).Malformed?
  }

  predicate NoneShared(issues: seq<Issue>) {
    forall i, j | 0 <= i < j < |issues| ::
      OwnerOf(issues[i].body) == OwnerOf(issues[j].body) ==> OwnerOf(issues[i].body).Unmanaged?
  }

  /** A scan succeeds exactly when no body is malformed and no key is claimed twice. */
  lemma {:induction false} ScanIsExact(issues: seq<Issue>)
    requires NoneMalformed(issues)
    ensures Scan(issues).Success? <==> NoneShared(issues)
  {
    hide OwnerOf;
    if issues != [] {
      var n := |issues| - 1;
      var front, last := issues[..n], OwnerOf(issues[n].body);
      assert forall i | 0 <= i < n :: front[i] == issues[i];
      ScanIsExact(front);
      if Scan(front).Success? {
        ScanMaps(front);
        if last.Managed? && last.key in Scan(front).value {
          var i :| 0 <= i < n && front[i] == Scan(front).value[last.key];
          assert OwnerOf(issues[i].body) == last;
        }
      }
    }
  }

  lemma {:induction false} MalformedStopsScan(issues: seq<Issue>)
    ensures Scan(issues).Success? ==> NoneMalformed(issues)
  {
    hide OwnerOf;
    if issues != [] {
      MalformedStopsScan(issues[..|issues| - 1]);
    }
  }

  predicate IsOwnedBy(issue: Issue, key: string) {
    OwnerOf(issue.body) == Managed(key)
  }

  /** Every historical child's issue is closed, and there unless it may be missing. */
  predicate HistoryAllows(m: Manifest, issues: seq<Issue>, allowMissing: bool) {
    forall i | 0 <= i < |m.issues| && m.issues[i].IsHistorical() ::
      && (forall j | 0 <= j < |issues| && IsOwnedBy(issues[j], m.issues[i].key) :: issues[j].isClosed)
      && (allowMissing || exists j | 0 <= j < |issues| :: IsOwnedBy(issues[j], m.issues[i].key))
  }

  /** Planning succeeds, said of the repository alone: no marker is malformed or claimed
      twice, and history is in order. */
  lemma PlanSucceedsExactly(m: Manifest, current: ServerState, allowMissing: bool)
    ensures Plan(m, current, allowMissing).Success? <==>
      && NoneMalformed(current.issues) && NoneShared(current.issues)
      && HistoryAllows(m, current.issues, allowMissing)
  {
    hide OwnerOf, NoneMalformed, NoneShared, LabelChanges, MilestoneChanges, IssueChanges, HistoricalProblem, Scan;
    MalformedStopsScan(current.issues);
    if NoneMalformed(current.issues) {
      ScanIsExact(current.issues);
    }
    if Scan(current.issues).Success? {
      HistoricalCheckIsExact(m.issues, Scan(current.issues).value, allowMissing);
      HistoryByScan(m, current.issues, allowMissing);
    }
  }

  lemma HistoryByScan(m: Manifest, issues: seq<Issue>, allowMissing: bool)
    requires Scan(issues).Success?
    ensures HistoryAllows(m, issues, allowMissing) <==>
      forall i | 0 <= i < |m.issues| && m.issues[i].IsHistorical() ::
        if m.issues[i].key in Scan(issues).value then Scan(issues).value[m.issues[i].key].isClosed else allowMissing
  {
    hide OwnerOf, Scan;
    ScanMaps(issues);
    var owned := Scan(issues).value;
    forall key
      ensures key in owned ==> exists j | 0 <= j < |issues| :: IsOwnedBy(issues[j], key) && issues[j] == owned[key]
      ensures key !in owned ==> forall j | 0 <= j < |issues| :: !IsOwnedBy(issues[j], key)
      ensures key in owned ==> forall j | 0 <= j < |issues| && IsOwnedBy(issues[j], key) :: issues[j] == owned[key]
    {
      if key in owned {
        var j :| 0 <= j < |issues| && issues[j] == owned[key];
        assert IsOwnedBy(issues[j], key);
      }
    }
  }

  // ----- What a plan holds, read off the records -----

  /** A label is created when none has its name, and updated when the one found has another
      colour, letter case aside, or another description. */
  predicate LabelIsPlanned(change: LabelChange, spec: LabelSpec, current: seq<Label>) {
    match change
    case CreateLabel(wanted) => wanted == spec && forall r <- current :: r.name != spec.name
    case UpdateLabel(wanted) =>
      && wanted == spec
      && var found := FindLabel(current, spec.name);
         found.Some? && (Upper(found.value.color) != spec.color || found.value.description != spec.description)
  }

  predicate MilestoneIsPlanned(change: MilestoneChange, spec: MilestoneSpec, current: seq<Milestone>) {
    match change
    case CreateMilestone(wanted) => wanted == spec && forall r <- current :: r.title != spec.title
    case UpdateMilestone(number, wanted) =>
      && wanted == spec
      && var found := FindMilestone(current, spec.title);
         && found.Some? && found.value.number == number
         && (found.value.description != spec.description || !found.value.isOpen)
  }

  /** The planned label changes are the needed ones of the catalog's labels and no others. */
  lemma {:induction false} LabelPlanIsExact(specs: seq<LabelSpec>, current: seq<Label>)
    ensures forall change ::
      change in LabelChanges(specs, current) <==> exists spec <- specs :: LabelIsPlanned(change, spec, current)
  {
    if specs != [] {
      var n := |specs| - 1;
      LabelPlanIsExact(specs[..n], current);
      assert forall change ::
        change in LabelChangeOf(specs[n], current) <==> LabelIsPlanned(change, specs[n], current);
      assert specs == specs[..n] + [specs[n]];
      hide LabelIsPlanned, LabelChangeOf;
    }
  }

  lemma {:induction false} MilestonePlanIsExact(specs: seq<MilestoneSpec>, current: seq<Milestone>)
    ensures forall change ::
      change in MilestoneChanges(specs, current) <==> exists spec <- specs :: MilestoneIsPlanned(change, spec, current)
  {
    if specs != [] {
      var n := |specs| - 1;
      MilestonePlanIsExact(specs[..n], current);
      assert forall change ::
        change in MilestoneChangeOf(specs[n], current) <==> MilestoneIsPlanned(change, specs[n], current);
      assert specs == specs[..n] + [specs[n]];
      hide MilestoneIsPlanned, MilestoneChangeOf;
    }
  }

  /** The stale keys are the ones some issue claims and no record has. */
  lemma StaleIsExact(m: Manifest, current: ServerState, allowMissing: bool)
    requires Plan(m, current, allowMissing).Success?
    ensures forall key :: key in Plan(m, current, allowMissing).value.stale <==>
      && (exists issue <- current.issues :: IsOwnedBy(issue, key))
      && forall record <- m.issues :: record.key != key
  {
    hide OwnerOf, Scan, LabelChanges, MilestoneChanges, IssueChanges, HistoricalProblem;
    ScanMaps(current.issues);
    var owned := Scan(current.issues).value;
    forall key
      ensures key in owned <==> exists issue <- current.issues :: IsOwnedBy(issue, key)
      ensures key in m.Keys() <==> exists record <- m.issues :: record.key == key
    {
      if key in owned {
        assert IsOwnedBy(owned[key], key);
      }
      if issue :| issue in current.issues && IsOwnedBy(issue, key) {
        var i :| 0 <= i < |current.issues| && current.issues[i] == issue;
      }
    }
  }

  /** A refused scan names what is so: a malformed body, or two issues with one key. */
  lemma {:induction false} ScanErrorIsReal(issues: seq<Issue>)
    requires Scan(issues).Failure?
    ensures match Scan(issues).error
      case InvalidMarker(number) => exists issue <- issues :: issue.number == number && OwnerOf(issue.body).Malformed?
      case DuplicateMarker(key, first, second) =>
        exists i, j | 0 <= i < j < |issues| ::
          && IsOwnedBy(issues[i], key) && issues[i].number == first
          && IsOwnedBy(issues[j], key) && issues[j].number == second
      case _ => false
  {
    hide OwnerOf;
    var n := |issues| - 1;
    var front := issues[..n];
    if Scan(front).Failure? {
      ScanErrorIsReal(front);
      assert forall i | 0 <= i < n :: front[i] == issues[i];
      if Scan(front).error.DuplicateMarker? {
        var e := Scan(front).error;
        var i, j :| 0 <= i < j < |front| && IsOwnedBy(front[i], e.key) && front[i].number == e.first
          && IsOwnedBy(front[j], e.key) && front[j].number == e.second;
        assert issues[i] == front[i] && issues[j] == front[j];
      }
    } else {
      ScanMaps(front);
      var last := issues[n];
      if OwnerOf(last.body).Managed? {
        var key := OwnerOf(last.body).key;
        var i :| 0 <= i < n && front[i] == Scan(front).value[key];
        assert issues[i] == front[i] && IsOwnedBy(issues[i], key) && IsOwnedBy(issues[n], key);
      } else {
        assert last in issues;
      }
    }
  }

  /** A refusal over history names a historical record that is missing, where that is not allowed,
      or whose issue is open. */
  lemma {:induction false} HistoryErrorIsReal(issues: seq<IssueSpec>, owned: Owned, allowMissing: bool)
    requires HistoricalProblem(issues, owned, allowMissing).Some?
    ensures match HistoricalProblem(issues, owned, allowMissing).value
      case HistoricalMissing(key) =>
        && !allowMissing && key !in owned
        && exists issue <- issues :: issue.IsHistorical() && issue.key == key
      case HistoricalNotClosed(key) =>
        && key in owned && !owned[key].isClosed
        && exists issue <- issues :: issue.IsHistorical() && issue.key == key
      case _ => false
  {
    var n := |issues| - 1;
    assert issues[n] in issues;
    if HistoricalProblem(issues[..n], owned, allowMissing).Some? {
      HistoryErrorIsReal(issues[..n], owned, allowMissing);
      assert forall issue <- issues[..n] :: issue in issues;
    }
  }

  /** A record's milestone is sent under the title the catalog gives its key. */
  lemma {:induction false} MilestoneTitleIsTheTitle(specs: seq<MilestoneSpec>, i: nat)
    requires DistinctMilestones(specs) && i < |specs|
    ensures MilestoneTitle(specs, specs[i].key) == specs[i].title
  {
    var n := |specs| - 1;
    if i < n {
      assert specs[i].key != specs[n].key;
      MilestoneTitleIsTheTitle(specs[..n], i);
    }
  }
}
