/** The first phase of a run: after it, every label and milestone of the catalog is as the
    manifest wants it and every other one is as it was. */
module CatalogPhase {
  import opened Wrappers
  import opened Text
  import opened Catalog
  import opened GitHub
  import opened Planning
  import opened Applying

  // ----- Labels -----

  lemma {:induction false} FindAfterReplaceLabel(labels: seq<Label>, record: Label, name: string)
    ensures FindLabel(ReplaceLabel(labels, record), name)
         == if name == record.name && FindLabel(labels, name).Some? then Some(record)
            else FindLabel(labels, name)
  {
    if labels != [] {
      var n := |labels| - 1;
      FindAfterReplaceLabel(labels[..n], record, name);
      assert ReplaceLabel(labels, record)[..n] == ReplaceLabel(labels[..n], record);
    }
  }

  lemma FindAfterAppendLabel(labels: seq<Label>, record: Label, name: string)
    ensures FindLabel(labels + [record], name)
         == if name == record.name then Some(record) else FindLabel(labels, name)
  {
    assert (labels + [record])[..|labels|] == labels;
  }

  /** Labels outside the catalog keep their place and their content; none disappears. */
  predicate LabelsKept(names: set<string>, before: seq<Label>, after: seq<Label>) {
    && |before| <= |after|
    && (forall i | 0 <= i < |before| ::
          after[i].name == before[i].name && (before[i].name !in names ==> after[i] == before[i]))
    && (forall i | |before| <= i < |after| :: after[i].name in names)
  }

  /** The label is there, with the colour and the description the catalog gives it. */
  predicate LabelSettled(spec: LabelSpec, labels: seq<Label>) {
    var found := FindLabel(labels, spec.name);
    && found.Some?
    && Upper(found.value.color) == spec.color
    && found.value.description == spec.description
  }

  lemma ApplyLabelsAfter(before: seq<LabelChange>, last: LabelChange, st: ServerState)
    ensures ApplyLabels(before + [last], st) == ApplyLabel(last, ApplyLabels(before, st))
  {
    assert (before + [last])[..|before|] == before;
  }

  /** The changes for one more label come after the changes for the ones before it. */
  lemma LabelChangesSplit(specs: seq<LabelSpec>, current: seq<Label>, st: ServerState)
    requires specs != []
    ensures var n := |specs| - 1;
      var middle := ApplyLabels(LabelChanges(specs[..n], current), st);
      var change := LabelChangeOf(specs[n], current);
      ApplyLabels(LabelChanges(specs, current), st)
        == if change == [] then middle else ApplyLabel(change[0], middle)
  {
    var n := |specs| - 1;
    var before := LabelChanges(specs[..n], current);
    var change := LabelChangeOf(specs[n], current);
    if change == [] {
      assert before + change == before;
    } else {
      assert change == [change[0]];
      ApplyLabelsAfter(before, change[0], st);
    }
  }

  lemma FindAfterLabel(change: LabelChange, st: ServerState, name: string)
    requires name != change.spec.name
    ensures FindLabel(ApplyLabel(change, st).labels, name) == FindLabel(st.labels, name)
  {
    var record := Label(change.spec.name, Lower(change.spec.color), change.spec.description);
    FindAfterReplaceLabel(st.labels, record, name);
    FindAfterAppendLabel(st.labels, record, name);
  }

  lemma {:induction false} FindUntouchedLabel(specs: seq<LabelSpec>, current: seq<Label>,
                                              st: ServerState, name: string)
    requires forall i | 0 <= i < |specs| :: specs[i].name != name
    ensures FindLabel(ApplyLabels(LabelChanges(specs, current), st).labels, name)
         == FindLabel(st.labels, name)
  {
    if specs != [] {
      var n := |specs| - 1;
      LabelChangesSplit(specs, current, st);
      FindUntouchedLabel(specs[..n], current, st, name);
      if LabelChangeOf(specs[n], current) != [] {
        FindAfterLabel(LabelChangeOf(specs[n], current)[0],
                       ApplyLabels(LabelChanges(specs[..n], current), st), name);
      }
    }
  }

  lemma OneLabelSettles(spec: LabelSpec, planned: seq<Label>, st: ServerState)
    requires FindLabel(planned, spec.name) == FindLabel(st.labels, spec.name)
    requires IsUpperHex(spec.color)
    ensures var change := LabelChangeOf(spec, planned);
      LabelSettled(spec, if change == [] then st.labels else ApplyLabel(change[0], st).labels)
  {
    var record := Label(spec.name, Lower(spec.color), spec.description);
    UpperUndoesLower(spec.color);
    FindAfterReplaceLabel(st.labels, record, spec.name);
    FindAfterAppendLabel(st.labels, record, spec.name);
  }

  /** A label settles by what its name finds. */
  lemma SettledByName(spec: LabelSpec, a: seq<Label>, b: seq<Label>)
    requires FindLabel(a, spec.name) == FindLabel(b, spec.name)
    ensures LabelSettled(spec, a) <==> LabelSettled(spec, b)
    ensures forall c | c in LabelChangeOf(spec, a) :: c.spec == spec
  {
  }

  /** Each label of the catalog needs no further change. */
  lemma {:induction false} LabelsSettle(specs: seq<LabelSpec>, st: ServerState, i: nat)
    requires DistinctLabels(specs) && i < |specs| && IsUpperHex(specs[i].color)
    ensures LabelSettled(specs[i], ApplyLabels(LabelChanges(specs, st.labels), st).labels)
  {
    hide IsUpperHex, LabelSettled, LabelChangeOf, LabelChanges, ApplyLabels, ApplyLabel;
    var n := |specs| - 1;
    var middle := ApplyLabels(LabelChanges(specs[..n], st.labels), st);
    var change := LabelChangeOf(specs[n], st.labels);
    LabelChangesSplit(specs, st.labels, st);
    SettledByName(specs[n], st.labels, st.labels);
    if i < n {
      LabelsSettle(specs[..n], st, i);
      if change != [] {
        FindAfterLabel(change[0], middle, specs[i].name);
        SettledByName(specs[i], middle.labels, ApplyLabel(change[0], middle).labels);
      }
    } else {
      FindUntouchedLabel(specs[..n], st.labels, st, specs[n].name);
      OneLabelSettles(specs[n], st.labels, middle);
    }
  }

  lemma OneLabelKeeps(change: LabelChange, st: ServerState, names: set<string>)
    requires change.spec.name in names
    ensures ApplyLabel(change, st) == st.(labels := ApplyLabel(change, st).labels)
    ensures LabelsKept(names, st.labels, ApplyLabel(change, st).labels)
  {
  }

  lemma {:induction false} OnlyLabelsChange(specs: seq<LabelSpec>, current: seq<Label>,
                                            st: ServerState, names: set<string>)
    requires forall i | 0 <= i < |specs| :: specs[i].name in names
    ensures var done := ApplyLabels(LabelChanges(specs, current), st);
      done == st.(labels := done.labels) && LabelsKept(names, st.labels, done.labels)
  {
    hide ApplyLabel, LabelDiffers;
    if specs != [] {
      var n := |specs| - 1;
      var middle := ApplyLabels(LabelChanges(specs[..n], current), st);
      LabelChangesSplit(specs, current, st);
      OnlyLabelsChange(specs[..n], current, st, names);
      if LabelChangeOf(specs[n], current) != [] {
        OneLabelKeeps(LabelChangeOf(specs[n], current)[0], middle, names);
      }
    }
  }

  // ----- Milestones -----

  lemma {:induction false} FindAfterReplaceMilestone(ms: seq<Milestone>, existing: Milestone,
                                                     record: Milestone, title: string)
    requires FindMilestone(ms, existing.title) == Some(existing)
    requires forall i | 0 <= i < |ms| && ms[i].number == existing.number :: ms[i] == existing
    requires record.number == existing.number && record.title == existing.title
    ensures FindMilestone(ReplaceMilestone(ms, record), title)
         == if title == existing.title then Some(record) else FindMilestone(ms, title)
  {
    var n := |ms| - 1;
    assert ReplaceMilestone(ms, record)[..n] == ReplaceMilestone(ms[..n], record);
    if ms[n].title != existing.title {
      FindAfterReplaceMilestone(ms[..n], existing, record, title);
    } else if title != existing.title {
      FindOtherMilestone(ms[..n], existing, record, title);
    }
  }

  lemma {:induction false} FindOtherMilestone(ms: seq<Milestone>, existing: Milestone,
                                              record: Milestone, title: string)
    requires forall i | 0 <= i < |ms| && ms[i].number == existing.number :: ms[i] == existing
    requires record.number == existing.number && record.title == existing.title != title
    ensures FindMilestone(ReplaceMilestone(ms, record), title) == FindMilestone(ms, title)
  {
    if ms != [] {
      var n := |ms| - 1;
      FindOtherMilestone(ms[..n], existing, record, title);
      assert ReplaceMilestone(ms, record)[..n] == ReplaceMilestone(ms[..n], record);
    }
  }

  /** Milestones keep their place, number and title; those outside the catalog keep all. */
  predicate MilestonesKept(titles: set<string>, before: seq<Milestone>, after: seq<Milestone>) {
    && |before| <= |after|
    && (forall i | 0 <= i < |before| ::
          && after[i].number == before[i].number
          && after[i].title == before[i].title
          && (before[i].title !in titles ==> after[i] == before[i]))
    && (forall i | |before| <= i < |after| :: after[i].title in titles)
  }

  /** The milestone is there, open, and with the description the catalog gives it. */
  predicate MilestoneSettled(spec: MilestoneSpec, ms: seq<Milestone>) {
    var found := FindMilestone(ms, spec.title);
    && found.Some?
    && found.value.description == spec.description
    && found.value.isOpen
  }

  lemma ApplyMilestonesAfter(before: seq<MilestoneChange>, last: MilestoneChange, st: ServerState)
    ensures ApplyMilestones(before + [last], st) == ApplyMilestone(last, ApplyMilestones(before, st))
  {
    assert (before + [last])[..|before|] == before;
  }

  lemma MilestoneChangesSplit(specs: seq<MilestoneSpec>, current: seq<Milestone>, st: ServerState)
    requires specs != []
    ensures var n := |specs| - 1;
      var middle := ApplyMilestones(MilestoneChanges(specs[..n], current), st);
      var change := MilestoneChangeOf(specs[n], current);
      ApplyMilestones(MilestoneChanges(specs, current), st)
        == if change == [] then middle else ApplyMilestone(change[0], middle)
  {
    var n := |specs| - 1;
    var before := MilestoneChanges(specs[..n], current);
    var change := MilestoneChangeOf(specs[n], current);
    if change == [] {
      assert before + change == before;
    } else {
      assert change == [change[0]];
      ApplyMilestonesAfter(before, change[0], st);
    }
  }

  /** A planned change still fits: the milestone it was planned from is the one found now. */
  predicate Fits(change: MilestoneChange, st: ServerState) {
    match change
    case CreateMilestone(spec) => FindMilestone(st.milestones, spec.title).None?
    case UpdateMilestone(number, spec) =>
      && FindMilestone(st.milestones, spec.title).Some?
      && FindMilestone(st.milestones, spec.title).value.number == number
  }

  lemma MilestoneIsUnique(st: ServerState, record: Milestone)
    requires st.WellFormed() && record in st.milestones
    ensures forall i | 0 <= i < |st.milestones| && st.milestones[i].number == record.number ::
      st.milestones[i] == record
  {
    var k :| 0 <= k < |st.milestones| && st.milestones[k] == record;
    forall i | 0 <= i < |st.milestones|
      ensures st.milestones[i].number == record.number ==> st.milestones[i] == record
    {
      if i != k {
        assert st.milestones[i].number != st.milestones[k].number;
      }
    }
  }

  /** Writing one milestone settles it and changes what no other title finds. */
  lemma FindAfterMilestone(change: MilestoneChange, st: ServerState, title: string)
    requires st.WellFormed() && Fits(change, st)
    ensures title != change.spec.title ==>
      FindMilestone(ApplyMilestone(change, st).milestones, title) == FindMilestone(st.milestones, title)
    ensures title == change.spec.title ==>
      MilestoneSettled(change.spec, ApplyMilestone(change, st).milestones)
  {
    match change
    case CreateMilestone(spec) =>
      var record := Milestone(st.nextMilestone, spec.title, spec.description, true);
      assert (st.milestones + [record])[..|st.milestones|] == st.milestones;
    case UpdateMilestone(number, spec) =>
      var existing := FindMilestone(st.milestones, spec.title).value;
      MilestoneIsUnique(st, existing);
      FindAfterReplaceMilestone(st.milestones, existing,
        Milestone(number, spec.title, spec.description, true), title);
  }

  predicate OnlyMilestonesDiffer(before: ServerState, after: ServerState) {
    after == before.(milestones := after.milestones, nextMilestone := after.nextMilestone)
  }

  lemma OneMilestoneKeeps(change: MilestoneChange, st: ServerState, titles: set<string>)
    requires st.WellFormed() && Fits(change, st) && change.spec.title in titles
    ensures ApplyMilestone(change, st).WellFormed()
    ensures OnlyMilestonesDiffer(st, ApplyMilestone(change, st))
    ensures MilestonesKept(titles, st.milestones, ApplyMilestone(change, st).milestones)
  {
    if change.UpdateMilestone? {
      MilestoneIsUnique(st, FindMilestone(st.milestones, change.spec.title).value);
    }
  }

  lemma MilestonesKeptTransitive(titles: set<string>, a: seq<Milestone>, b: seq<Milestone>, c: seq<Milestone>)
    requires MilestonesKept(titles, a, b) && MilestonesKept(titles, b, c)
    ensures MilestonesKept(titles, a, c)
  {
  }

  predicate Untitled(specs: seq<MilestoneSpec>, title: string) {
    forall i | 0 <= i < |specs| :: specs[i].title != title
  }

  lemma DistinctFront(specs: seq<MilestoneSpec>)
    requires DistinctMilestones(specs) && specs != []
    ensures DistinctMilestones(specs[..|specs| - 1])
    ensures Untitled(specs[..|specs| - 1], specs[|specs| - 1].title)
  {
  }

  /** While the changes planned for some milestones are made, other titles find what they
      found. */
  lemma {:induction false} FindUntouchedMilestone(specs: seq<MilestoneSpec>, st: ServerState, title: string)
    requires DistinctMilestones(specs) && st.WellFormed() && Untitled(specs, title)
    ensures var done := ApplyMilestones(MilestoneChanges(specs, st.milestones), st);
      && done.WellFormed()
      && FindMilestone(done.milestones, title) == FindMilestone(st.milestones, title)
  {
    hide ServerState.WellFormed, MilestoneDiffers;
    if specs != [] {
      hide ApplyMilestone, DistinctMilestones;
      var n := |specs| - 1;
      DistinctFront(specs);
      MilestoneChangesSplit(specs, st.milestones, st);
      FindUntouchedMilestone(specs[..n], st, title);
      FindUntouchedMilestone(specs[..n], st, specs[n].title);
      var change := MilestoneChangeOf(specs[n], st.milestones);
      if change != [] {
        var middle := ApplyMilestones(MilestoneChanges(specs[..n], st.milestones), st);
        FindAfterMilestone(change[0], middle, title);
        OneMilestoneKeeps(change[0], middle, {specs[n].title});
      }
    }
  }

  lemma {:induction false} OnlyMilestonesChange(specs: seq<MilestoneSpec>, st: ServerState, titles: set<string>)
    requires DistinctMilestones(specs) && st.WellFormed()
    requires forall i | 0 <= i < |specs| :: specs[i].title in titles
    ensures var done := ApplyMilestones(MilestoneChanges(specs, st.milestones), st);
      && done.WellFormed()
      && OnlyMilestonesDiffer(st, done)
      && MilestonesKept(titles, st.milestones, done.milestones)
  {
    hide ServerState.WellFormed, MilestoneDiffers;
    if specs != [] {
      hide ApplyMilestone, DistinctMilestones, MilestonesKept;
      var n := |specs| - 1;
      DistinctFront(specs);
      MilestoneChangesSplit(specs, st.milestones, st);
      OnlyMilestonesChange(specs[..n], st, titles);
      FindUntouchedMilestone(specs[..n], st, specs[n].title);
      var change := MilestoneChangeOf(specs[n], st.milestones);
      if change != [] {
        var middle := ApplyMilestones(MilestoneChanges(specs[..n], st.milestones), st);
        OneMilestoneKeeps(change[0], middle, titles);
        MilestonesKeptTransitive(titles, st.milestones, middle.milestones,
                                 ApplyMilestone(change[0], middle).milestones);
      }
    }
  }

  lemma MilestoneSettledByTitle(spec: MilestoneSpec, a: seq<Milestone>, b: seq<Milestone>)
    requires FindMilestone(a, spec.title) == FindMilestone(b, spec.title)
    ensures MilestoneSettled(spec, a) <==> MilestoneSettled(spec, b)
  {
  }

  /** The change planned for one milestone still fits while its title finds the same. */
  lemma PlannedChangeFits(spec: MilestoneSpec, planned: seq<Milestone>, st: ServerState)
    requires FindMilestone(planned, spec.title) == FindMilestone(st.milestones, spec.title)
    ensures var change := MilestoneChangeOf(spec, planned);
      if change == [] then MilestoneSettled(spec, planned) else change[0].spec == spec && Fits(change[0], st)
  {
  }

  /** Each milestone of the catalog exists afterwards and needs no further change. */
  lemma {:induction false} MilestonesSettle(specs: seq<MilestoneSpec>, st: ServerState, i: nat)
    requires DistinctMilestones(specs) && st.WellFormed() && i < |specs|
    ensures MilestoneSettled(specs[i], ApplyMilestones(MilestoneChanges(specs, st.milestones), st).milestones)
  {
    hide ApplyMilestone, ApplyMilestones, MilestoneChanges, MilestoneChangeOf, MilestoneSettled, Fits,
         DistinctMilestones, ServerState.WellFormed;
    var n := |specs| - 1;
    var middle := ApplyMilestones(MilestoneChanges(specs[..n], st.milestones), st);
    var change := MilestoneChangeOf(specs[n], st.milestones);
    DistinctFront(specs);
    MilestoneChangesSplit(specs, st.milestones, st);
    FindUntouchedMilestone(specs[..n], st, specs[n].title);
    PlannedChangeFits(specs[n], st.milestones, middle);
    MilestoneSettledByTitle(specs[n], st.milestones, middle.milestones);
    if i < n {
      MilestonesSettle(specs[..n], st, i);
      assert specs[..n][i].title != specs[n].title;
    }
    if change != [] {
      FindAfterMilestone(change[0], middle, specs[i].title);
      if i < n {
        MilestoneSettledByTitle(specs[i], middle.milestones, ApplyMilestone(change[0], middle).milestones);
      }
    }
  }

  // ----- Milestone numbers -----

  lemma {:induction false} NumbersFollowTitles(ms: seq<Milestone>, title: string)
    ensures title in MilestoneNumbers(ms) <==> FindMilestone(ms, title).Some?
    ensures title in MilestoneNumbers(ms) ==>
      MilestoneNumbers(ms)[title] == FindMilestone(ms, title).value.number
  {
    if ms != [] {
      NumbersFollowTitles(ms[..|ms| - 1], title);
    }
  }

  lemma {:induction false} TitleIsUnique(ms: seq<Milestone>, record: Milestone)
    requires record in ms
    requires forall i, j | 0 <= i < j < |ms| :: ms[i].number != ms[j].number
    ensures TitleOfNumber(ms, record.number) == Some(record.title)
  {
    var n := |ms| - 1;
    if ms[n] != record {
      var i :| 0 <= i < |ms| && ms[i] == record;
      assert ms[i].number != ms[n].number;
      TitleIsUnique(ms[..n], record);
    }
  }

  lemma {:induction false} MilestoneTitleIsKnown(specs: seq<MilestoneSpec>, key: string)
    requires exists i | 0 <= i < |specs| :: specs[i].key == key
    ensures exists i | 0 <= i < |specs| :: specs[i].title == MilestoneTitle(specs, key)
  {
    var n := |specs| - 1;
    if specs[n].key == key {
      assert specs[n].title == MilestoneTitle(specs, key);
    } else {
      MilestoneTitleIsKnown(specs[..n], key);
      var i :| 0 <= i < n && specs[..n][i].title == MilestoneTitle(specs, key);
      assert specs[i].title == MilestoneTitle(specs, key);
    }
  }

  /** Milestone titles can be sent as numbers and come back as the same titles. */
  predicate Resolves(m: Manifest, ms: seq<Milestone>) {
    forall issue | issue in m.issues ::
      var title := MilestoneTitle(m.milestones, issue.milestone);
      && title in MilestoneNumbers(ms)
      && TitleOfNumber(ms, MilestoneNumbers(ms)[title]) == Some(title)
  }

  lemma MilestonesResolve(m: Manifest, st: ServerState)
    requires ValidManifest(m) && st.WellFormed()
    requires forall i | 0 <= i < |m.milestones| :: MilestoneSettled(m.milestones[i], st.milestones)
    ensures Resolves(m, st.milestones)
  {
    forall issue | issue in m.issues
      ensures var title := MilestoneTitle(m.milestones, issue.milestone);
        && title in MilestoneNumbers(st.milestones)
        && TitleOfNumber(st.milestones, MilestoneNumbers(st.milestones)[title]) == Some(title)
    {
      var title := MilestoneTitle(m.milestones, issue.milestone);
      MilestoneTitleIsKnown(m.milestones, issue.milestone);
      var i :| 0 <= i < |m.milestones| && m.milestones[i].title == title;
      assert MilestoneSettled(m.milestones[i], st.milestones);
      NumbersFollowTitles(st.milestones, title);
      TitleIsUnique(st.milestones, FindMilestone(st.milestones, title).value);
    }
  }

  /** The whole first phase of a planned run. */
  predicate CatalogIsPlanned(m: Manifest, plan: SyncPlan, st: ServerState) {
    && plan.labels == LabelChanges(m.labels, st.labels)
    && plan.milestones == MilestoneChanges(m.milestones, st.milestones)
  }

  function Titles(m: Manifest): set<string> {
    set i | 0 <= i < |m.milestones| :: m.milestones[i].title
  }

  lemma CatalogPhaseKeeps(m: Manifest, plan: SyncPlan, st: ServerState)
    requires ValidManifest(m) && st.WellFormed() && CatalogIsPlanned(m, plan, st)
    ensures var done := CatalogWritten(plan, st);
      && done.WellFormed()
      && done.issues == st.issues && done.nextIssue == st.nextIssue
      && LabelsKept(m.LabelNames(), st.labels, done.labels)
      && MilestonesKept(Titles(m), st.milestones, done.milestones)
  {
    OnlyLabelsChange(m.labels, st.labels, st, m.LabelNames());
    OnlyMilestonesChange(m.milestones, ApplyLabels(plan.labels, st), Titles(m));
  }

  lemma LabelsDoNotMatter(st: ServerState, labels: seq<Label>)
    ensures st.(labels := labels).WellFormed() <==> st.WellFormed()
  {
  }

  lemma CatalogPhaseSettles(m: Manifest, plan: SyncPlan, st: ServerState)
    requires ValidManifest(m) && st.WellFormed() && CatalogIsPlanned(m, plan, st)
    ensures var done := CatalogWritten(plan, st);
      && (forall i | 0 <= i < |m.labels| :: LabelSettled(m.labels[i], done.labels))
      && (forall i | 0 <= i < |m.milestones| :: MilestoneSettled(m.milestones[i], done.milestones))
      && Resolves(m, done.milestones)
  {
    hide LabelSettled, MilestoneSettled, LabelsKept, MilestonesKept, ValidIssues, WellRelated, DistinctKeys,
         ServerState.WellFormed, LabelChanges, MilestoneChanges, Resolves;
    var middle, done := ApplyLabels(plan.labels, st), CatalogWritten(plan, st);
    CatalogPhaseKeeps(m, plan, st);
    OnlyLabelsChange(m.labels, st.labels, st, m.LabelNames());
    LabelsDoNotMatter(st, middle.labels);
    OnlyMilestonesChange(m.milestones, middle, Titles(m));
    forall i | 0 <= i < |m.labels|
      ensures LabelSettled(m.labels[i], done.labels)
    {
      LabelsSettle(m.labels, st, i);
    }
    forall i | 0 <= i < |m.milestones|
      ensures MilestoneSettled(m.milestones[i], done.milestones)
    {
      MilestonesSettle(m.milestones, middle, i);
    }
    MilestonesResolve(m, done);
  }

  lemma SettledLabelStays(spec: LabelSpec, labels: seq<Label>)
    ensures LabelSettled(spec, labels) <==> LabelChangeOf(spec, labels) == []
  {
  }

  lemma SettledMilestoneStays(spec: MilestoneSpec, ms: seq<Milestone>)
    ensures MilestoneSettled(spec, ms) <==> MilestoneChangeOf(spec, ms) == []
  {
  }

  lemma {:induction false} SettledNeedsNothing(
    labelSpecs: seq<LabelSpec>, labels: seq<Label>, milestoneSpecs: seq<MilestoneSpec>, ms: seq<Milestone>)
    requires forall i | 0 <= i < |labelSpecs| :: LabelSettled(labelSpecs[i], labels)
    requires forall i | 0 <= i < |milestoneSpecs| :: MilestoneSettled(milestoneSpecs[i], ms)
    ensures LabelChanges(labelSpecs, labels) == [] && MilestoneChanges(milestoneSpecs, ms) == []
    decreases |labelSpecs| + |milestoneSpecs|
  {
    hide LabelChangeOf, MilestoneChangeOf, LabelSettled, MilestoneSettled;
    if labelSpecs != [] {
      var n := |labelSpecs| - 1;
      SettledLabelStays(labelSpecs[n], labels);
      SettledNeedsNothing(labelSpecs[..n], labels, milestoneSpecs, ms);
    } else if milestoneSpecs != [] {
      var n := |milestoneSpecs| - 1;
      SettledMilestoneStays(milestoneSpecs[n], ms);
      SettledNeedsNothing(labelSpecs, labels, milestoneSpecs[..n], ms);
    }
  }
}
