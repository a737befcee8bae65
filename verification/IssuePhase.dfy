/** The two passes over the issues: what each write settles, and what whole passes leave. */
module IssuePhase {
  import opened Wrappers
  import opened Text
  import opened Markers
  import opened Catalog
  import opened Rendering
  import opened GitHub
  import opened Planning
  import opened Applying
  import opened CatalogPhase

  /** The record needs no write, with its links filled in from these numbers. */
  predicate Settled(record: Issue, issue: IssueSpec, m: Manifest, numbers: Numbers) {
    !IssueDiffers(record, DesiredOf(issue, m, numbers, Some(record)))
  }

  ghost predicate SameElsewhere(before: Owned, after: Owned, key: string) {
    forall k | k != key :: (k in before <==> k in after) && (k in before ==> before[k] == after[k])
  }

  predicate OnlyIssuesDiffer(before: ServerState, after: ServerState) {
    after == before.(issues := after.issues, nextIssue := after.nextIssue)
  }

  /** A record that was just given the desired content does not differ from what would be
      desired next: the labels to keep are recomputed from the new labels, to the same set. */
  lemma WrittenIsSettled(issue: IssueSpec, m: Manifest, numbers: Numbers, existing: Option<Issue>, record: Issue)
    requires !IssueDiffers(record, DesiredOf(issue, m, numbers, existing))
    ensures Settled(record, issue, m, numbers)
  {
    hide Render, IsKept;
    assert DesiredLabels(issue, m, Some(record)) == record.labels;
  }

  /** One write of the content desired for a record of the catalog. */
  predicate IsWriteOf(change: IssueChange, issue: IssueSpec, m: Manifest, numbers: Numbers, w: Work) {
    && change.key == issue.key
    && change.desired == DesiredOf(issue, m, numbers, Lookup(w.owned, issue.key))
    && (change.CreateIssue? <==> issue.key !in w.owned)
    && (change.UpdateIssue? ==>
          change.number == w.owned[issue.key].number && !w.owned[issue.key].isClosed)
  }

  lemma CatalogOwnsBody(m: Manifest, issue: IssueSpec, numbers: Numbers)
    requires ValidManifest(m) && issue in m.issues
    ensures OwnerOf(Render(issue, m, numbers)) == Managed(issue.key)
    ensures issue.key in m.Keys() && LabelsOf(m, issue.key) == issue.labels
  {
    hide OwnerOf, Render;
    RenderedBodyIsOwned(issue, m, numbers);
    IndexOfFinds(m.issues, issue.key);
    var i :| 0 <= i < |m.issues| && m.issues[i] == issue;
    assert m.issues[i].key == issue.key;
  }

  lemma WriteSettles(m: Manifest, issue: IssueSpec, numbers: Numbers, w: Work, change: IssueChange)
    requires ValidManifest(m) && issue in m.issues
    requires Consistent(w) && Resolves(m, w.st.milestones)
    requires IsWriteOf(change, issue, m, numbers, w)
    ensures var done := ApplyIssue(change, MilestoneNumbers(w.st.milestones), w);
      && Consistent(done)
      && FrameHolds(m, w.st.issues, done.st.issues)
      && OnlyIssuesDiffer(w.st, done.st)
      && SameElsewhere(w.owned, done.owned, issue.key)
      && issue.key in done.owned
      && !done.owned[issue.key].isClosed
      && Settled(done.owned[issue.key], issue, m, numbers)
      && (change.UpdateIssue? ==> done.owned[issue.key].number == w.owned[issue.key].number)
  {
    hide OwnerOf, Render, Settled, IsKept, FrameHolds, ValidManifest, Manifest.Keys, Scan,
         ServerState.WellFormed, LabelsOf;
    var mn := MilestoneNumbers(w.st.milestones);
    CatalogOwnsBody(m, issue, numbers);
    WriteKeepsConsistency(w, change, mn);
    WriteKeepsFrame(m, w, change, mn);
    var done := ApplyIssue(change, mn, w);
    WrittenIsSettled(issue, m, numbers, Lookup(w.owned, issue.key), done.owned[issue.key]);
  }

  // ----- The first pass -----

  function KeysBefore(m: Manifest, n: nat): set<string>
    requires n <= |m.issues|
  {
    set i | 0 <= i < n :: m.issues[i].key
  }

  lemma KeysBeforeNext(m: Manifest, n: nat)
    requires DistinctKeys(m.issues) && n < |m.issues|
    ensures m.issues[n].key !in KeysBefore(m, n)
    ensures KeysBefore(m, n + 1) == KeysBefore(m, n) + {m.issues[n].key}
  {
  }

  /** A closed issue is as it was; any other is open and as the manifest wants it. */
  predicate Handled(m: Manifest, before: Owned, after: Owned, issue: IssueSpec) {
    && issue.key in after
    && if issue.key in before && before[issue.key].isClosed then
         after[issue.key] == before[issue.key]
       else
         !after[issue.key].isClosed && Settled(after[issue.key], issue, m, NumbersOf(before))
  }

  /** Numbers and states stay, and keys not yet visited keep their issues. */
  ghost predicate OwnedEvolves(before: Owned, after: Owned, visited: set<string>) {
    && (forall k | k in before ::
          && k in after
          && after[k].number == before[k].number
          && after[k].isClosed == before[k].isClosed)
    && (forall k | k !in visited :: (k in after <==> k in before) && (k in before ==> after[k] == before[k]))
  }

  lemma OwnedEvolvesOn(before: Owned, middle: Owned, after: Owned, visited: set<string>, key: string)
    requires OwnedEvolves(before, middle, visited) && SameElsewhere(middle, after, key)
    requires key in middle ==>
      && key in after
      && after[key].number == middle[key].number
      && after[key].isClosed == middle[key].isClosed
    ensures OwnedEvolves(before, after, visited + {key})
  {
  }

  ghost predicate StateEvolves(m: Manifest, start: Work, w: Work) {
    && Consistent(w)
    && OnlyIssuesDiffer(start.st, w.st)
    && FrameHolds(m, start.st.issues, w.st.issues)
  }

  lemma StateEvolvesOn(m: Manifest, start: Work, middle: Work, w: Work)
    requires StateEvolves(m, start, middle) && StateEvolves(m, middle, w)
    ensures StateEvolves(m, start, w)
  {
    hide Consistent, FrameHolds;
    FrameIsTransitive(m, start.st.issues, middle.st.issues, w.st.issues);
  }

  lemma NothingEvolves(m: Manifest, w: Work)
    requires Consistent(w)
    ensures StateEvolves(m, w, w)
  {
    hide OwnerOf;
  }

  ghost predicate PassOne(m: Manifest, n: nat, start: Work, w: Work)
    requires n <= |m.issues|
  {
    && StateEvolves(m, start, w)
    && OwnedEvolves(start.owned, w.owned, KeysBefore(m, n))
    && (forall i | 0 <= i < n :: Handled(m, start.owned, w.owned, m.issues[i]))
  }

  lemma ApplyIssuesAfter(before: seq<IssueChange>, last: IssueChange, numbers: map<string, nat>, w: Work)
    ensures ApplyIssues(before + [last], numbers, w) == ApplyIssue(last, numbers, ApplyIssues(before, numbers, w))
  {
    assert (before + [last])[..|before|] == before;
  }

  function AfterChanges(m: Manifest, n: nat, start: Work): Work
    requires n <= |m.issues|
  {
    ApplyIssues(IssueChanges(m.issues[..n], m, start.owned), MilestoneNumbers(start.st.milestones), start)
  }

  lemma AfterChangesSplit(m: Manifest, n: nat, start: Work)
    requires n < |m.issues|
    ensures var change := IssueChangeOf(m.issues[n], m, start.owned);
      AfterChanges(m, n + 1, start)
        == if change == [] then AfterChanges(m, n, start)
           else ApplyIssue(change[0], MilestoneNumbers(start.st.milestones), AfterChanges(m, n, start))
  {
    hide IssueChangeOf, ApplyIssue;
    var change := IssueChangeOf(m.issues[n], m, start.owned);
    var before := IssueChanges(m.issues[..n], m, start.owned);
    assert m.issues[..n + 1][..n] == m.issues[..n];
    IssueChangeIsOne(m.issues[n], m, start.owned);
    if change == [] {
      assert before + change == before;
    } else {
      assert change == [change[0]];
      ApplyIssuesAfter(before, change[0], MilestoneNumbers(start.st.milestones), start);
    }
  }

  lemma IssueChangeIsOne(issue: IssueSpec, m: Manifest, owned: Owned)
    ensures |IssueChangeOf(issue, m, owned)| <= 1
  {
  }

  /** The change planned for a record is a write of the desired content, and there is none
      exactly when the record is closed or settled. */
  lemma PlannedChange(m: Manifest, issue: IssueSpec, start: Work, w: Work)
    requires Lookup(w.owned, issue.key) == Lookup(start.owned, issue.key)
    ensures var change := IssueChangeOf(issue, m, start.owned);
      && (change != [] ==> IsWriteOf(change[0], issue, m, NumbersOf(start.owned), w))
      && (change == [] <==>
            && issue.key in w.owned
            && (w.owned[issue.key].isClosed
                || Settled(w.owned[issue.key], issue, m, NumbersOf(start.owned))))
  {
    hide DesiredOf;
  }

  lemma {:induction false} PassOneHolds(m: Manifest, n: nat, start: Work)
    requires ValidManifest(m) && Consistent(start) && Resolves(m, start.st.milestones)
    requires n <= |m.issues|
    ensures PassOne(m, n, start, AfterChanges(m, n, start))
  {
    hide ValidManifest, Resolves, Consistent, FrameHolds, IssueChangeOf, Settled, IsWriteOf;
    if n == 0 {
      NothingEvolves(m, start);
      assert m.issues[..0] == [];
    } else {
      PassOneHolds(m, n - 1, start);
      PassOneStep(m, n - 1, start);
    }
  }

  lemma PassOneStep(m: Manifest, n: nat, start: Work)
    requires ValidManifest(m) && Resolves(m, start.st.milestones)
    requires n < |m.issues| && PassOne(m, n, start, AfterChanges(m, n, start))
    ensures PassOne(m, n + 1, start, AfterChanges(m, n + 1, start))
  {
    hide Resolves, Consistent, FrameHolds, IssueChangeOf, Settled, IsWriteOf, ApplyIssue;
    var issue, middle, done := m.issues[n], AfterChanges(m, n, start), AfterChanges(m, n + 1, start);
    var change := IssueChangeOf(issue, m, start.owned);
    KeysBeforeNext(m, n);
    AfterChangesSplit(m, n, start);
    PlannedChange(m, issue, start, middle);
    if change != [] {
      WriteSettles(m, issue, NumbersOf(start.owned), middle, change[0]);
      WriteKeepsState(issue, m, NumbersOf(start.owned), middle, change[0], done);
      StateEvolvesOn(m, start, middle, done);
      OwnedEvolvesOn(start.owned, middle.owned, done.owned, KeysBefore(m, n), issue.key);
    } else {
      OwnedEvolvesOn(start.owned, middle.owned, done.owned, KeysBefore(m, n), issue.key);
    }
    forall i | 0 <= i < n + 1
      ensures Handled(m, start.owned, done.owned, m.issues[i])
    {
      if i < n {
        assert m.issues[i].key != issue.key;
        assert Handled(m, start.owned, middle.owned, m.issues[i]);
      }
    }
  }

  lemma WriteKeepsState(issue: IssueSpec, m: Manifest, numbers: Numbers, w: Work, change: IssueChange, done: Work)
    requires IsWriteOf(change, issue, m, numbers, w)
    requires issue.key in done.owned && !done.owned[issue.key].isClosed
    ensures issue.key in w.owned ==> done.owned[issue.key].isClosed == w.owned[issue.key].isClosed
    ensures change.CreateIssue? ==> issue.key !in w.owned
  {
  }

  // ----- The second pass -----

  function AfterRelink(m: Manifest, n: nat, numbers: Numbers, start: Work): (Work, nat)
    requires n <= |m.issues|
  {
    Relink(m.issues[..n], m, numbers, MilestoneNumbers(start.st.milestones), start)
  }

  predicate IsRelinked(issue: IssueSpec, owned: Owned) {
    !issue.IsHistorical() && issue.key in owned && !owned[issue.key].isClosed
  }

  /** How many of the first records the second pass rewrites, judged before it starts. */
  function RelinkCount(m: Manifest, n: nat, numbers: Numbers, start: Work): nat
    requires n <= |m.issues|
  {
    if n == 0 then 0
    else RelinkCount(m, n - 1, numbers, start) + |RelinkOf(m.issues[n - 1], m, numbers, start)|
  }

  ghost predicate PassTwo(m: Manifest, n: nat, numbers: Numbers, start: Work, w: Work, writes: nat)
    requires n <= |m.issues|
  {
    && StateEvolves(m, start, w)
    && OwnedEvolves(start.owned, w.owned, KeysBefore(m, n))
    && w.owned.Keys == start.owned.Keys
    && writes == RelinkCount(m, n, numbers, start)
    && (forall i | 0 <= i < n && IsRelinked(m.issues[i], start.owned) ::
          Settled(w.owned[m.issues[i].key], m.issues[i], m, numbers))
  }

  lemma RelinkSplit(m: Manifest, n: nat, numbers: Numbers, start: Work)
    requires n < |m.issues|
    ensures var (before, writes) := AfterRelink(m, n, numbers, start);
      var change := RelinkOf(m.issues[n], m, numbers, before);
      AfterRelink(m, n + 1, numbers, start)
        == (if change == [] then before
            else ApplyIssue(change[0], MilestoneNumbers(start.st.milestones), before),
            writes + |change|)
  {
    hide ApplyIssue, RelinkOf, IsWriteOf, Settled;
    assert m.issues[..n + 1][..n] == m.issues[..n];
    var (before, writes) := AfterRelink(m, n, numbers, start);
    var change := RelinkOf(m.issues[n], m, numbers, before);
    RelinkIsWrite(m, m.issues[n], numbers, before);
    if change != [] {
      assert change == [] + [change[0]];
      ApplyIssuesAfter([], change[0], MilestoneNumbers(start.st.milestones), before);
    }
  }

  lemma RelinkIsWrite(m: Manifest, issue: IssueSpec, numbers: Numbers, w: Work)
    ensures var change := RelinkOf(issue, m, numbers, w);
      && |change| <= 1
      && (change != [] ==>
            && IsRelinked(issue, w.owned)
            && change[0].UpdateIssue?
            && IsWriteOf(change[0], issue, m, numbers, w))
      && (change == [] && IsRelinked(issue, w.owned) ==>
            Settled(w.owned[issue.key], issue, m, numbers))
  {
    hide DesiredOf, IssueDiffers;
  }

  lemma RelinkLooksAtOne(m: Manifest, issue: IssueSpec, numbers: Numbers, v: Work, w: Work)
    requires Lookup(v.owned, issue.key) == Lookup(w.owned, issue.key)
    ensures RelinkOf(issue, m, numbers, v) == RelinkOf(issue, m, numbers, w)
  {
    hide DesiredOf, IssueDiffers;
  }

  lemma {:induction false} PassTwoHolds(m: Manifest, n: nat, numbers: Numbers, start: Work)
    requires ValidManifest(m) && Consistent(start) && Resolves(m, start.st.milestones)
    requires n <= |m.issues|
    ensures PassTwo(m, n, numbers, start,
                    AfterRelink(m, n, numbers, start).0, AfterRelink(m, n, numbers, start).1)
  {
    hide ValidManifest, Resolves, Consistent, FrameHolds, RelinkOf, Settled, IsWriteOf;
    if n == 0 {
      NothingEvolves(m, start);
      assert m.issues[..0] == [];
    } else {
      PassTwoHolds(m, n - 1, numbers, start);
      PassTwoStep(m, n - 1, numbers, start);
    }
  }

  lemma PassTwoStep(m: Manifest, n: nat, numbers: Numbers, start: Work)
    requires ValidManifest(m) && Resolves(m, start.st.milestones)
    requires n < |m.issues|
    requires PassTwo(m, n, numbers, start,
                     AfterRelink(m, n, numbers, start).0, AfterRelink(m, n, numbers, start).1)
    ensures PassTwo(m, n + 1, numbers, start,
                    AfterRelink(m, n + 1, numbers, start).0, AfterRelink(m, n + 1, numbers, start).1)
  {
    hide Resolves, Consistent, FrameHolds, RelinkOf, Settled, IsWriteOf, ApplyIssue;
    var issue, middle, done :=
      m.issues[n], AfterRelink(m, n, numbers, start).0, AfterRelink(m, n + 1, numbers, start).0;
    var change := RelinkOf(issue, m, numbers, middle);
    KeysBeforeNext(m, n);
    RelinkSplit(m, n, numbers, start);
    RelinkIsWrite(m, issue, numbers, middle);
    RelinkLooksAtOne(m, issue, numbers, start, middle);
    if change != [] {
      WriteSettles(m, issue, numbers, middle, change[0]);
      WriteKeepsState(issue, m, numbers, middle, change[0], done);
      StateEvolvesOn(m, start, middle, done);
    }
    OwnedEvolvesOn(start.owned, middle.owned, done.owned, KeysBefore(m, n), issue.key);
    forall i | 0 <= i < n + 1 && IsRelinked(m.issues[i], start.owned)
      ensures Settled(done.owned[m.issues[i].key], m.issues[i], m, numbers)
    {
      if i < n {
        assert m.issues[i].key != issue.key;
      }
    }
    assert done.owned.Keys == middle.owned.Keys;
  }
}
