# TAM Forge, modelled and proved

Dafny models of the parts of TAM Forge whose correctness is hardest to see from the code, and
proofs of what those parts are for. `dafny verify dfyconfig.toml` checks the whole project.

The code that changes things step by step is modelled as methods and classes (the GitHub
repository, the cycle search, the distance table, the provisioned host, the backup directory,
the release site, the chunk walk); each method is tied to a function of its inputs or of the old
state, or states its property outright, and the main results are lemmas about those functions.
Code made of expressions (marker recognition, schema lowering, the test tree) is functions.

**The catalog synchronizer** (`Catalog`, `Markers`, `Rendering`, `GitHub`, `Planning`, `Applying`,
`CatalogPhase`, `IssuePhase`, `Convergence`, `Interruption`, `Reading`, `BodyReading`, `EndState`,
`Synchronizer`, `Validation`, `DependencyGraph`).
A manifest of labels, milestones and issues is compared with a repository and brought into it in
phases. Issue bodies link to each other by numbers that exist only after creation, so a second
pass renders every body again. Proved: planning after a run finds nothing to do, exactly when no
historical issue was missing before; what a run leaves alone; what each issue ends as; the exact
number of writes; that a run cut off between any two writes can simply be repeated; that every body
reads back as its record with the right number in every link; that a hidden marker is recognised in
every rendered body for every map of numbers; and that the dependency check accepts exactly the
manifests whose dependencies have no cycle.

**The word-error-rate scorer** (`EditDistance`, `Normalise`, `Report`). Distance is the least cost
over all edit scripts. The filled table and the greedy walk back through it are proved to find it
and, of the cheapest scripts, the first in the order of the walk's branches, which fixes the counts;
normalising is idempotent, and the aggregated report adds up and passes its own gates.

**The OpenAPI lowering** (`OpenApi`, `LoweringMeaning`). Both dialects get a meaning, the values a
schema accepts: numeric bounds as in JSON Schema Validation 2020-12 (sections 6.2.2 to 6.2.5),
`nullable` and flag bounds as in OpenAPI 3.0.3 (section 4.7.24), where `nullable: true` adds null to
the node. In the modelled fragment lowering never narrows a schema unless a merge makes a bound
strict, that exception is characterised exactly node by node, and lowering is exact where null is
written faithfully.

**Provisioning, backup, release switch** (`Provisioning`, `HostPlan`, `HostCommands`, `HostGate`,
`Backup`, `Deploy`). State machines over the single effects, where the point at which the machine
stops is an input. The results are about every such point, and for provisioning about every sequence
of failed, crashed, stopped and resumed runs. The plan's commands are read back word by word.

**The RIFF reader and the test gate** (`Riff`, `Xcresult`). The reader accepts exactly the files of
the form set out in chapter 2 of Multimedia Programming Interface and Data Specifications 1.0 and
misreads none; an accepted test tree has exactly the expected cases, for trees of any shape.

Five findings about the code, each kept as the code has it:

- A run that was allowed to create a missing historical issue leaves one that the next plan
  refuses, because it is open. `Convergence.RunConverges` says exactly when a run converges,
  `Convergence.MissingHistoryIsRefused` is the family of runs that do not. The tool itself never
  makes one: `sync_manifest` sets the flag for the offline client only, whose authorisation and
  writes raise (scripts/github/sync_issues.py:166-187), so it takes a direct call of
  `build_sync_plan` and `apply_sync_plan`.
- Merging a nullable `anyOf` can turn a plain bound beside it into a strict one, when the branch
  has an exclusive bound and the bound beside it is the tighter. `LoweringMeaning.AClashNarrows`
  is an instance, `LoweringMeaning.NarrowsExactlyOnAClash` the exact condition for one node whose
  inner schemas have no clash, in terms of the lowered branch, and
  `LoweringMeaning.NarrowsExactlyInTheSource` the same in terms of the schema as written.
- A failed install leaves its directory behind and a later rollback can select it.
  `Deploy.Site.Rollback` follows the code, `Deploy.RollbackServesAFailedInstall` is a family of
  uninterrupted runs that show it, `Deploy.EveryRollbackIsGood` the exact condition.
- The comment at scripts/ci/check_model_benchmark.py:195-199 asks for a reduction beyond
  measurement noise, yet the code compares term counts and substitutions without a margin.
  `Report.BothCanWin` has two runs that each win against the other, `Report.BothCanWinExactly` and
  `Report.ChosenInsideTheMargin` say exactly when.
- `HostContract.validate` lets a shared group be called root, and then the safety gate refuses the
  plan, taking the group for a user: `HostGate.RootGroupIsRefused`. `HostGate.PlanPassesExactly`
  has the exact condition.

## Model

| member | source | states |
|---|---|---|
| Markers.MarkerLineParses | scripts/github/sync_issues.py:859-878 | a printed marker parses back to its key and is one line |
| Markers.OwnerIsExact | scripts/github/sync_issues.py:863-878 | a body belongs to a key exactly when it opens with that key's marker line, up to a line break or its end, and the token stands in one place and no other; it is unmanaged exactly when the token is absent in any letter case |
| Markers.MarkedBodyIsOwned | scripts/github/sync_issues.py:863-878 | a marker line followed by any text free of the token is owned by the marker's key |
| Catalog.KeysFitMarkers | scripts/github/sync_issues.py:637-641 | every epic key and child key has the shape a marker can carry |
| Catalog.IndexOfFinds | scripts/github/sync_issues.py:691 | the lookup by key finds the one record with that key, and nothing exactly when there is none |
| Rendering.RenderIssueBody | scripts/github/sync_issues.py:881-935 | the loop that grows the list of lines computes the body specified by `Render`; `BodyReading.BodyReadsBack` says what that body holds |
| Rendering.RenderedBodyIsOwned | scripts/github/sync_issues.py:813-828 | for every map of issue numbers, the rendered body of a clean record is recognised as exactly that record's; filled-in numbers never make or span a second token |
| Rendering.RenderIgnoresOthers | scripts/github/sync_issues.py:892-907 | a body depends on the numbers of the issues it mentions and on no other |
| Rendering.RenderGrows | scripts/github/sync_issues.py:892-907 | a newly known number of a mentioned issue always changes the body: it gets strictly longer |
| Reading.LinkReads | scripts/github/sync_issues.py:898 | link text reads back as the number and the key it was made of: digits after `#`, a dash, the key; the bare key exactly where there is no number |
| Reading.ListedReads | scripts/github/sync_issues.py:893-896 | so does a listed child, together with its title |
| Reading.LinksRead | scripts/github/sync_issues.py:902-904 | a list of links reads back link by link, in order; an empty one as none |
| BodyReading.BodyReadsBack | scripts/github/sync_issues.py:886-935 | every body of a valid manifest is lines from which a reader that knows only labels and headings gets back marker, plan, task, privacy, routing, gate, triggers, acceptance and verification as the record has them, and every mentioned key with the very number it has, in manifest order |
| GitHub.Repository.CreateIssue | scripts/github/tests/test_sync_issues.py:55-61 | creating appends an open issue that holds the payload and returns it; its number is on no earlier issue |
| GitHub.Repository.UpdateIssue | scripts/github/tests/test_sync_issues.py:63-75 | the payload's fields of the issue with that number are overwritten; its number, its state and all other issues stay, and numbers stay distinct |
| GitHub.Repository.CreateLabel | scripts/github/tests/test_sync_issues.py:55-61 | the new label is appended, nothing else changes |
| GitHub.Repository.UpdateLabel | scripts/github/tests/test_sync_issues.py:63-75 | the label of that name is overwritten, nothing else changes |
| GitHub.Repository.CreateMilestone | scripts/github/tests/test_sync_issues.py:55-61 | the new milestone is open and appended; its number is on no earlier milestone |
| GitHub.Repository.UpdateMilestone | scripts/github/tests/test_sync_issues.py:63-75 | the milestone with that number is overwritten and open, numbers stay distinct |
| Planning.ScanIssues | scripts/github/sync_issues.py:970-984 | the loop computes the owner map, or the first invalid or duplicate marker with its numbers |
| Planning.ScanMaps | scripts/github/sync_issues.py:970-984 | the owner map holds every managed issue under its key, and nothing that is not in the repository |
| Planning.ScanIsExact | scripts/github/sync_issues.py:974-980 | with no malformed body, the scan succeeds exactly when no two issues claim one key |
| Planning.MalformedStopsScan | scripts/github/sync_issues.py:873-877 | a scan that succeeds met no malformed body |
| Planning.HistoricalCheckIsExact | scripts/github/sync_issues.py:986-996 | passes exactly when each historical child is closed, or missing where that is allowed |
| Planning.PlanSucceedsExactly | scripts/github/sync_issues.py:970-996 | planning succeeds exactly when no marker is malformed or claimed twice, and every historical child is closed and, unless it may be missing, there |
| Planning.BuildSyncPlan | scripts/github/sync_issues.py:953-1040 | the three loops compute the specified plan: the scan's error, the first historical problem, or the changes of all resources and the stale keys |
| Planning.PlanIssues | scripts/github/sync_issues.py:1019-1035 | the loop over the records lists the changes of each, in manifest order |
| Planning.LabelPlanIsExact | scripts/github/sync_issues.py:998-1008 | the label changes are a create for each label that is missing, an update for each whose colour, letter case aside, or description differs, and nothing else |
| Planning.MilestonePlanIsExact | scripts/github/sync_issues.py:1010-1017 | the milestone changes are a create for each title that is missing, an update with its number for each whose description differs or that is closed, and nothing else |
| Planning.StaleIsExact | scripts/github/sync_issues.py:1037-1039 | the stale keys are those that an issue claims and no record has |
| Planning.ScanErrorIsReal | scripts/github/sync_issues.py:974-980 | a refused scan names the number of a malformed issue, or a key and the numbers of two issues that both claim it |
| Planning.HistoryErrorIsReal | scripts/github/sync_issues.py:986-996 | a refusal over history names a historical record that is missing though it must not be, or whose issue is open |
| Planning.MilestoneTitleIsTheTitle | scripts/github/sync_issues.py:1019 | a record's milestone is sent under the title of the one catalog milestone with its key |
| Applying.WriteKeepsConsistency | scripts/github/sync_issues.py:1149-1158 | one issue write keeps the client's map equal to what a fresh scan of the repository would give, and an update hits the issue its key owns |
| Applying.ScanReplaces | scripts/github/sync_issues.py:1156-1157 | rewriting the issue a key owns, with a body of the same owner, changes the scan at that key only |
| Applying.WriteKeepsFrame | scripts/github/sync_issues.py:1149-1158 | one planned issue write preserves every issue that was there and adds only an issue of the catalog |
| CatalogPhase.LabelsSettle | scripts/github/sync_issues.py:1057-1061 | after the planned label changes every label of the catalog is there with its colour, letter case aside, and its description, although colours come back in lower case |
| CatalogPhase.MilestonesSettle | scripts/github/sync_issues.py:1064-1068 | after the planned milestone changes the milestone found under every title of the catalog is open and has the catalog's description |
| CatalogPhase.CatalogPhaseKeeps | scripts/github/sync_issues.py:1129-1132 | the first phase touches no issue, and no label or milestone outside the catalog |
| CatalogPhase.CatalogPhaseSettles | scripts/github/sync_issues.py:1129-1139 | after the first phase every label and milestone of the catalog is there as the catalog describes it, and every title an issue needs resolves to a number and back |
| IssuePhase.WrittenIsSettled | scripts/github/sync_issues.py:1084-1123 | an issue written with the wanted fields does not differ from what would be wanted next: the label rule is idempotent |
| IssuePhase.PlannedChange | scripts/github/sync_issues.py:1020-1035 | a record's change writes its wanted content, as a new issue exactly when none is owned, else to the open issue it owns; there is no change exactly when that issue is closed or already as wanted |
| IssuePhase.PassOneHolds | scripts/github/sync_issues.py:1149-1158 | invariant of the first pass over any prefix of the records: handled records are as the manifest wants with the numbers known at the start, others are as they were |
| IssuePhase.PassTwoHolds | scripts/github/sync_issues.py:1160-1182 | invariant of the second pass: rewritten records are as the manifest wants with all numbers, keys and numbers do not change |
| Convergence.FreshRepositoryHasAPlan | scripts/github/sync_issues.py:953-1040 | every valid manifest without history can be planned, and so run, on any repository without issues |
| Convergence.RunConverges | scripts/github/sync_issues.py:1126-1182 | planning again after a run succeeds with zero changes if and only if no historical child was missing before; a plan that refuses missing history always converges; the stale report stays |
| Convergence.MissingHistoryIsRefused | scripts/github/sync_issues.py:986-996 | every valid manifest with history, planned with missing history allowed and run on a repository without issues, leaves a repository that the next plan refuses |
| Convergence.HistoryCanBeRefused | scripts/github/sync_issues.py:986-996 | such a run exists: a manifest of one epic and its one historical child |
| Convergence.RunKeepsFrame | README.md:198-200 | nothing is deleted, closed or reopened; closed, unmanaged and stale issues are untouched; foreign labels stay; no key ends with two issues; labels and milestones outside the catalog are untouched |
| Convergence.EndMatchesManifest | scripts/github/sync_issues.py:1160-1182 | each record's issue, unless it is missing history, ends closed as it was, or open with the manifest's title and milestone, the body rendered with all final numbers, and exactly the manifest's labels plus the foreign labels it had |
| EndState.EndHoldsCatalog | scripts/github/sync_issues.py:1126-1139 | at the end of a run every label of the catalog is there with its colour and description, every milestone is there, open, with its description |
| EndState.EndReadsBack | scripts/github/sync_issues.py:1160-1182 | at the end of a run the issue of every open record, said of the repository alone: its body reads back as the record with a link to every mentioned issue by the number of the issue that has its marker; its milestone is the record's; its labels are exactly the record's, and of those it had before the status labels and those neither in the catalog nor in its families |
| Interruption.CutRunCanBeRepeated | scripts/github/sync_issues.py:1126-1182 | a run cut off between any two writes: what a run leaves alone is untouched, the next plan is refused over history alone, and with no historical child missing at the start it succeeds and running it leaves nothing to do |
| Interruption.LastPointIsTheEnd | scripts/github/sync_issues.py:1160-1182 | stopped after the last record, the repository is that of the whole run |
| Convergence.RunIsEconomical | scripts/github/sync_issues.py:1149-1182 | the writes are the planned ones plus one for each open record that mentions a newly created issue; without a create, the planned ones only |
| Convergence.RelinkIsForNewLinks | scripts/github/sync_issues.py:1166-1182 | the second pass rewrites a record exactly when it mentions an issue the first pass created |
| Synchronizer.WriteLabels | scripts/github/sync_issues.py:1129-1132 | the loop applies the planned label changes in order |
| Synchronizer.WriteMilestones | scripts/github/sync_issues.py:1129-1132 | the loop applies the planned milestone changes in order |
| Synchronizer.WriteIssues | scripts/github/sync_issues.py:1146-1158 | the loop applies the planned issue changes and records every answer under its key |
| Synchronizer.WriteLinks | scripts/github/sync_issues.py:1160-1182 | the second pass reaches the specified state and counts its writes |
| Synchronizer.ApplySyncPlan | scripts/github/sync_issues.py:1126-1182 | applying a plan leaves the repository in the specified end state and returns the number of writes made |
| Synchronizer.SyncManifest | scripts/github/sync_issues.py:1207-1225 | an apply without authorisation, a refused plan and a dry run write nothing; only the offline client, which is never authorised, plans with missing history allowed; after an applied plan, planning again is empty |
| Validation.CheckEpic | scripts/github/sync_issues.py:717-727 | accepts an epic exactly when each listed child exists, points back and shares the milestone; a rejection names a real defect |
| Validation.CheckChild | scripts/github/sync_issues.py:728-739 | accepts a child exactly when its epic lists it and it depends on other children only; a rejection names a real defect |
| Validation.CheckRelationships | scripts/github/sync_issues.py:705-739 | the checks between records accept exactly the manifests whose records are well related and use known labels and milestones; a rejection names a real defect |
| Validation.RelationsFormTree | scripts/github/sync_issues.py:716-733 | in an accepted manifest an epic lists a child exactly when the child names it, each child has exactly one epic, and the two share a milestone |
| Validation.GraphIsClosed | scripts/github/sync_issues.py:735-737 | every dependency of a child of an accepted manifest is a child again, so the search never meets an unknown key |
| Validation.GraphIsTheRecords | scripts/github/sync_issues.py:804 | the searched graph has exactly the children's keys, each with exactly the `depends_on` list of its record |
| Validation.CheckDependencies | scripts/github/sync_issues.py:763 | said of the records: passes exactly when no path of child keys, each next one in `depends_on` of the record before, ends where it starts; then every dependency of a child comes before it in an order of all children; a reported key starts such a path |
| DependencyGraph.CycleSearch.Visit | scripts/github/sync_issues.py:798-807 | terminates; returns a key on a real cycle, or finishes the key with its dependencies before it and leaves the visiting set as it was |
| DependencyGraph.FindCycle | scripts/github/sync_issues.py:793-810 | no cycle is reported exactly when the graph is acyclic, in which case an order of all keys with dependencies first is given; a reported key lies on a cycle |
| DependencyGraph.SortedIsAcyclic | scripts/github/sync_issues.py:793-810 | a graph whose keys can be put in such an order has no cycle |
| EditDistance.NeighboursAreClose | scripts/ci/check_model_benchmark.py:99-108 | neighbouring cells differ by at most one and diagonals do not fall: the reason equal words may take the diagonal without a minimum |
| EditDistance.NoScriptIsCheaper | scripts/ci/check_model_benchmark.py:99-108 | no edit script between two prefixes costs less than their cell |
| EditDistance.CellIsDistance | scripts/ci/check_model_benchmark.py:93-108 | every cell is the least cost over all edit scripts between its two prefixes |
| EditDistance.LastBranchInserts | scripts/ci/check_model_benchmark.py:126-128 | the walk's last branch is reached only with a hypothesis word left and for a real insertion |
| EditDistance.AlignmentFits | scripts/ci/check_model_benchmark.py:110-128 | the walk yields a real edit script whose cost is its corner cell and whose counts account for every word of both lists |
| EditDistance.ScoreIsOptimal | scripts/ci/check_model_benchmark.py:88-131 | the counts tally a cheapest script; insertions less deletions is the difference in length; only equal lists cost nothing |
| EditDistance.AlignmentIsFirst | scripts/ci/check_model_benchmark.py:112-128 | of all cheapest scripts between two prefixes the walk finds the one that is first in the order of its branches, from the last edit backwards |
| EditDistance.ScoreIsOfTheFirst | scripts/ci/check_model_benchmark.py:110-131 | the counts are those of the first of all cheapest scripts |
| EditDistance.FirstCheapestIsUnique | scripts/ci/check_model_benchmark.py:110-131 | there is only one such script, so the counts are determined |
| EditDistance.FillTable | scripts/ci/check_model_benchmark.py:93-108 | the nested loops fill every cell of the array as specified |
| EditDistance.FillRow | scripts/ci/check_model_benchmark.py:100-108 | the inner loop fills one row from the row above |
| EditDistance.WalkBack | scripts/ci/check_model_benchmark.py:110-128 | the loop terminates, stays in the table and returns the counts of the first of the cheapest edit scripts: read from the last edit backwards, keep before substitute before delete before insert |
| EditDistance.WordErrorRate | scripts/ci/check_model_benchmark.py:88-131 | refuses exactly the empty reference; else the counts are those of that first cheapest script and the rate is their sum over the reference length |
| Normalise.SplitUndoesJoin | scripts/ci/check_model_benchmark.py:148-149 | words without white space, joined with spaces, split back into themselves |
| Normalise.SpellingIsLetters | scripts/ci/check_model_benchmark.py:58-64 | every spelled number from 0 to 100 splits into words of letters only |
| Normalise.SpellingReadsBack | scripts/ci/check_model_benchmark.py:58-64 | the spelling of every number from 0 to 100 reads back as that number, by the value of its number words |
| Normalise.WordsBreak | scripts/ci/check_model_benchmark.py:75-82 | every character that is no letter and no digit separates words and vanishes |
| Normalise.WordsOfRun | scripts/ci/check_model_benchmark.py:75-82 | a run of ASCII letters and digits that is not a number up to 100 is one word, in lower case |
| Normalise.NormaliseText | scripts/ci/check_model_benchmark.py:75-82 | the loop computes the specified words |
| Normalise.WordsAreStable | scripts/ci/check_model_benchmark.py:75-82 | every word a text normalises to is one that normalising leaves alone |
| Normalise.NormalisingIsIdempotent | scripts/ci/check_model_benchmark.py:75-82 | for every text, normalising the joined words gives the same words, and splitting them does too |
| Normalise.DigitsEqualWords | scripts/ci/check_model_benchmark.py:67-70 | a number up to 100 in digits, leading zeros included, normalises to what its spelling does |
| Report.FoundIsBounded | scripts/ci/check_model_benchmark.py:144-152 | no more terms are found than expected, all of them exactly when every expected term occurs in the hypothesis |
| Report.PhraseIsThere | scripts/ci/check_model_benchmark.py:137-141 | a phrase is found exactly when it is not empty and the words are something, the phrase, and something |
| Report.CountIsOfTerms | scripts/ci/check_model_benchmark.py:144-152 | the counts are the numbers of terms whose words occur in all the lists |
| Report.StoredTermIsItsWords | scripts/ci/check_model_benchmark.py:160-165 | a stored term is searched for as exactly the words its raw text normalises to |
| Report.Aggregate | scripts/ci/check_model_benchmark.py:477-539 | the accumulating loop gives the model's figures, or the first refusal |
| Report.TotalsAddUp | scripts/ci/check_model_benchmark.py:489-517 | insertions less deletions is hypothesis words less reference words, kept, substituted and deleted words are all reference words, found terms do not exceed expected ones |
| Report.AcceptedRuns | scripts/ci/check_model_benchmark.py:497-505 | result files are accepted exactly when each names a passage of the script with words in it and carries the pinned file name and digest |
| Report.TotalsAreSums | scripts/ci/check_model_benchmark.py:507-513 | every count of a model is the sum of that count over its passages; expected terms are those of a reference, found ones those of a reference and its transcript |
| Report.TotalsMeasure | scripts/ci/check_model_benchmark.py:514-516 | the seconds are summed and of the peaks the greatest is kept |
| Report.FiguresAddUp | scripts/ci/check_model_benchmark.py:522-538 | in the reported figures the rate times the reference words is the sum of the errors, the recall times the expected terms the found ones, and insertions less deletions the difference in words |
| Report.RateIsWeightedMean | scripts/ci/check_model_benchmark.py:526 | a model's rate is the mean of its passage rates weighted by their reference lengths |
| Report.BothCanWin | scripts/ci/check_model_benchmark.py:203-227 | two runs over one passage whose models both pass the schema and the term counts and are each chosen over the other, whatever the pins and the terms |
| Report.BothCanWinExactly | scripts/ci/check_model_benchmark.py:203-227 | at most one of two models wins, whichever is called the candidate, if and only if one of them is better on none of the three measures |
| Report.DecisionNamesTheFirst | scripts/ci/check_model_benchmark.py:203-234 | the rule named is the first measure on which the candidate is better, the error rate counting from two points on; the base stays exactly when it is better on none |
| Report.ChosenInsideTheMargin | scripts/ci/check_model_benchmark.py:213-227 | a candidate whose rate is not better by the margin is chosen exactly when it finds more terms or substitutes fewer words |
| Report.BuildReport | scripts/ci/check_model_benchmark.py:542-568 | succeeds exactly when both models aggregate over the same passages; the report then holds each model's own figures, passes the pin, term-count and decision gates, and validates exactly when the measured figures are positive and there are at most six passages |
| OpenApi.NormalizeInPlace | scripts/ci/check_openapi.py:132-154 | the loop that pops and sets keys computes the specified bounds |
| OpenApi.BoundsKeepTheirMeaning | scripts/ci/check_openapi.py:132-154 | translated bounds let through exactly the same numbers; translating again changes nothing; other keys stay |
| LoweringMeaning.PropertiesLowerPointwise | scripts/ci/check_openapi.py:95-129 | a `properties` object is lowered property by property, whatever the properties are called |
| LoweringMeaning.UnionKeepsEveryKey | scripts/ci/check_openapi.py:111-121 | key by key: annotations beside a nullable union stay and win over those of the branch; a reference is kept whole in an `allOf`; any other branch gives its keys; the union is nullable |
| LoweringMeaning.PlainKeepsEveryKey | scripts/ci/check_openapi.py:122-129 | any other schema keeps each key but the bounds, lowered; a null type becomes the nullable flag |
| LoweringMeaning.LoweringNeverNarrows | scripts/ci/check_openapi.py:89-129 | every value a schema without clashing bounds accepts is accepted by its lowered form |
| LoweringMeaning.NarrowsExactlyOnAClash | scripts/ci/check_openapi.py:111-121 | a node whose inner schemas have no clash loses no value if and only if it does not itself accept the number at a bound that the merge makes strict, as read off the lowered branch |
| LoweringMeaning.NarrowsExactlyInTheSource | scripts/ci/check_openapi.py:111-121 | the same condition read off the schema before lowering, for a branch that is not nullable itself |
| LoweringMeaning.ClashIsRefused | scripts/ci/check_openapi.py:119-121 | the number at a clashing bound is refused after lowering |
| LoweringMeaning.AClashNarrows | scripts/ci/check_openapi.py:119-121 | an instance: three is accepted before lowering and refused after it |
| LoweringMeaning.LoweringIsExact | scripts/ci/check_openapi.py:89-129 | where null is written only as one branch of a two-branch `anyOf` among annotations and a reference stands alone, both forms accept the same values |
| LoweringMeaning.BareNullWidens | scripts/ci/check_openapi.py:122-128 | a bare null schema accepts null only, its lowered form accepts everything |
| Provisioning.KeysAreDistinct | infra/host/provision.py:338 | keys of different steps differ even when their descriptions agree |
| Provisioning.Host.Save | infra/host/provision.py:344-355 | recording the next step, on the evidence of its probe or its command, keeps the history of all runs sound |
| Provisioning.TakeStep | infra/host/provision.py:338-355 | one turn of the loop, cut off before any of its effects, event by event: a satisfied probe is followed by the record and by no command; the command of a probed step comes right after its failed probe; the step is recorded right after its command succeeded; a captured output is what the command printed |
| Provisioning.Apply | infra/host/provision.py:328-358 | keeps the history, in which every command of a probed step stands right after its failed probe; recorded steps stay; a run that is neither crashed nor stopped completes the plan or refuses at its failed command; it crashes only where the machine runs out, at any effect; of its commands only the last can be at or past `stop_after`; a complete plan is left alone |
| Provisioning.ApplyAgainAndAgain | infra/host/provision.py:328-358 | any sequence of runs, each failed, crashed or stopped as it may be, has a sound history |
| Provisioning.CheckpointIsSound | infra/host/provision.py:298-304 | in every history `completed` is a duplicate-free prefix of the plan's keys and `changed` a subsequence of it |
| Provisioning.RecordedIsNeverRepeated | infra/host/provision.py:339-340 | no probe or command of a recorded step is issued again |
| Provisioning.CommandsComeInOrder | infra/host/provision.py:337-355 | a command is issued only after each earlier step was recorded |
| Provisioning.SatisfiedProbesChangeNothing | infra/host/provision.py:341-353 | where every step is read-only or probed and all probes come back satisfied, nothing is recorded as changed |
| Provisioning.SatisfiedProbesIssueNothing | infra/host/provision.py:341-346 | where every probe comes back satisfied, no command of a probed step is ever issued |
| HostPlan.BuildPlan | infra/host/provision.py:123-277 | the appending loops build the specified list of steps |
| HostCommands.SetupIsAskedFor | infra/host/provision.py:126-168 | read from the words of the commands, the steps up to SSH ask in order for every package, the shared group, every service user in that group and without login, and every directory with its owner, its group and its mode; each probe asks about the same subject |
| HostCommands.DatabaseIsAskedFor | infra/host/provision.py:169-222 | between them PostgreSQL is set to listen on loopback, the database is created, and every role is created without the rights of a superuser, of creating databases and of creating roles, behind a probe for that role |
| HostCommands.FirewallIsAskedFor | infra/host/provision.py:223-277 | the rest asks to open port 22 to the contract's source, to open 80 and 443, to close every loopback port and to turn the firewall on, each behind a probe for the same; two read-only steps end the plan |
| HostPlan.EveryStepIsReadOnlyOrProbed | infra/host/provision.py:123-277 | for every contract each planned step is read-only or guarded by a probe |
| HostPlan.OnlyOneStepEnables | infra/host/provision.py:223-267 | exactly one step turns the firewall on, and no step that opens it comes before SSH is allowed |
| HostPlan.FirewallWaitsForSsh | infra/host/provision.py:285-289 | over all runs, the enabling command is issued only after the step that allows SSH was recorded |
| HostPlan.ReadyHostIsNotChanged | infra/host/provision.py:336-358 | on a host where every probe is satisfied the plan records no change and issues no command but those of the read-only steps without a probe |
| HostPlan.LoopbackStaysClosed | infra/host/provision.py:290-292 | no plan of a valid contract has the command that opens a loopback port, and the opened ports are the two web ports in order |
| HostGate.AssertPlanIsSafe | infra/host/provision.py:280-295 | the loops accept exactly the plans that mention no forbidden host, allow SSH no later than they enable the firewall, spell out no loopback port as allowed and create no user with root; a rejection names what is so |
| HostGate.PlanPassesExactly | infra/host/provision.py:280-295 | the plan of a valid contract passes if and only if no forbidden host is mentioned, no user is put into a shared group called root, and the commands up to SSH do not themselves spell out that a loopback port is allowed |
| HostGate.RootGroupIsRefused | infra/host/provision.py:293-295 | a contract that is valid, has users and calls the shared group root has a plan the gate refuses; there is such a contract |
| HostGate.AllowedInHeadOnly | infra/host/provision.py:290-292 | the substring search finds a loopback port allowed in the whole text exactly when it finds it in the commands up to SSH: the opened, denied and enabling commands never match, across their boundaries either |
| HostGate.PlanAllowsSshFirst | infra/host/provision.py:285-289 | in the plan of every valid contract the first firewall step that allows SSH comes no later than the first that enables |
| Backup.Verify | infra/backup/encrypted.py:175-195 | the loop returns the manifest or the first problem in record order |
| Backup.VerifiedIsExact | infra/backup/encrypted.py:175-195 | verification succeeds exactly when there is a readable manifest and every record is present and matches, with the key also in plaintext |
| Backup.ProblemIsReal | infra/backup/encrypted.py:181-194 | a refusal names the first record that is out of order and what is wrong with it; all before it are in order |
| Backup.Directory.Write | infra/backup/encrypted.py:148 | a plain write; one cut off leaves the file as it was or any first part of the content |
| Backup.Directory.Replace | infra/backup/encrypted.py:149 | one move, all else unchanged |
| Backup.StorePayload | infra/backup/encrypted.py:143-160 | a payload is on disk under its name as its record says exactly when the machine made all three effects; no other file changes |
| Backup.MakeBackup | infra/backup/encrypted.py:114-172 | the outcome for every point at which the machine stops: refused for the first of wrong key length, a directory with content, a moment without time zone and an empty dump, changing nothing; no manifest unless the backup was published, which never happens to one of credential shape; the published manifest verifies with and without the key, gives back the dump, and its two records describe the two files: names, nonces, both lengths, both digests, and what each decrypts to |
| Backup.PublishedIsSound | infra/backup/encrypted.py:198-202 | with all payloads stored, a published manifest verifies and `decrypt_dump` returns the bytes of the dump |
| Backup.VerifiedIsUntouched | infra/backup/encrypted.py:184-187 | with the manifest as published, verifying without the key succeeds exactly when every ciphertext is the one written or a different one found to have its digest; without such a collision the dump comes back |
| Deploy.EarlierComesFirst | infra/host/deploy.py:29 | of two release ids the one with the earlier moment sorts first, whatever its commit |
| Deploy.Site.SwitchTo | infra/host/deploy.py:111-125 | stopped after any number of effects, the site is in the state that the sequence of effects has there; it is stopped exactly when there are more |
| Deploy.SwitchIsAtomic | infra/host/deploy.py:111-125 | wherever a switch stops, the link is the old or the new one, the releases are unchanged, and a unit runs what it ran or, once the link has moved, the new release |
| Deploy.SwitchCompletes | infra/host/deploy.py:111-125 | an uninterrupted switch serves the release with each of the five units restarted on it and leaves no temporary link |
| Deploy.Site.Install | infra/host/deploy.py:82-126 | stopped after any number of effects, the site is in the state that the sequence of effects has there; the outcome is exactly determined by the old state, the exit codes and that number |
| Deploy.InstallIsSafe | infra/host/deploy.py:82-126 | wherever an install stops, `current` denotes the old release or this one, unpacked and migrated without error; other directories stay; a good release stays served |
| Deploy.InstallCompletes | infra/host/deploy.py:82-126 | uninterrupted, a new id with two zero exit codes is served by every unit; anything else is refused for what went wrong, with `current` as it was and, for a new id, its directory left behind |
| Deploy.Site.Rollback | infra/host/deploy.py:138-163 | refuses in the code's order, else switches to the release before the current one; state and outcome are exactly determined for every number of effects |
| Deploy.PreviousIsGreatest | infra/host/deploy.py:142-149 | sorting, filtering and taking the last gives the greatest directory strictly below the current one, for any listing order, and nothing exactly when none is below |
| Deploy.DescentVisitsAllBelow | infra/host/deploy.py:142-149 | the descent that repeated rollbacks go through has every directory below once, strictly descending, and nothing below its end |
| Deploy.Site.RollbackUntilRefused | infra/host/deploy.py:138-163 | uninterrupted rollbacks visit exactly the descent below the first current release, end at its bottom and are refused there |
| Deploy.RollbackServes | infra/host/deploy.py:138-163 | after an uninterrupted rollback a good release is served exactly when the target was unpacked and migrated without error |
| Deploy.RollbackUndoesInstall | infra/host/deploy.py:142-149 | after a new release, a rollback returns to the one served before exactly when that is the greatest directory below the new id |
| Deploy.LatestInstallRollsBack | infra/host/deploy.py:142-149 | with well-formed ids, if the new release is the latest and the one served before the latest of the others, a rollback returns to it |
| Deploy.EveryRollbackIsGood | infra/host/deploy.py:138-163 | every release that rolling back can come to was unpacked and migrated exactly when no failed install left its directory below the current one |
| Deploy.RollbackServesAFailedInstall | infra/host/deploy.py:94-110 | on an empty site, of any three installs in order, none interrupted, the second fails to unpack: rolling back the third serves the second, a bare directory |
| Riff.SamplesReadBack | scripts/dev/benchmark_whisper_models.swift:108-112 | little-endian samples decode to what was encoded |
| Riff.SizeReadsBack | scripts/dev/benchmark_whisper_models.swift:74-78 | a four-byte little-endian size reads back |
| Riff.ReadCanonicalWAVSamples | scripts/dev/benchmark_whisper_models.swift:65-113 | the walk terminates, reads in bounds and returns the specified samples or the specified error |
| Riff.FileReadsBack | scripts/dev/benchmark_whisper_models.swift:84-112 | any word-aligned chunks, then the samples, then anything: exactly the samples are read |
| Riff.ReadingIsExact | scripts/dev/benchmark_whisper_models.swift:65-113 | samples are read from a file if and only if it is of that form with those samples |
| Riff.Derive | scripts/dev/benchmark_whisper_models.swift:142-152 | the slicing loop hands on the specified pieces |
| Riff.PiecesAreTheInput | scripts/dev/benchmark_whisper_models.swift:144-152 | the payloads put together are the encoded input, `sampleStart` is the running offset, all pieces but the last are one second long |
| Xcresult.PlacesAreTheCases | scripts/ci/check_native_xcresult.py:40-46 | the flattened list and the places of test cases in the tree match one to one, for trees of any shape |
| Xcresult.Pigeonhole | scripts/ci/check_native_xcresult.py:68-75 | as many names as expected and none missing is the same as no duplicate, no unnamed case and no extra name |
| Xcresult.AcceptedByList | scripts/ci/check_native_xcresult.py:49-83 | a report is accepted exactly when the summary is clean and the list of cases has each expected name once, all passed |
| Xcresult.AcceptedIsExact | scripts/ci/check_native_xcresult.py:49-83 | a report is accepted exactly when the summary is clean, each expected test has one place in the tree and only one, and every test case anywhere is expected, named and passed |

## Left out

- Synchronizer.ApplySyncPlan: stated for a plan built from the same repository with no other writer in between, which is how `sync_manifest` calls it.
- Synchronizer.SyncManifest: the guards inside `preflight_apply` and the loading of the manifest are not modelled; whether the client is authorised is an input, and the manifest is one that validation accepted.
- GitHub.Repository.CreateIssue: numbers come from a counter, so they are never reused; the test double takes the greatest number plus one.
- GitHub.Repository.CreateLabel: label names are compared exactly, GitHub ignores case; colours are taken to come back in lower case, which the test double does not do, and missing bodies as empty ones.
- GitHub.Repository.UpdateIssue: an update keeps the state, as GitHub does; the test double opens the issue. A number that no issue has is never updated and is excluded.
- GitHub.Repository.UpdateLabel: a name that no label has changes nothing, where the test double raises; the planner never asks for it.
- GitHub.Repository.UpdateMilestone: a number that no milestone has changes nothing, where the test double raises; the planner never asks for it.
- Planning.BuildSyncPlan: the change list is kept apart by resource and label lists are sets, so the sorted order of labels and of the stale report is not stated.
- Markers.OwnerIsExact: reserved content is modelled by lower-casing; the code rejects by case folding, which rejects at least as much.
- Rendering.RenderedBodyIsOwned: the strings that reach a body are required to be free of the token; field names of the manifest, which never reach one, are not modelled.
- Validation.CheckRelationships: YAML parsing, field and type checks, catalog counts and content-quality checks are not modelled.
- DependencyGraph.FindCycle: which key of a cycle is reported depends on the order of the records and is not stated.
- Normalise.NormaliseText: Python refuses to read a number of more than 4300 digits, so the code raises on such a token, which the model reads by its value; `Normalise.NormalisingIsIdempotent` holds of the code for texts without one.
- EditDistance.WordErrorRate: rates are real numbers, rounding is not modelled.
- Report.BuildReport: file loading, the wording of the decision, the version and machine tokens and the privacy scan are not modelled; sums and the margin are real numbers.
- LoweringMeaning.LoweringNeverNarrows: the fragment is type, bounds, properties, items, anyOf, allOf and opaque references; `not`, `oneOf`, `required`, `enum` and the rest count as annotations.
- LoweringMeaning.LoweringIsExact: the keys beside a nullable `anyOf` are annotations and a reference stands alone, because the merge lets the keys beside it override the branch.
- OpenApi.NormalizeInPlace: numbers are real numbers, so the distinction between integers and floats is not modelled.
- Provisioning.Apply: the checkpoint file is written whole or not at all; the code writes it in place. That a satisfied probe tells the truth about the host is not claimed. `stop_after` bounds commands, not steps, because satisfied and recorded steps pass it by.
- Provisioning.Host.Save: what `captured` holds is stated for one turn, not over whole histories, and the provisioning rollback is not modelled.
- BodyReading.BodyReadsBack: the reader is given the lines that were joined; a value that itself holds a line break is read back from its line in that list, not from the text split again.
- Interruption.CutRunCanBeRepeated: a single request is made whole or not at all, and nobody else writes between the runs.
- HostPlan.BuildPlan: reading and gating the target, and the other rules of a contract than its ports, are not modelled.
- HostGate.AssertPlanIsSafe: which of several forbidden hosts is named depends on the order of a set and is not stated.
- Backup.MakeBackup: key generation, AES-GCM and SHA-256 are abstract functions with a round-trip law; nonces are given; the configuration keys come sorted; a manifest reads back as it was written.
- Backup.Verify: the restore drill and its measurements are not modelled.
- Deploy.Site.Install: the preflight gates and the health check after a switch are not modelled; that a restarted unit comes up is not claimed, because the code does not look.
- Deploy.Site.Rollback: release directories are plain directories, not links to elsewhere, and none is removed by hand.
- Riff.ReadCanonicalWAVSamples: reading the file is not modelled.
- Riff.Derive: `ASRAudioDeriver` is not part of this model; the pieces handed to it are.
- Xcresult.AcceptedIsExact: names and results that are not strings are not modelled.
- `infra/gastos`, the evidence and demo scripts, the bundle, repository-policy, compose, parity-fixture and recording checks and the task-map conversion: they would add only easier members.
