/** The body an issue is given, and why its owner can always be read back from it. */
module Rendering {
  import opened Wrappers
  import opened Text
  import opened Markers
  import opened Catalog

  type Numbers = map<string, nat>

  // ----- Headings -----

  const CHILD_ISSUES := "## Child issues"
  const EXECUTION_ROUTING := "## Execution routing"
  const DISPATCH_GATE := "**Dispatch gate:**"
  const ESCALATION_TRIGGERS := "**Escalation triggers:**"
  const ACCEPTANCE_CRITERIA := "## Acceptance criteria"
  const VERIFICATION := "## Verification"
  const PLAN := "**Plan:**"
  const TASK := "**Task:**"
  const PRIVACY_IMPACT := "**Privacy impact:**"
  const PARENT_EPIC := "**Parent epic:**"
  const DEPENDS_ON := "**Depends on:**"
  const STATUS := "**Status:**"
  const OWNER := "**Owner:**"
  const MODEL_EFFORT := "**Model / effort:**"
  const REASON := "**Reason:**"
  const EMPTY := ""

  // ----- The lines of a body -----

  /** A link to an issue: its key, behind its number once that is known. */
  function Reference(key: string, numbers: Numbers): string {
    if key in numbers then "#" + Decimal(numbers[key]) + " — " + key else key
  }

  function TitleOf(m: Manifest, key: string): string {
    match IndexOf(m.issues, key)
    case Some(i) => IndexOfFinds(m.issues, key); m.issues[i].title
    case None => ""  // a validated manifest lists every child it names
  }

  function Labelled(field: string, value: string): string {
    field + " " + value
  }

  function Checkbox(item: string): string {
    "- [ ] " + item
  }

  function Bullet(item: string): string {
    "- " + item
  }

  function Quoted(item: string): string {
    "`" + item + "`"
  }

  function ChildLine(m: Manifest, key: string, numbers: Numbers): string {
    Checkbox(Labelled(Reference(key, numbers), TitleOf(m, key)))
  }

  function ChildLines(m: Manifest, keys: seq<string>, numbers: Numbers): seq<string> {
    seq(|keys|, i requires 0 <= i < |keys| => ChildLine(m, keys[i], numbers))
  }

  function References(keys: seq<string>, numbers: Numbers): seq<string> {
    seq(|keys|, i requires 0 <= i < |keys| => Reference(keys[i], numbers))
  }

  function DependsLine(references: seq<string>): string {
    Labelled(DEPENDS_ON, if references == [] then "None" else Join(references, ", "))
  }

  function Checkboxes(items: seq<string>): seq<string> {
    seq(|items|, i requires 0 <= i < |items| => Checkbox(items[i]))
  }

  function Bullets(items: seq<string>): seq<string> {
    seq(|items|, i requires 0 <= i < |items| => Bullet(items[i]))
  }

  function QuotedAll(items: seq<string>): seq<string> {
    seq(|items|, i requires 0 <= i < |items| => Quoted(items[i]))
  }

  function HeadLines(issue: IssueSpec): seq<string> {
    [EMPTY,
     Labelled(PLAN, Quoted(issue.plan)),
     Labelled(TASK, issue.task),
     Labelled(PRIVACY_IMPACT, issue.privacyImpact),
     EMPTY]
  }

  function ParentLine(issue: IssueSpec, numbers: Numbers): string {
    Labelled(PARENT_EPIC, if issue.epic.Some? then Reference(issue.epic.value, numbers) else "")
  }

  function LinkLines(issue: IssueSpec, m: Manifest, numbers: Numbers): seq<string> {
    if issue.IsEpic() then
      [CHILD_ISSUES] + ChildLines(m, issue.children, numbers)
    else
      [ParentLine(issue, numbers), DependsLine(References(issue.dependsOn, numbers))]
  }

  function GateLines(gate: seq<string>): seq<string> {
    [DISPATCH_GATE] + Bullets(gate)
  }

  function RoutingFields(e: Execution): seq<string> {
    match e
    case Executable(owner, model, effort, reason, _, _) =>
      [Labelled(STATUS, "executable"),
       Labelled(OWNER, owner),
       Labelled(MODEL_EFFORT, Labelled(Labelled(model, "/"), effort)),
       Labelled(REASON, reason)]
    case Deferred(reason, _) =>
      [Labelled(STATUS, "deferred"), Labelled(REASON, reason)]
    case Historical(reason) =>
      [Labelled(STATUS, "historical"), Labelled(REASON, reason)]
  }

  function RoutingLists(e: Execution): seq<string> {
    match e
    case Executable(_, _, _, _, gate, triggers) =>
      GateLines(gate) + ([ESCALATION_TRIGGERS] + Bullets(triggers))
    case Deferred(_, gate) => if gate == [] then [] else GateLines(gate)
    case Historical(_) => []
  }

  function RoutingLines(e: Execution): seq<string> {
    Section(EXECUTION_ROUTING, RoutingFields(e) + RoutingLists(e))
  }

  function TailLines(issue: IssueSpec): seq<string> {
    (if !issue.IsEpic() && issue.execution.Some? then RoutingLines(issue.execution.value) else [])
    + Section(ACCEPTANCE_CRITERIA, Checkboxes(issue.acceptance))
    + Section(VERIFICATION, Bullets(QuotedAll(issue.verification)))
  }

  function Section(heading: string, lines: seq<string>): seq<string> {
    [EMPTY] + ([heading] + lines)
  }

  /** The lines under the marker. */
  function BelowLines(issue: IssueSpec, m: Manifest, numbers: Numbers): seq<string> {
    HeadLines(issue) + LinkLines(issue, m, numbers) + TailLines(issue)
  }

  function BodyLines(issue: IssueSpec, m: Manifest, numbers: Numbers): seq<string> {
    [MarkerLine(issue.key)] + BelowLines(issue, m, numbers)
  }

  function Render(issue: IssueSpec, m: Manifest, numbers: Numbers): string {
    Join(BodyLines(issue, m, numbers), "\n") + "\n"
  }

  /** `render_issue_body`, which grows one list of lines. */
  method RenderIssueBody(issue: IssueSpec, m: Manifest, numbers: Numbers) returns (body: string)
    ensures body == Render(issue, m, numbers)
  {
    hide HeadLines, TailLines, MarkerLine, ParentLine, DependsLine, ChildLines, References, Join, Labelled;
    var lines := [MarkerLine(issue.key)] + HeadLines(issue);
    if issue.IsEpic() {
      var links := ChildList(m, issue.children, numbers);
      lines := lines + ([CHILD_ISSUES] + links);
    } else {
      var dependencies := DependencyList(issue.dependsOn, numbers);
      lines := lines + [ParentLine(issue, numbers), DependsLine(dependencies)];
    }
    lines := lines + TailLines(issue);
    assert lines == BodyLines(issue, m, numbers);
    body := Join(lines, "\n") + "\n";
  }

  method ChildList(m: Manifest, keys: seq<string>, numbers: Numbers) returns (lines: seq<string>)
    ensures lines == ChildLines(m, keys, numbers)
  {
    lines := [];
    for c := 0 to |keys|
      invariant |lines| == c
      invariant forall i | 0 <= i < c :: lines[i] == ChildLine(m, keys[i], numbers)
    {
      lines := lines + [ChildLine(m, keys[c], numbers)];
    }
  }

  method DependencyList(keys: seq<string>, numbers: Numbers) returns (links: seq<string>)
    ensures links == References(keys, numbers)
  {
    links := [];
    for d := 0 to |keys|
      invariant |links| == d
      invariant forall i | 0 <= i < d :: links[i] == Reference(keys[i], numbers)
    {
      links := links + [Reference(keys[d], numbers)];
    }
  }

  // ----- Every line but the first is clean -----

  lemma CleanReference(key: string, numbers: Numbers)
    requires Clean(key)
    ensures Clean(Reference(key, numbers))
  {
    if key in numbers {
      var number := "#" + Decimal(numbers[key]);
      CleanWithoutHyphen(number);
      CleanWithoutHyphen("—");
      CleanLabelled("—", key);
      CleanLabelled(number, Labelled("—", key));
      assert Reference(key, numbers) == Labelled(number, Labelled("—", key));
    }
  }

  lemma CleanLabelled(field: string, value: string)
    requires Clean(field) && Clean(value)
    ensures Clean(Labelled(field, value))
  {
    CleanAcross(field, ' ', value);
    assert Labelled(field, value) == field + [' '] + value;
  }

  lemma CleanField(field: string, value: string)
    requires '-' !in field && Clean(value)
    ensures Clean(Labelled(field, value))
  {
    CleanWithoutHyphen(field);
    CleanLabelled(field, value);
  }

  lemma CleanBullet(item: string)
    requires Clean(item)
    ensures Clean(Bullet(item))
  {
    ShortIsClean("-");
    CleanLabelled("-", item);
    assert Bullet(item) == Labelled("-", item);
  }

  lemma CleanCheckbox(item: string)
    requires Clean(item)
    ensures Clean(Checkbox(item))
  {
    CleanWithoutHyphen("[");
    CleanWithoutHyphen("]");
    CleanLabelled("]", item);
    CleanLabelled("[", Labelled("]", item));
    CleanBullet(Labelled("[", Labelled("]", item)));
    assert Checkbox(item) == Bullet(Labelled("[", Labelled("]", item)));
  }

  lemma CleanQuoted(item: string)
    requires Clean(item)
    ensures Clean(Quoted(item))
  {
    CleanWithoutHyphen("");
    CleanAcross(item, '`', "");
    CleanAcross("", '`', item + ['`'] + "");
    assert Quoted(item) == "" + ['`'] + (item + ['`'] + "");
  }

  lemma CleanBullets(items: seq<string>)
    requires AllClean(items)
    ensures AllClean(Bullets(items)) && AllClean(Checkboxes(items)) && AllClean(QuotedAll(items))
  {
    forall i | 0 <= i < |items|
      ensures Clean(Bullet(items[i])) && Clean(Checkbox(items[i])) && Clean(Quoted(items[i]))
    {
      CleanBullet(items[i]);
      CleanCheckbox(items[i]);
      CleanQuoted(items[i]);
    }
  }

  lemma CleanTitle(m: Manifest, key: string)
    requires ValidIssues(m)
    ensures Clean(TitleOf(m, key))
  {
    IndexOfFinds(m.issues, key);
    CleanWithoutHyphen("");
    match IndexOf(m.issues, key)
    case Some(i) => assert IssueIsClean(m.issues[i]);
    case None =>
  }

  lemma CleanHead(issue: IssueSpec)
    requires IssueIsClean(issue)
    ensures AllClean(HeadLines(issue))
  {
    CleanWithoutHyphen("");
    CleanQuoted(issue.plan);
    CleanField(PLAN, Quoted(issue.plan));
    CleanField(TASK, issue.task);
    CleanField(PRIVACY_IMPACT, issue.privacyImpact);
  }

  lemma CleanLinks(issue: IssueSpec, m: Manifest, numbers: Numbers)
    requires ValidIssues(m) && IssueIsClean(issue)
    ensures AllClean(LinkLines(issue, m, numbers))
  {
    if issue.IsEpic() {
      CleanChildren(m, issue.children, numbers);
      CleanHeading(CHILD_ISSUES, ChildLines(m, issue.children, numbers));
    } else {
      CleanParent(issue, numbers);
      CleanDepends(issue.dependsOn, numbers);
    }
  }

  lemma CleanChildren(m: Manifest, keys: seq<string>, numbers: Numbers)
    requires ValidIssues(m) && AllClean(keys)
    ensures AllClean(ChildLines(m, keys, numbers))
  {
    forall i | 0 <= i < |keys|
      ensures Clean(ChildLine(m, keys[i], numbers))
    {
      CleanChild(m, keys[i], numbers);
    }
  }

  lemma CleanChild(m: Manifest, key: string, numbers: Numbers)
    requires ValidIssues(m) && Clean(key)
    ensures Clean(ChildLine(m, key, numbers))
  {
    CleanReference(key, numbers);
    CleanTitle(m, key);
    CleanLabelled(Reference(key, numbers), TitleOf(m, key));
    CleanCheckbox(Labelled(Reference(key, numbers), TitleOf(m, key)));
  }

  lemma CleanParent(issue: IssueSpec, numbers: Numbers)
    requires IssueIsClean(issue)
    ensures Clean(ParentLine(issue, numbers))
  {
    CleanWithoutHyphen("");
    if issue.epic.Some? {
      CleanReference(issue.epic.value, numbers);
    }
    CleanField(PARENT_EPIC,
      if issue.epic.Some? then Reference(issue.epic.value, numbers) else "");
  }

  lemma CleanDepends(keys: seq<string>, numbers: Numbers)
    requires AllClean(keys)
    ensures Clean(DependsLine(References(keys, numbers)))
  {
    var links := References(keys, numbers);
    forall i | 0 <= i < |links|
      ensures Clean(links[i])
    {
      CleanReference(keys[i], numbers);
    }
    CleanJoin(links, ", ");
    CleanWithoutHyphen("None");
    CleanField(DEPENDS_ON, if links == [] then "None" else Join(links, ", "));
  }

  lemma CleanGate(gate: seq<string>)
    requires AllClean(gate)
    ensures AllClean(GateLines(gate))
  {
    CleanBullets(gate);
    CleanHeading(DISPATCH_GATE, Bullets(gate));
  }

  lemma CleanHeading(heading: string, lines: seq<string>)
    requires '-' !in heading && AllClean(lines)
    ensures AllClean([heading] + lines)
  {
    CleanWithoutHyphen(heading);
  }

  lemma CleanConcat(a: seq<string>, b: seq<string>)
    requires AllClean(a) && AllClean(b)
    ensures AllClean(a + b)
  {
  }

  lemma CleanRouting(e: Execution)
    requires ExecutionIsClean(e)
    ensures AllClean(RoutingLines(e))
  {
    CleanRoutingFields(e);
    CleanRoutingLists(e);
    CleanConcat(RoutingFields(e), RoutingLists(e));
    CleanSection(EXECUTION_ROUTING, RoutingFields(e) + RoutingLists(e));
  }

  lemma CleanRoutingFields(e: Execution)
    requires ExecutionIsClean(e)
    ensures AllClean(RoutingFields(e))
  {
    CleanField(REASON, e.reason);
    match e
    case Executable(owner, model, effort, _, _, _) =>
      CleanStatus("executable");
      CleanField(OWNER, owner);
      CleanModel(model, effort);
    case Deferred(_, _) => CleanStatus("deferred");
    case Historical(_) => CleanStatus("historical");
  }

  lemma CleanRoutingLists(e: Execution)
    requires ExecutionIsClean(e)
    ensures AllClean(RoutingLists(e))
  {
    match e
    case Executable(_, _, _, _, gate, triggers) =>
      CleanGate(gate);
      CleanBullets(triggers);
      CleanHeading(ESCALATION_TRIGGERS, Bullets(triggers));
      CleanConcat(GateLines(gate), [ESCALATION_TRIGGERS] + Bullets(triggers));
    case Deferred(_, gate) => CleanGate(gate);
    case Historical(_) =>
  }

  lemma CleanStatus(status: string)
    requires '-' !in status
    ensures Clean(Labelled(STATUS, status))
  {
    CleanWithoutHyphen(status);
    CleanField(STATUS, status);
  }

  lemma CleanModel(model: string, effort: string)
    requires Clean(model) && Clean(effort)
    ensures Clean(Labelled(MODEL_EFFORT, Labelled(Labelled(model, "/"), effort)))
  {
    CleanWithoutHyphen("/");
    CleanLabelled(model, "/");
    CleanLabelled(Labelled(model, "/"), effort);
    CleanField(MODEL_EFFORT, Labelled(Labelled(model, "/"), effort));
  }

  lemma CleanTail(issue: IssueSpec)
    requires IssueIsClean(issue)
    ensures AllClean(TailLines(issue))
  {
    CleanBullets(issue.acceptance);
    CleanBullets(issue.verification);
    CleanBullets(QuotedAll(issue.verification));
    if !issue.IsEpic() && issue.execution.Some? {
      CleanRouting(issue.execution.value);
    }
    var routing := if !issue.IsEpic() && issue.execution.Some? then RoutingLines(issue.execution.value) else [];
    var acceptance, verification := Checkboxes(issue.acceptance), Bullets(QuotedAll(issue.verification));
    CleanSection(ACCEPTANCE_CRITERIA, acceptance);
    CleanSection(VERIFICATION, verification);
    CleanConcat(routing, Section(ACCEPTANCE_CRITERIA, acceptance));
    CleanConcat(routing + Section(ACCEPTANCE_CRITERIA, acceptance), Section(VERIFICATION, verification));
  }

  lemma CleanSection(heading: string, lines: seq<string>)
    requires '-' !in heading && AllClean(lines)
    ensures AllClean(Section(heading, lines))
  {
    CleanHeading(heading, lines);
    CleanHeading(EMPTY, [heading] + lines);
  }

  // ----- The owner of a rendered body -----

  lemma {:induction false} JoinHead(first: string, rest: seq<string>, sep: string)
    requires rest != []
    ensures Join([first] + rest, sep) == first + sep + Join(rest, sep)
  {
    var all := [first] + rest;
    assert all[..|all| - 1] == [first] + rest[..|rest| - 1];
    if |rest| > 1 {
      JoinHead(first, rest[..|rest| - 1], sep);
    } else {
      assert all[..1] == [first];
    }
  }

  /** Marker round trip: whatever numbers the links are filled in with, the body rendered for
      a record of a valid manifest is read back as owned by exactly that record. Accepting the
      body under the empty number map is the special case `numbers == map[]`, so that check
      never refuses a manifest the reserved-content and key checks let through. */
  lemma RenderedBodyIsOwned(issue: IssueSpec, m: Manifest, numbers: Numbers)
    requires ValidIssues(m) && issue in m.issues
    ensures OwnerOf(Render(issue, m, numbers)) == Managed(issue.key)
  {
    CleanBelow(issue, m, numbers);
    KeysFitMarkers(issue.key);
    OwnedBody(issue.key, BelowLines(issue, m, numbers));
  }

  lemma CleanBelow(issue: IssueSpec, m: Manifest, numbers: Numbers)
    requires ValidIssues(m) && IssueIsClean(issue)
    ensures AllClean(BelowLines(issue, m, numbers))
  {
    CleanHead(issue);
    CleanLinks(issue, m, numbers);
    CleanTail(issue);
    CleanConcat(HeadLines(issue), LinkLines(issue, m, numbers));
    CleanConcat(HeadLines(issue) + LinkLines(issue, m, numbers), TailLines(issue));
  }

  lemma OwnedBody(key: string, rest: seq<string>)
    requires IsMarkerKey(key) && Clean(key) && AllClean(rest) && rest != []
    ensures OwnerOf(Join([MarkerLine(key)] + rest, "\n") + "\n") == Managed(key)
  {
    CleanJoin(rest, "\n");
    JoinHead(MarkerLine(key), rest, "\n");
    CleanWithoutHyphen(EMPTY);
    CleanAcross(Join(rest, "\n"), '\n', EMPTY);
    var below := Join(rest, "\n") + ['\n'] + EMPTY;
    MarkedBodyIsOwned(key, below);
    assert Join([MarkerLine(key)] + rest, "\n") + "\n" == MarkerLine(key) + "\n" + below;
  }

  // ----- What the numbers change -----

  /** Numbers of issues a body does not mention are not in it. */
  lemma RenderIgnoresOthers(issue: IssueSpec, m: Manifest, early: Numbers, late: Numbers)
    requires forall k | k in issue.Mentions() :: Reference(k, early) == Reference(k, late)
    ensures Render(issue, m, early) == Render(issue, m, late)
  {
    if issue.IsEpic() {
      forall i | 0 <= i < |issue.children|
        ensures ChildLine(m, issue.children[i], early) == ChildLine(m, issue.children[i], late)
      {
        assert issue.children[i] in issue.Mentions();
      }
      assert ChildLines(m, issue.children, early) == ChildLines(m, issue.children, late);
    } else {
      forall i | 0 <= i < |issue.dependsOn|
        ensures Reference(issue.dependsOn[i], early) == Reference(issue.dependsOn[i], late)
      {
        assert issue.dependsOn[i] in issue.Mentions();
      }
      assert References(issue.dependsOn, early) == References(issue.dependsOn, late);
      assert issue.epic.Some? ==> issue.epic.value in issue.Mentions();
    }
  }

  predicate Extends(early: Numbers, late: Numbers) {
    forall k | k in early :: k in late && early[k] == late[k]
  }

  predicate NoShorter(a: seq<string>, b: seq<string>) {
    |a| == |b| && forall i | 0 <= i < |a| :: |a[i]| <= |b[i]|
  }

  predicate SomeLonger(a: seq<string>, b: seq<string>) {
    |a| == |b| && exists i | 0 <= i < |a| :: |a[i]| < |b[i]|
  }

  lemma {:induction false} JoinGrows(a: seq<string>, b: seq<string>, sep: string)
    requires NoShorter(a, b)
    ensures |Join(a, sep)| <= |Join(b, sep)|
    ensures SomeLonger(a, b) ==> |Join(a, sep)| < |Join(b, sep)|
  {
    if |a| > 1 {
      var n := |a| - 1;
      JoinGrows(a[..n], b[..n], sep);
      forall i | 0 <= i < |a| && |a[i]| < |b[i]|
        ensures |Join(a, sep)| < |Join(b, sep)|
      {
        if i < n {
          assert |a[..n][i]| < |b[..n][i]|;
        }
      }
    }
  }

  lemma AroundGrows(before: seq<string>, a: seq<string>, b: seq<string>, after: seq<string>)
    requires NoShorter(a, b) && SomeLonger(a, b)
    ensures NoShorter(before + a + after, before + b + after)
    ensures SomeLonger(before + a + after, before + b + after)
  {
    var i :| 0 <= i < |a| && |a[i]| < |b[i]|;
    assert (before + a + after)[|before| + i] == a[i];
    assert (before + b + after)[|before| + i] == b[i];
  }

  lemma ReferenceGrows(key: string, early: Numbers, late: Numbers)
    requires Extends(early, late)
    ensures |Reference(key, early)| <= |Reference(key, late)|
    ensures key !in early && key in late ==> |Reference(key, early)| < |Reference(key, late)|
  {
  }

  lemma ReferencesGrow(keys: seq<string>, early: Numbers, late: Numbers)
    requires Extends(early, late)
    ensures NoShorter(References(keys, early), References(keys, late))
    ensures (exists i | 0 <= i < |keys| :: keys[i] !in early && keys[i] in late) ==>
      SomeLonger(References(keys, early), References(keys, late))
  {
    var a, b := References(keys, early), References(keys, late);
    forall i | 0 <= i < |keys|
      ensures |a[i]| <= |b[i]|
      ensures keys[i] !in early && keys[i] in late ==> |a[i]| < |b[i]|
    {
      ReferenceGrows(keys[i], early, late);
    }
  }

  lemma ChildrenGrow(m: Manifest, keys: seq<string>, early: Numbers, late: Numbers)
    requires Extends(early, late)
    requires exists i | 0 <= i < |keys| :: keys[i] !in early && keys[i] in late
    ensures NoShorter(ChildLines(m, keys, early), ChildLines(m, keys, late))
    ensures SomeLonger(ChildLines(m, keys, early), ChildLines(m, keys, late))
  {
    ReferencesGrow(keys, early, late);
    var x, y := References(keys, early), References(keys, late);
    var a, b := ChildLines(m, keys, early), ChildLines(m, keys, late);
    forall i | 0 <= i < |keys|
      ensures |b[i]| - |a[i]| == |y[i]| - |x[i]|
    {
      ChildLineLength(m, keys[i], early);
      ChildLineLength(m, keys[i], late);
    }
    var i :| 0 <= i < |x| && |x[i]| < |y[i]|;
    assert |a[i]| < |b[i]|;
  }

  lemma ChildLineLength(m: Manifest, key: string, numbers: Numbers)
    ensures |ChildLine(m, key, numbers)| == 7 + |Reference(key, numbers)| + |TitleOf(m, key)|
  {
  }

  lemma ParentAndDependsGrow(issue: IssueSpec, early: Numbers, late: Numbers, k: string)
    requires Extends(early, late) && !issue.IsEpic()
    requires k in issue.Mentions() && k !in early && k in late
    ensures |ParentLine(issue, early)| <= |ParentLine(issue, late)|
    ensures |DependsLine(References(issue.dependsOn, early))|
         <= |DependsLine(References(issue.dependsOn, late))|
    ensures || |ParentLine(issue, early)| < |ParentLine(issue, late)|
            || |DependsLine(References(issue.dependsOn, early))|
             < |DependsLine(References(issue.dependsOn, late))|
  {
    ReferencesGrow(issue.dependsOn, early, late);
    JoinGrows(References(issue.dependsOn, early), References(issue.dependsOn, late), ", ");
    if issue.epic.Some? {
      ReferenceGrows(issue.epic.value, early, late);
    }
    if issue.epic != Some(k) {
      var i :| 0 <= i < |issue.dependsOn| && issue.dependsOn[i] == k;
    }
  }

  lemma LinksGrow(issue: IssueSpec, m: Manifest, early: Numbers, late: Numbers, k: string)
    requires Extends(early, late)
    requires k in issue.Mentions() && k !in early && k in late
    ensures NoShorter(LinkLines(issue, m, early), LinkLines(issue, m, late))
    ensures SomeLonger(LinkLines(issue, m, early), LinkLines(issue, m, late))
  {
    if issue.IsEpic() {
      var i :| 0 <= i < |issue.children| && issue.children[i] == k;
      ChildrenGrow(m, issue.children, early, late);
      AroundGrows([CHILD_ISSUES], ChildLines(m, issue.children, early),
                  ChildLines(m, issue.children, late), []);
      assert LinkLines(issue, m, early) == [CHILD_ISSUES] + ChildLines(m, issue.children, early) + [];
      assert LinkLines(issue, m, late) == [CHILD_ISSUES] + ChildLines(m, issue.children, late) + [];
    } else {
      ParentAndDependsGrow(issue, early, late, k);
      var a, b := LinkLines(issue, m, early), LinkLines(issue, m, late);
      assert |a[0]| < |b[0]| || |a[1]| < |b[1]|;
    }
  }

  /** A newly known number shows: a body that mentions one becomes strictly longer. */
  lemma RenderGrows(issue: IssueSpec, m: Manifest, early: Numbers, late: Numbers, k: string)
    requires Extends(early, late)
    requires k in issue.Mentions() && k !in early && k in late
    ensures |Render(issue, m, early)| < |Render(issue, m, late)|
  {
    LinksGrow(issue, m, early, late, k);
    var before := [MarkerLine(issue.key)] + HeadLines(issue);
    AroundGrows(before, LinkLines(issue, m, early), LinkLines(issue, m, late), TailLines(issue));
    BodyParts(issue, m, early);
    BodyParts(issue, m, late);
    JoinGrows(BodyLines(issue, m, early), BodyLines(issue, m, late), "\n");
  }

  lemma BodyParts(issue: IssueSpec, m: Manifest, numbers: Numbers)
    ensures BodyLines(issue, m, numbers)
         == [MarkerLine(issue.key)] + HeadLines(issue) + LinkLines(issue, m, numbers) + TailLines(issue)
  {
  }
}
