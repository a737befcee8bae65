/** What the reader finds in the body rendered for a record of a valid manifest. */
module BodyReading {
  import opened Wrappers
  import opened Text
  import opened Markers
  import opened Catalog
  import opened Rendering
  import opened Reading

  // ----- What a person sees -----

  datatype Name =
    | Plan | Task | Privacy | Parent | Depends | Status | Owner | Model | Reason | Gate | Triggers

  /** The bold text before a value, or over a list. */
  function LabelOf(name: Name): string {
    match name
    case Plan => "**Plan:** "
    case Task => "**Task:** "
    case Privacy => "**Privacy impact:** "
    case Parent => "**Parent epic:** "
    case Depends => "**Depends on:** "
    case Status => "**Status:** "
    case Owner => "**Owner:** "
    case Model => "**Model / effort:** "
    case Reason => "**Reason:** "
    case Gate => "**Dispatch gate:**"
    case Triggers => "**Escalation triggers:**"
  }

  const CHILDREN_HEADING := "## Child issues"
  const ROUTING_HEADING := "## Execution routing"
  const ACCEPTANCE_HEADING := "## Acceptance criteria"
  const VERIFICATION_HEADING := "## Verification"
  const BULLET := "- "
  const BOX := "- [ ] "

  function InTicks(items: seq<string>): seq<string> {
    seq(|items|, i requires 0 <= i < |items| => "`" + items[i] + "`")
  }

  function LinksTo(keys: seq<string>, numbers: Numbers): seq<Link> {
    seq(|keys|, i requires 0 <= i < |keys| => LinkTo(keys[i], numbers))
  }

  /** The lines say what the record says, and link every issue it mentions by the number that
      issue has, in the record's order. */
  ghost predicate Reads(lines: seq<string>, issue: IssueSpec, m: Manifest, numbers: Numbers) {
    && lines != [] && MatchMarker(lines[0]) == Some(issue.key)
    && Field(lines, LabelOf(Plan)) == Some("`" + issue.plan + "`")
    && Field(lines, LabelOf(Task)) == Some(issue.task)
    && Field(lines, LabelOf(Privacy)) == Some(issue.privacyImpact)
    && Items(lines, ACCEPTANCE_HEADING, BOX) == issue.acceptance
    && Items(lines, VERIFICATION_HEADING, BULLET) == InTicks(issue.verification)
    && (if issue.IsEpic() then ReadsEpic(lines, issue, m, numbers) else ReadsChild(lines, issue, numbers))
  }

  ghost predicate ReadsEpic(lines: seq<string>, issue: IssueSpec, m: Manifest, numbers: Numbers) {
    && Headings(lines) == ["Child issues", "Acceptance criteria", "Verification"]
    && Field(lines, LabelOf(Parent)) == None && Field(lines, LabelOf(Depends)) == None
    && Field(lines, LabelOf(Status)) == None
    && ListsChildren(Items(lines, CHILDREN_HEADING, BOX), issue.children, m, numbers)
  }

  ghost predicate ListsChildren(items: seq<string>, children: seq<string>, m: Manifest, numbers: Numbers) {
    && |items| == |children|
    && forall c | 0 <= c < |children| ::
         && ReadListed(items[c]).0 == LinkTo(children[c], numbers)
         && forall record <- m.issues :: record.key == children[c] ==> ReadListed(items[c]).1 == record.title
  }

  ghost predicate ReadsChild(lines: seq<string>, issue: IssueSpec, numbers: Numbers) {
    && Headings(lines) == ["Execution routing", "Acceptance criteria", "Verification"]
    && issue.epic.Some? && issue.execution.Some?
    && Field(lines, LabelOf(Parent)).Some?
    && ReadLink(Field(lines, LabelOf(Parent)).value) == LinkTo(issue.epic.value, numbers)
    && Field(lines, LabelOf(Depends)).Some?
    && ReadLinks(Field(lines, LabelOf(Depends)).value) == LinksTo(issue.dependsOn, numbers)
    && ReadsRouting(lines, issue.execution.value)
  }

  ghost predicate ReadsRouting(lines: seq<string>, e: Execution) {
    && Field(lines, LabelOf(Reason)) == Some(e.reason)
    && match e
       case Executable(owner, model, effort, _, gate, triggers) =>
         && Field(lines, LabelOf(Status)) == Some("executable")
         && Field(lines, LabelOf(Owner)) == Some(owner)
         && Field(lines, LabelOf(Model)) == Some(model + " / " + effort)
         && Items(lines, LabelOf(Gate), BULLET) == gate
         && Items(lines, LabelOf(Triggers), BULLET) == triggers
       case Deferred(_, gate) =>
         && Field(lines, LabelOf(Status)) == Some("deferred")
         && Field(lines, LabelOf(Owner)) == None && Field(lines, LabelOf(Model)) == None
         && Items(lines, LabelOf(Gate), BULLET) == gate
         && Items(lines, LabelOf(Triggers), BULLET) == []
       case Historical(_) =>
         && Field(lines, LabelOf(Status)) == Some("historical")
         && Field(lines, LabelOf(Owner)) == None && Field(lines, LabelOf(Model)) == None
         && Items(lines, LabelOf(Gate), BULLET) == []
         && Items(lines, LabelOf(Triggers), BULLET) == []
  }

  // ----- Reading lines put together -----

  lemma {:induction false} FieldConcat(a: seq<string>, b: seq<string>, name: string)
    ensures Field(a + b, name) == if Field(a, name).Some? then Field(a, name) else Field(b, name)
  {
    if a == [] {
      assert a + b == b;
    } else {
      FieldConcat(a[1..], b, name);
      assert (a + b)[1..] == a[1..] + b;
    }
  }

  lemma {:induction false} ItemsBehind(a: seq<string>, b: seq<string>, heading: string, mark: string)
    requires heading !in a
    ensures Items(a + b, heading, mark) == Items(b, heading, mark)
  {
    hide Run;
    if a == [] {
      assert a + b == b;
    } else {
      ItemsBehind(a[1..], b, heading, mark);
      assert (a + b)[1..] == a[1..] + b;
      assert a[0] in a;
    }
  }

  lemma {:induction false} HeadingsConcat(a: seq<string>, b: seq<string>)
    ensures Headings(a + b) == Headings(a) + Headings(b)
  {
    hide HeadingOf;
    if a == [] {
      assert a + b == b;
    } else {
      HeadingsConcat(a[1..], b);
      assert (a + b)[1..] == a[1..] + b;
      var first, rest := HeadingOf(a[0]), Headings(a[1..]);
      assert first + (rest + Headings(b)) == (first + rest) + Headings(b);
    }
  }

  function Marked(mark: string, items: seq<string>): seq<string> {
    seq(|items|, i requires 0 <= i < |items| => mark + items[i])
  }

  lemma {:induction false} RunOf(mark: string, items: seq<string>, rest: seq<string>)
    requires rest == [] || !(mark <= rest[0])
    ensures Run(Marked(mark, items) + rest, mark) == items
  {
    var lines := Marked(mark, items) + rest;
    if items == [] {
      assert lines == rest;
    } else {
      RunOf(mark, items[1..], rest);
      assert lines[0] == mark + items[0];
      assert lines[1..] == Marked(mark, items[1..]) + rest;
    }
  }

  lemma ItemsUnder(before: seq<string>, heading: string, mark: string, items: seq<string>, rest: seq<string>)
    requires heading !in before
    requires rest == [] || !(mark <= rest[0])
    ensures Items(before + ([heading] + (Marked(mark, items) + rest)), heading, mark) == items
  {
    var under := Marked(mark, items) + rest;
    ItemsBehind(before, [heading] + under, heading, mark);
    assert ([heading] + under)[1..] == under;
    RunOf(mark, items, rest);
  }

  /** Lines that are empty or start with another character than a label does. */
  predicate NoneStarts(lines: seq<string>, c: char) {
    forall l <- lines :: l == "" || l[0] != c
  }

  lemma {:induction false} NoFieldThere(lines: seq<string>, name: string)
    requires name != "" && NoneStarts(lines, name[0])
    ensures Field(lines, name) == None
  {
    if lines != [] {
      assert lines[0] in lines;
      NoFieldThere(lines[1..], name);
    }
  }

  lemma {:induction false} NoHeadingsThere(lines: seq<string>)
    requires NoneStarts(lines, '#')
    ensures Headings(lines) == []
  {
    if lines != [] {
      assert lines[0] in lines;
      NoHeadingsThere(lines[1..]);
    }
  }

  // ----- Labels that cannot be taken for each other -----

  /** The third and fourth characters of a label, which no other label has. */
  function TagOf(name: Name): (char, char) {
    match name
    case Plan => ('P', 'l')
    case Task => ('T', 'a')
    case Privacy => ('P', 'r')
    case Parent => ('P', 'a')
    case Depends => ('D', 'e')
    case Status => ('S', 't')
    case Owner => ('O', 'w')
    case Model => ('M', 'o')
    case Reason => ('R', 'e')
    case Gate => ('D', 'i')
    case Triggers => ('E', 's')
  }

  lemma TagStands(name: Name)
    ensures var text := LabelOf(name);
      |text| >= 4 && text[0] == '*' && (text[2], text[3]) == TagOf(name)
  {
  }

  lemma LabelsAreApart(a: Name, b: Name, value: string)
    requires a != b
    ensures !(LabelOf(a) <= LabelOf(b) + value)
  {
    TagStands(a);
    TagStands(b);
    hide LabelOf;
    var line := LabelOf(b) + value;
    assert line[2] == LabelOf(b)[2] && line[3] == LabelOf(b)[3];
  }

  /** A labelled value, or an empty line. */
  datatype Line = Blank | Value(name: Name, value: string)

  function LineText(l: Line): string {
    match l
    case Blank => ""
    case Value(name, value) => LabelOf(name) + value
  }

  function LineTexts(ls: seq<Line>): seq<string> {
    seq(|ls|, i requires 0 <= i < |ls| => LineText(ls[i]))
  }

  function FieldIn(ls: seq<Line>, name: Name): Option<string> {
    if ls == [] then None
    else if ls[0].Value? && ls[0].name == name then Some(ls[0].value)
    else FieldIn(ls[1..], name)
  }

  lemma {:induction false} FieldInAt(ls: seq<Line>, name: Name, k: nat)
    requires k < |ls| && ls[k].Value? && ls[k].name == name
    requires forall i | 0 <= i < k :: ls[i].Value? ==> ls[i].name != name
    ensures FieldIn(ls, name) == Some(ls[k].value)
  {
    if k > 0 {
      FieldInAt(ls[1..], name, k - 1);
    }
  }

  lemma {:induction false} FieldInNone(ls: seq<Line>, name: Name)
    requires forall i | 0 <= i < |ls| :: ls[i].Value? ==> ls[i].name != name
    ensures FieldIn(ls, name) == None
  {
    if ls != [] {
      FieldInNone(ls[1..], name);
    }
  }

  /** Reading the text of labelled lines finds what the lines hold. */
  lemma {:induction false} FieldOfLines(ls: seq<Line>, name: Name)
    ensures Field(LineTexts(ls), LabelOf(name)) == FieldIn(ls, name)
  {
    hide LabelOf;
    if ls != [] {
      var lines := LineTexts(ls);
      FieldOfLines(ls[1..], name);
      TagStands(name);
      assert lines[1..] == LineTexts(ls[1..]);
      assert lines[0] == LineText(ls[0]);
      if ls[0].Value? && ls[0].name != name {
        LabelsAreApart(name, ls[0].name, ls[0].value);
      }
    }
  }

  /** Such lines are empty or bold. */
  lemma LinesAreBold(ls: seq<Line>)
    ensures forall l <- LineTexts(ls) :: l == "" || l[0] == '*'
  {
    forall i | 0 <= i < |ls|
      ensures LineTexts(ls)[i] == "" || LineTexts(ls)[i][0] == '*'
    {
      if ls[i].Value? {
        TagStands(ls[i].name);
      }
    }
  }

  lemma LabelNotAmong(ls: seq<Line>, name: Name)
    requires forall l <- ls :: l.Value? ==> l.name != name
    ensures LabelOf(name) !in LineTexts(ls)
  {
    hide LabelOf;
    TagStands(name);
    forall i | 0 <= i < |ls|
      ensures LineTexts(ls)[i] != LabelOf(name)
    {
      assert ls[i] in ls;
      if ls[i].Value? {
        LabelsAreApart(name, ls[i].name, ls[i].value);
      }
    }
  }

  // ----- The lines of a body, chunk by chunk -----

  lemma LabelsAreTheirs()
    ensures PLAN + " " == LabelOf(Plan) && TASK + " " == LabelOf(Task) && PRIVACY_IMPACT + " " == LabelOf(Privacy)
    ensures PARENT_EPIC + " " == LabelOf(Parent) && DEPENDS_ON + " " == LabelOf(Depends)
    ensures STATUS + " " == LabelOf(Status) && OWNER + " " == LabelOf(Owner) && MODEL_EFFORT + " " == LabelOf(Model)
    ensures REASON + " " == LabelOf(Reason) && DISPATCH_GATE == LabelOf(Gate)
    ensures ESCALATION_TRIGGERS == LabelOf(Triggers)
    ensures CHILD_ISSUES == CHILDREN_HEADING && EXECUTION_ROUTING == ROUTING_HEADING
    ensures ACCEPTANCE_CRITERIA == ACCEPTANCE_HEADING && VERIFICATION == VERIFICATION_HEADING && EMPTY == ""
  {
  }

  function HeadValues(issue: IssueSpec): seq<Line> {
    [Blank, Value(Plan, "`" + issue.plan + "`"), Value(Task, issue.task), Value(Privacy, issue.privacyImpact), Blank]
  }

  function LinkValues(issue: IssueSpec, numbers: Numbers): seq<Line>
    requires issue.epic.Some?
  {
    [Value(Parent, Reference(issue.epic.value, numbers)),
     Value(Depends, if issue.dependsOn == [] then "None" else Join(References(issue.dependsOn, numbers), ", "))]
  }

  function RoutingValues(e: Execution): seq<Line> {
    match e
    case Executable(owner, model, effort, reason, _, _) =>
      [Value(Status, "executable"), Value(Owner, owner), Value(Model, model + " / " + effort), Value(Reason, reason)]
    case Deferred(reason, _) => [Value(Status, "deferred"), Value(Reason, reason)]
    case Historical(reason) => [Value(Status, "historical"), Value(Reason, reason)]
  }

  lemma HeadIs(issue: IssueSpec)
    ensures HeadLines(issue) == LineTexts(HeadValues(issue))
  {
    LabelsAreTheirs();
    hide LabelOf;
  }

  lemma LinksAre(issue: IssueSpec, m: Manifest, numbers: Numbers)
    requires !issue.IsEpic() && issue.epic.Some?
    ensures LinkLines(issue, m, numbers) == LineTexts(LinkValues(issue, numbers))
  {
    LabelsAreTheirs();
    hide LabelOf, Reference, Join;
  }

  lemma RoutingIs(e: Execution)
    ensures RoutingFields(e) == LineTexts(RoutingValues(e))
  {
    LabelsAreTheirs();
    hide LabelOf;
    if e.Executable? {
      assert Labelled(Labelled(e.model, "/"), e.effort) == e.model + " / " + e.effort;
    }
  }

  lemma BulletsAre(items: seq<string>)
    ensures Bullets(items) == Marked(BULLET, items) && Checkboxes(items) == Marked(BOX, items)
    ensures QuotedAll(items) == InTicks(items)
  {
  }

  /** Marked lines start with a hyphen. */
  lemma MarkedStart(mark: string, items: seq<string>)
    requires mark == BULLET || mark == BOX
    ensures forall l <- Marked(mark, items) :: l != "" && l[0] == '-'
  {
  }

  // ----- The end of every body -----

  function Ending(issue: IssueSpec): seq<string> {
    ["", ACCEPTANCE_HEADING] + Marked(BOX, issue.acceptance)
    + (["", VERIFICATION_HEADING] + Marked(BULLET, InTicks(issue.verification)))
  }

  /** Lines that a section of the ending cannot be taken for. */
  predicate IsAbove(lines: seq<string>) {
    forall l <- lines :: l == "" || l[0] != '#' || l == CHILDREN_HEADING || l == ROUTING_HEADING
  }

  lemma EndingReads(above: seq<string>, issue: IssueSpec)
    requires IsAbove(above)
    ensures var lines := above + Ending(issue);
      && Items(lines, ACCEPTANCE_HEADING, BOX) == issue.acceptance
      && Items(lines, VERIFICATION_HEADING, BULLET) == InTicks(issue.verification)
      && Headings(lines) == Headings(above) + ["Acceptance criteria", "Verification"]
  {
    hide Items, Headings, InTicks, Marked, IsAbove;
    var boxes, ticks := Marked(BOX, issue.acceptance), Marked(BULLET, InTicks(issue.verification));
    MarkedStart(BOX, issue.acceptance);
    MarkedStart(BULLET, InTicks(issue.verification));
    EndingHeadings(above, boxes, ticks);
    EndingItems(above, boxes, ticks, issue);
  }

  lemma EndingItems(above: seq<string>, boxes: seq<string>, ticks: seq<string>, issue: IssueSpec)
    requires IsAbove(above)
    requires boxes == Marked(BOX, issue.acceptance) && ticks == Marked(BULLET, InTicks(issue.verification))
    ensures Ending(issue) == ["", ACCEPTANCE_HEADING] + boxes + (["", VERIFICATION_HEADING] + ticks)
    ensures Items(above + Ending(issue), ACCEPTANCE_HEADING, BOX) == issue.acceptance
    ensures Items(above + Ending(issue), VERIFICATION_HEADING, BULLET) == InTicks(issue.verification)
  {
    NotAbove(above);
    hide Items, InTicks, Marked, IsAbove, ACCEPTANCE_HEADING, VERIFICATION_HEADING;
    FirstSection(above, ACCEPTANCE_HEADING, VERIFICATION_HEADING, issue.acceptance, ticks);
    SecondSection(above, ACCEPTANCE_HEADING, VERIFICATION_HEADING, boxes, issue.acceptance, InTicks(issue.verification));
  }

  lemma NotAbove(above: seq<string>)
    requires IsAbove(above)
    ensures ACCEPTANCE_HEADING !in above && VERIFICATION_HEADING !in above
    ensures ACCEPTANCE_HEADING != VERIFICATION_HEADING
    ensures ACCEPTANCE_HEADING != "" && VERIFICATION_HEADING != "" && VERIFICATION_HEADING[0] == '#'
  {
    assert ACCEPTANCE_HEADING[3] == 'A' && VERIFICATION_HEADING[3] == 'V';
    assert CHILDREN_HEADING[3] == 'C' && ROUTING_HEADING[3] == 'E';
  }

  lemma FirstSection(above: seq<string>, first: string, second: string, items: seq<string>, rest: seq<string>)
    requires first !in above && first != ""
    ensures Items(above + (["", first] + Marked(BOX, items) + (["", second] + rest)), first, BOX) == items
  {
    hide Items, Marked;
    var boxes, last := Marked(BOX, items), ["", second] + rest;
    ItemsUnder(above + [""], first, BOX, items, last);
    assert above + (["", first] + boxes + last) == (above + [""]) + ([first] + (boxes + last));
  }

  lemma SecondSection(above: seq<string>, first: string, second: string, boxes: seq<string>, upper: seq<string>,
                      items: seq<string>)
    requires boxes == Marked(BOX, upper) && second !in above && first != second
    requires second != "" && second[0] == '#'
    ensures Items(above + (["", first] + boxes + (["", second] + Marked(BULLET, items))), second, BULLET) == items
  {
    MarkedStart(BOX, upper);
    hide Items, Marked;
    var ticks, before := Marked(BULLET, items), above + ["", first] + boxes + [""];
    ItemsUnder(before, second, BULLET, items, []);
    assert ticks + [] == ticks;
    assert above + (["", first] + boxes + (["", second] + ticks)) == before + ([second] + ticks);
  }

  lemma EndingHeadings(above: seq<string>, boxes: seq<string>, ticks: seq<string>)
    ensures NoneStarts(boxes, '#') && NoneStarts(ticks, '#') ==>
      Headings(above + (["", ACCEPTANCE_HEADING] + boxes + (["", VERIFICATION_HEADING] + ticks)))
        == Headings(above) + ["Acceptance criteria", "Verification"]
  {
    if NoneStarts(boxes, '#') && NoneStarts(ticks, '#') {
      var first, last := ["", ACCEPTANCE_HEADING], ["", VERIFICATION_HEADING];
      TwoHeadings();
      NoHeadingsThere(boxes);
      NoHeadingsThere(ticks);
      hide Headings;
      HeadingsConcat(above, first + boxes + (last + ticks));
      HeadingsConcat(first + boxes, last + ticks);
      HeadingsConcat(first, boxes);
      HeadingsConcat(last, ticks);
    }
  }

  lemma TwoHeadings()
    ensures Headings(["", ACCEPTANCE_HEADING]) == ["Acceptance criteria"]
    ensures Headings(["", VERIFICATION_HEADING]) == ["Verification"]
    ensures Headings(["", ROUTING_HEADING]) == ["Execution routing"]
    ensures Headings([CHILDREN_HEADING]) == ["Child issues"]
  {
    hide Headings;
    HeadingLine(ACCEPTANCE_HEADING, "Acceptance criteria");
    HeadingLine(VERIFICATION_HEADING, "Verification");
    HeadingLine(ROUTING_HEADING, "Execution routing");
    HeadingLine(CHILDREN_HEADING, "Child issues");
  }

  lemma HeadingLine(line: string, text: string)
    requires line == "## " + text
    ensures Headings([line]) == [text] && Headings(["", line]) == [text]
  {
    assert [line][1..] == [] && ["", line][1..] == [line];
    assert HeadingOf(line) == [text] && HeadingOf("") == [];
  }

  /** Nothing in the ending is bold. */
  lemma EndingHasNoFields(issue: IssueSpec)
    ensures NoneStarts(Ending(issue), '*')
  {
    MarkedStart(BOX, issue.acceptance);
    MarkedStart(BULLET, InTicks(issue.verification));
    hide Marked, InTicks;
  }

  // ----- The parts above it -----

  /** A label is looked up in the labelled lines first, and then further down. */
  lemma FieldInBody(top: seq<string>, values: seq<Line>, rest: seq<string>, name: Name)
    requires NoneStarts(top, '*')
    ensures Field(top + (LineTexts(values) + rest), LabelOf(name))
         == if FieldIn(values, name).Some? then FieldIn(values, name) else Field(rest, LabelOf(name))
  {
    TagStands(name);
    hide LabelOf, Field, FieldIn, LineTexts;
    FieldConcat(top, LineTexts(values) + rest, LabelOf(name));
    FieldConcat(LineTexts(values), rest, LabelOf(name));
    NoFieldThere(top, LabelOf(name));
    FieldOfLines(values, name);
  }

  lemma NoItemsWithout(lines: seq<string>, heading: string, mark: string)
    requires heading !in lines
    ensures Items(lines, heading, mark) == []
  {
    ItemsBehind(lines, [], heading, mark);
    assert lines + [] == lines;
  }

  lemma MarkerStarts(key: string)
    ensures NoneStarts([MarkerLine(key)], '*') && NoneStarts([MarkerLine(key)], '#')
  {
  }

  lemma TailIsEnding(issue: IssueSpec)
    ensures TailLines(issue)
      == (if !issue.IsEpic() && issue.execution.Some? then RoutingLines(issue.execution.value) else []) + Ending(issue)
  {
    LabelsAreTheirs();
    hide LabelOf, RoutingLines, Bullets, Checkboxes, QuotedAll, Marked, InTicks;
    BulletsAre(issue.acceptance);
    BulletsAre(issue.verification);
    BulletsAre(QuotedAll(issue.verification));
  }

  // ----- An epic -----

  function Listed(m: Manifest, keys: seq<string>, numbers: Numbers): seq<string> {
    seq(|keys|, i requires 0 <= i < |keys| => Reference(keys[i], numbers) + " " + TitleOf(m, keys[i]))
  }

  lemma ListedIsRead(m: Manifest, keys: seq<string>, numbers: Numbers)
    requires DistinctKeys(m.issues) && forall k <- keys :: IsPlainKey(k)
    ensures ChildLines(m, keys, numbers) == Marked(BOX, Listed(m, keys, numbers))
    ensures ListsChildren(Listed(m, keys, numbers), keys, m, numbers)
  {
    hide Reference, ReadListed;
    forall c | 0 <= c < |keys|
      ensures ReadListed(Listed(m, keys, numbers)[c]) == (LinkTo(keys[c], numbers), TitleOf(m, keys[c]))
      ensures forall record <- m.issues :: record.key == keys[c] ==> TitleOf(m, keys[c]) == record.title
    {
      assert keys[c] in keys;
      ListedReads(keys[c], numbers, TitleOf(m, keys[c]));
      IndexOfFinds(m.issues, keys[c]);
    }
  }

  lemma EpicReads(issue: IssueSpec, m: Manifest, numbers: Numbers)
    requires issue.IsEpic() && IsMarkerKey(issue.key)
    requires DistinctKeys(m.issues) && forall k <- issue.children :: IsPlainKey(k)
    ensures Reads(BodyLines(issue, m, numbers), issue, m, numbers)
  {
    var head, listed := LineTexts(HeadValues(issue)), Listed(m, issue.children, numbers);
    var top, boxes := [MarkerLine(issue.key)], Marked(BOX, Listed(m, issue.children, numbers));
    EpicLines(issue, m, numbers);
    EpicParts(issue, listed);
    MarkerLineParses(issue.key);
    ListedIsRead(m, issue.children, numbers);
    EndingStart(issue);
    hide LabelOf, LineTexts, Marked, Ending, Field, Items, Headings, Listed, MatchMarker, ListsChildren, BodyLines,
         NoneStarts, IsAbove, MarkerLine, HeadValues, IsPlainKey;
    Regroup(top, head, CHILDREN_HEADING, boxes, Ending(issue));
    EpicFields(top, issue, [CHILDREN_HEADING] + boxes + Ending(issue));
    EndingReads(top + head + ([CHILDREN_HEADING] + boxes), issue);
    ItemsUnder(top + head, CHILDREN_HEADING, BOX, listed, Ending(issue));
    EpicHeadings(top, head, boxes);
  }

  lemma Regroup(top: seq<string>, head: seq<string>, heading: string, boxes: seq<string>, ending: seq<string>)
    ensures top + (head + ([heading] + boxes + ending)) == (top + head + ([heading] + boxes)) + ending
    ensures top + (head + ([heading] + boxes + ending)) == (top + head) + ([heading] + (boxes + ending))
  {
  }

  lemma EpicParts(issue: IssueSpec, listed: seq<string>)
    ensures var top, head, boxes := [MarkerLine(issue.key)], LineTexts(HeadValues(issue)), Marked(BOX, listed);
      && NoneStarts(top, '*') && NoneStarts(top, '#') && NoneStarts(head, '#') && NoneStarts(boxes, '#')
      && NoneStarts([CHILDREN_HEADING] + boxes + Ending(issue), '*')
      && IsAbove(top + head + ([CHILDREN_HEADING] + boxes))
      && CHILDREN_HEADING !in top + head
  {
    MarkerStarts(issue.key);
    MarkedStart(BOX, listed);
    EndingHasNoFields(issue);
    LinesAreBold(HeadValues(issue));
    hide LabelOf, LineTexts, Marked, Ending, MarkerLine, HeadValues;
  }

  lemma EpicLines(issue: IssueSpec, m: Manifest, numbers: Numbers)
    requires issue.IsEpic() && DistinctKeys(m.issues) && forall k <- issue.children :: IsPlainKey(k)
    ensures BodyLines(issue, m, numbers) == [MarkerLine(issue.key)]
      + (LineTexts(HeadValues(issue)) + (([CHILDREN_HEADING] + Marked(BOX, Listed(m, issue.children, numbers))) + Ending(issue)))
  {
    LabelsAreTheirs();
    HeadIs(issue);
    TailIsEnding(issue);
    ListedIsRead(m, issue.children, numbers);
    hide LabelOf, HeadLines, TailLines, LineTexts, Marked, Ending, ChildLines, Listed, MarkerLine;
  }

  lemma EndingStart(issue: IssueSpec)
    ensures Ending(issue) != [] && !(BOX <= Ending(issue)[0]) && !(BULLET <= Ending(issue)[0])
  {
  }

  lemma EpicFields(top: seq<string>, issue: IssueSpec, rest: seq<string>)
    requires NoneStarts(top, '*') && NoneStarts(rest, '*')
    ensures var lines := top + (LineTexts(HeadValues(issue)) + rest);
      && Field(lines, LabelOf(Plan)) == Some("`" + issue.plan + "`")
      && Field(lines, LabelOf(Task)) == Some(issue.task)
      && Field(lines, LabelOf(Privacy)) == Some(issue.privacyImpact)
      && Field(lines, LabelOf(Parent)) == None
      && Field(lines, LabelOf(Depends)) == None
      && Field(lines, LabelOf(Status)) == None
  {
    HeadFields(issue);
    hide LabelOf, Field, LineTexts, FieldIn, HeadValues, NoneStarts;
    var values := HeadValues(issue);
    FieldInBody(top, values, rest, Plan);
    FieldInBody(top, values, rest, Task);
    FieldInBody(top, values, rest, Privacy);
    NoneFurther(top, values, rest, Parent);
    NoneFurther(top, values, rest, Depends);
    NoneFurther(top, values, rest, Status);
  }

  lemma NoneFurther(top: seq<string>, values: seq<Line>, rest: seq<string>, name: Name)
    requires NoneStarts(top, '*') && NoneStarts(rest, '*') && FieldIn(values, name) == None
    ensures Field(top + (LineTexts(values) + rest), LabelOf(name)) == None
  {
    TagStands(name);
    FieldInBody(top, values, rest, name);
    NoFieldThere(rest, LabelOf(name));
  }

  lemma HeadFields(issue: IssueSpec)
    ensures FieldIn(HeadValues(issue), Plan) == Some("`" + issue.plan + "`")
    ensures FieldIn(HeadValues(issue), Task) == Some(issue.task)
    ensures FieldIn(HeadValues(issue), Privacy) == Some(issue.privacyImpact)
    ensures forall name: Name | !name.Plan? && !name.Task? && !name.Privacy? :: FieldIn(HeadValues(issue), name) == None
  {
    var a := HeadValues(issue);
    forall name: Name
      ensures FieldIn(a, name) == if name.Plan? then Some("`" + issue.plan + "`")
        else if name.Task? then Some(issue.task)
        else if name.Privacy? then Some(issue.privacyImpact) else None
    {
      assert FieldIn(a[4..], name) == None by {
        assert a[4..][1..] == [];
      }
      assert a[3..][1..] == a[4..] && a[2..][1..] == a[3..] && a[1..][1..] == a[2..];
      assert FieldIn(a[3..], name) == if name.Privacy? then Some(issue.privacyImpact) else None;
      assert FieldIn(a[2..], name) == if name.Task? then Some(issue.task) else FieldIn(a[3..], name);
    }
  }

  lemma EpicHeadings(top: seq<string>, head: seq<string>, boxes: seq<string>)
    requires NoneStarts(top, '#') && NoneStarts(head, '#') && NoneStarts(boxes, '#')
    ensures Headings(top + head + ([CHILDREN_HEADING] + boxes)) == ["Child issues"]
  {
    TwoHeadings();
    NoHeadingsThere(top);
    NoHeadingsThere(head);
    NoHeadingsThere(boxes);
    hide Headings, NoneStarts;
    HeadingsConcat(top + head, [CHILDREN_HEADING] + boxes);
    HeadingsConcat(top, head);
    HeadingsConcat([CHILDREN_HEADING], boxes);
  }

  // ----- A child -----

  function ChildValues(issue: IssueSpec, numbers: Numbers): seq<Line>
    requires issue.epic.Some?
  {
    HeadValues(issue) + LinkValues(issue, numbers)
  }

  lemma ChildFields(issue: IssueSpec, numbers: Numbers)
    requires issue.epic.Some?
    ensures var values := ChildValues(issue, numbers);
      && FieldIn(values, Plan) == Some("`" + issue.plan + "`")
      && FieldIn(values, Task) == Some(issue.task)
      && FieldIn(values, Privacy) == Some(issue.privacyImpact)
      && FieldIn(values, Parent) == Some(LinkValues(issue, numbers)[0].value)
      && FieldIn(values, Depends) == Some(LinkValues(issue, numbers)[1].value)
      && FieldIn(values, Status) == None && FieldIn(values, Reason) == None
      && FieldIn(values, Owner) == None && FieldIn(values, Model) == None
  {
    HeadFields(issue);
    var links := LinkValues(issue, numbers);
    hide HeadValues, LinkValues;
    forall name: Name
      ensures FieldIn(links, name) == if name.Parent? then Some(links[0].value)
        else if name.Depends? then Some(links[1].value) else None
      ensures FieldIn(HeadValues(issue) + links, name)
        == if FieldIn(HeadValues(issue), name).Some? then FieldIn(HeadValues(issue), name) else FieldIn(links, name)
    {
      LinkFields(issue, numbers, name);
      FieldInConcat(HeadValues(issue), links, name);
    }
  }

  lemma LinkFields(issue: IssueSpec, numbers: Numbers, name: Name)
    requires issue.epic.Some?
    ensures var links := LinkValues(issue, numbers);
      && |links| == 2 && links[0].Value? && links[1].Value?
      && FieldIn(links, name) == if name.Parent? then Some(links[0].value)
           else if name.Depends? then Some(links[1].value) else None
  {
    hide FieldIn;
    var links := LinkValues(issue, numbers);
    if name.Parent? {
      FieldInAt(links, name, 0);
    } else if name.Depends? {
      FieldInAt(links, name, 1);
    } else {
      FieldInNone(links, name);
    }
  }

  lemma {:induction false} FieldInConcat(a: seq<Line>, b: seq<Line>, name: Name)
    ensures FieldIn(a + b, name) == if FieldIn(a, name).Some? then FieldIn(a, name) else FieldIn(b, name)
  {
    if a == [] {
      assert a + b == b;
    } else {
      FieldInConcat(a[1..], b, name);
      assert (a + b)[1..] == a[1..] + b;
    }
  }

  lemma RoutingFieldsRead(e: Execution)
    ensures var values := RoutingValues(e);
      && FieldIn(values, Reason) == Some(e.reason)
      && FieldIn(values, Status) == Some(if e.Executable? then "executable" else if e.Deferred? then "deferred" else "historical")
      && FieldIn(values, Owner) == (if e.Executable? then Some(e.owner) else None)
      && FieldIn(values, Model) == (if e.Executable? then Some(e.model + " / " + e.effort) else None)
  {
    hide FieldIn;
    var a := RoutingValues(e);
    FieldInAt(a, Status, 0);
    if e.Executable? {
      FieldInAt(a, Owner, 1);
      FieldInAt(a, Model, 2);
      FieldInAt(a, Reason, 3);
    } else {
      FieldInAt(a, Reason, 1);
      FieldInNone(a, Owner);
      FieldInNone(a, Model);
    }
  }

  /** The lists under the routing fields. */
  function ListLines(e: Execution): seq<string> {
    match e
    case Executable(_, _, _, _, gate, triggers) =>
      [LabelOf(Gate)] + Marked(BULLET, gate) + ([LabelOf(Triggers)] + Marked(BULLET, triggers))
    case Deferred(_, gate) => if gate == [] then [] else [LabelOf(Gate)] + Marked(BULLET, gate)
    case Historical(_) => []
  }

  lemma ListsAre(e: Execution)
    ensures RoutingLists(e) == ListLines(e)
  {
    LabelsAreTheirs();
    hide LabelOf, Bullets, Marked;
    if !e.Historical? {
      BulletsAre(e.dispatchGate);
    }
    if e.Executable? {
      BulletsAre(e.escalationTriggers);
    }
  }

  lemma GateIsNoField(name: Name, list: Name, items: seq<string>)
    requires !name.Gate? && !name.Triggers? && (list.Gate? || list.Triggers?)
    ensures Field([LabelOf(list)] + Marked(BULLET, items), LabelOf(name)) == None
  {
    var heading := [Value(list, "")];
    MarkedStart(BULLET, items);
    TagStands(name);
    hide Marked;
    NoFieldThere(Marked(BULLET, items), LabelOf(name));
    FieldOfLines(heading, name);
    assert LabelOf(list) + "" == LabelOf(list);
    assert LineTexts(heading) == [LabelOf(list)];
    FieldInNone(heading, name);
    hide LabelOf;
    FieldConcat([LabelOf(list)], Marked(BULLET, items), LabelOf(name));
  }

  lemma ListsHaveNoFields(e: Execution, issue: IssueSpec, name: Name)
    requires !name.Gate? && !name.Triggers?
    ensures Field(ListLines(e) + Ending(issue), LabelOf(name)) == None
  {
    EndingHasNoFields(issue);
    TagStands(name);
    hide LabelOf, Ending, Field, Marked;
    NoFieldThere(Ending(issue), LabelOf(name));
    FieldConcat(ListLines(e), Ending(issue), LabelOf(name));
    if ListLines(e) == [] {
      NoFieldThere([], LabelOf(name));
    } else {
      GateIsNoField(name, Gate, e.dispatchGate);
      if e.Executable? {
        GateIsNoField(name, Triggers, e.escalationTriggers);
        FieldConcat([LabelOf(Gate)] + Marked(BULLET, e.dispatchGate),
                    [LabelOf(Triggers)] + Marked(BULLET, e.escalationTriggers), LabelOf(name));
      }
    }
  }

  /** Lines in which neither list heading stands. */
  predicate HasNoLists(lines: seq<string>) {
    LabelOf(Gate) !in lines && LabelOf(Triggers) !in lines
  }

  lemma ListsRead(before: seq<string>, e: Execution, issue: IssueSpec)
    requires HasNoLists(before)
    ensures var lines := before + (ListLines(e) + Ending(issue));
      && Items(lines, LabelOf(Gate), BULLET) == (if e.Historical? then [] else e.dispatchGate)
      && Items(lines, LabelOf(Triggers), BULLET) == (if e.Executable? then e.escalationTriggers else [])
  {
    EndingStart(issue);
    EndingHasNoFields(issue);
    TagStands(Gate);
    TagStands(Triggers);
    var ending := Ending(issue);
    assert LabelOf(Gate) !in ending && LabelOf(Triggers) !in ending;
    hide LabelOf, Ending, Items, Marked;
    var lines := before + (ListLines(e) + ending);
    if ListLines(e) == [] {
      assert lines == before + ending;
      NoItemsWithout(lines, LabelOf(Gate), BULLET);
      NoItemsWithout(lines, LabelOf(Triggers), BULLET);
    } else {
      TwoLists(before, e, ending);
    }
  }

  lemma TwoLists(before: seq<string>, e: Execution, ending: seq<string>)
    requires HasNoLists(before) && HasNoLists(ending)
    requires ListLines(e) != [] && ending != [] && !(BULLET <= ending[0])
    ensures var lines := before + (ListLines(e) + ending);
      && Items(lines, LabelOf(Gate), BULLET) == e.dispatchGate
      && Items(lines, LabelOf(Triggers), BULLET) == (if e.Executable? then e.escalationTriggers else [])
  {
    var gates := Marked(BULLET, e.dispatchGate);
    ListHeadings(e.dispatchGate);
    hide LabelOf, Items, Marked;
    var lines := before + (ListLines(e) + ending);
    var upper := before + ([LabelOf(Gate)] + gates);
    assert LabelOf(Triggers) !in upper;
    if e.Executable? {
      var triggers := Marked(BULLET, e.escalationTriggers);
      var lower := [LabelOf(Triggers)] + (triggers + ending);
      RegroupLists(before, LabelOf(Gate), gates, LabelOf(Triggers), triggers, ending);
      ItemsUnder(before, LabelOf(Gate), BULLET, e.dispatchGate, lower);
      ItemsUnder(upper, LabelOf(Triggers), BULLET, e.escalationTriggers, ending);
    } else {
      assert lines == before + ([LabelOf(Gate)] + (gates + ending)) == upper + ending;
      ItemsUnder(before, LabelOf(Gate), BULLET, e.dispatchGate, ending);
      NoItemsWithout(lines, LabelOf(Triggers), BULLET);
    }
  }

  lemma ListHeadings(items: seq<string>)
    ensures LabelOf(Gate) != LabelOf(Triggers) && !(BULLET <= LabelOf(Triggers))
    ensures HasNoLists(Marked(BULLET, items))
  {
    TagStands(Gate);
    TagStands(Triggers);
    MarkedStart(BULLET, items);
    hide LabelOf, Marked;
  }

  lemma RegroupLists(before: seq<string>, g: string, gates: seq<string>, t: string, triggers: seq<string>,
                     ending: seq<string>)
    ensures var lines := before + ([g] + gates + ([t] + triggers) + ending);
      && lines == before + ([g] + (gates + ([t] + (triggers + ending))))
      && lines == (before + ([g] + gates)) + ([t] + (triggers + ending))
  {
  }

  const ROUTING_TOP := ["", ROUTING_HEADING]

  lemma ChildLinesAre(issue: IssueSpec, m: Manifest, numbers: Numbers)
    requires !issue.IsEpic() && issue.epic.Some? && issue.execution.Some?
    ensures var e := issue.execution.value;
      BodyLines(issue, m, numbers) == [MarkerLine(issue.key)]
        + (LineTexts(ChildValues(issue, numbers))
           + (ROUTING_TOP + (LineTexts(RoutingValues(e)) + (ListLines(e) + Ending(issue)))))
  {
    var e := issue.execution.value;
    LabelsAreTheirs();
    HeadIs(issue);
    LinksAre(issue, m, numbers);
    TailIsEnding(issue);
    RoutingIs(e);
    ListsAre(e);
    LineTextsConcat(HeadValues(issue), LinkValues(issue, numbers));
    RegroupRouting(EXECUTION_ROUTING, LineTexts(RoutingValues(e)), ListLines(e), EMPTY);
    RegroupBody([MarkerLine(issue.key)], LineTexts(HeadValues(issue)), LineTexts(LinkValues(issue, numbers)),
                ROUTING_TOP, LineTexts(RoutingValues(e)), ListLines(e), Ending(issue));
    hide LabelOf, HeadLines, LinkLines, TailLines, LineTexts, HeadValues, LinkValues, RoutingValues, Ending, MarkerLine,
         RoutingFields, RoutingLists, ListLines;
  }

  lemma RegroupRouting(heading: string, fields: seq<string>, lists: seq<string>, blank: string)
    ensures [blank] + ([heading] + (fields + lists)) == [blank, heading] + (fields + lists)
  {
  }

  lemma RegroupBody(top: seq<string>, head: seq<string>, links: seq<string>, heading: seq<string>, fields: seq<string>,
                    lists: seq<string>, ending: seq<string>)
    ensures top + (head + links + (heading + (fields + lists) + ending))
         == top + ((head + links) + (heading + (fields + (lists + ending))))
  {
  }

  lemma LineTextsConcat(a: seq<Line>, b: seq<Line>)
    ensures LineTexts(a + b) == LineTexts(a) + LineTexts(b)
  {
    hide LineText;
  }

  /** The fields of a child, wherever they stand. */
  lemma ChildFieldsRead(top: seq<string>, issue: IssueSpec, numbers: Numbers, name: Name)
    requires NoneStarts(top, '*') && issue.epic.Some? && issue.execution.Some?
    requires !name.Gate? && !name.Triggers?
    ensures var e, values := issue.execution.value, ChildValues(issue, numbers);
      Field(top + (LineTexts(values) + (ROUTING_TOP + (LineTexts(RoutingValues(e)) + (ListLines(e) + Ending(issue))))),
            LabelOf(name))
        == if FieldIn(values, name).Some? then FieldIn(values, name) else FieldIn(RoutingValues(e), name)
  {
    var e, values := issue.execution.value, ChildValues(issue, numbers);
    RoutingTopStarts();
    hide LabelOf, Field, FieldIn, LineTexts, ChildValues, RoutingValues, ListLines, Ending, NoneStarts;
    var rest := ListLines(e) + Ending(issue);
    FieldInBody(top, values, ROUTING_TOP + (LineTexts(RoutingValues(e)) + rest), name);
    FieldInBody(ROUTING_TOP, RoutingValues(e), rest, name);
    ListsHaveNoFields(e, issue, name);
  }

  lemma RoutingTopStarts()
    ensures NoneStarts(ROUTING_TOP, '*')
    ensures IsAbove(ROUTING_TOP)
  {
  }

  /** What stands above the lists of a child. */
  lemma ChildParts(issue: IssueSpec, numbers: Numbers)
    requires issue.epic.Some? && issue.execution.Some?
    ensures var e, top := issue.execution.value, [MarkerLine(issue.key)];
      var before := top + LineTexts(ChildValues(issue, numbers)) + ROUTING_TOP + LineTexts(RoutingValues(e));
      && HasNoLists(before)
      && IsAbove(before + ListLines(e))
      && Headings(before + ListLines(e)) == ["Execution routing"]
  {
    var e, top := issue.execution.value, [MarkerLine(issue.key)];
    var values, routing := LineTexts(ChildValues(issue, numbers)), LineTexts(RoutingValues(e));
    ChildNames(issue, numbers);
    ValuesAreNoLists(ChildValues(issue, numbers));
    ValuesAreNoLists(RoutingValues(e));
    MarkerStarts(issue.key);
    ListStarts(e);
    hide LineTexts, ChildValues, RoutingValues, ListLines, MarkerLine, Headings, HasNoLists, NoneStarts, IsAbove;
    PartsAbove(top, values, routing, ListLines(e));
  }

  lemma ValuesAreNoLists(ls: seq<Line>)
    requires forall l <- ls :: l.Value? ==> !l.name.Gate? && !l.name.Triggers?
    ensures HasNoLists(LineTexts(ls)) && NoneStarts(LineTexts(ls), '#')
  {
    LabelNotAmong(ls, Gate);
    LabelNotAmong(ls, Triggers);
    LinesAreBold(ls);
    hide LineTexts, LabelOf;
  }

  lemma PartsAbove(top: seq<string>, values: seq<string>, routing: seq<string>, lists: seq<string>)
    requires NoneStarts(top, '*') && NoneStarts(top, '#') && NoneStarts(values, '#') && NoneStarts(routing, '#')
    requires HasNoLists(values) && HasNoLists(routing) && NoneStarts(lists, '#')
    ensures var before := top + values + ROUTING_TOP + routing;
      && HasNoLists(before)
      && IsAbove(before + lists)
      && Headings(before + lists) == ["Execution routing"]
  {
    TagStands(Gate);
    TagStands(Triggers);
    RoutingTopStarts();
    hide LabelOf, Headings, ROUTING_TOP;
    OneHeadingAbove(top + values, routing + lists);
    assert top + values + ROUTING_TOP + (routing + lists) == top + values + ROUTING_TOP + routing + lists;
  }

  lemma ChildNames(issue: IssueSpec, numbers: Numbers)
    requires issue.epic.Some? && issue.execution.Some?
    ensures forall l <- ChildValues(issue, numbers) :: l.Value? ==> !l.name.Gate? && !l.name.Triggers?
    ensures forall l <- RoutingValues(issue.execution.value) :: l.Value? ==> !l.name.Gate? && !l.name.Triggers?
  {
  }

  lemma ListStarts(e: Execution)
    ensures forall l <- ListLines(e) :: l != "" && (l[0] == '*' || l[0] == '-')
    ensures NoneStarts(ListLines(e), '#')
  {
    TagStands(Gate);
    TagStands(Triggers);
    if !e.Historical? {
      MarkedStart(BULLET, e.dispatchGate);
    }
    if e.Executable? {
      MarkedStart(BULLET, e.escalationTriggers);
    }
    hide LabelOf, Marked;
  }

  lemma OneHeadingAbove(upper: seq<string>, lower: seq<string>)
    requires NoneStarts(upper, '#') && NoneStarts(lower, '#')
    ensures Headings(upper + ROUTING_TOP + lower) == ["Execution routing"]
  {
    TwoHeadings();
    NoHeadingsThere(upper);
    NoHeadingsThere(lower);
    hide Headings, NoneStarts;
    HeadingsConcat(upper + ROUTING_TOP, lower);
    HeadingsConcat(upper, ROUTING_TOP);
  }

  lemma ChildReads(issue: IssueSpec, m: Manifest, numbers: Numbers)
    requires !issue.IsEpic() && issue.epic.Some? && issue.execution.Some? && IsMarkerKey(issue.key)
    requires IsPlainKey(issue.epic.value) && forall k <- issue.dependsOn :: IsPlainKey(k)
    ensures Reads(BodyLines(issue, m, numbers), issue, m, numbers)
  {
    ChildLinesAre(issue, m, numbers);
    MarkerLineParses(issue.key);
    ChildReadsFields(issue, m, numbers);
    ChildReadsLists(issue, m, numbers);
    hide LabelOf, LineTexts, ChildValues, RoutingValues, ListLines, Ending, BodyLines, Field, Items, Headings,
         MarkerLine, MatchMarker, ReadLink, ReadLinks, Reference, References, InTicks;
  }

  lemma ChildReadsFields(issue: IssueSpec, m: Manifest, numbers: Numbers)
    requires !issue.IsEpic() && issue.epic.Some? && issue.execution.Some?
    requires IsPlainKey(issue.epic.value) && forall k <- issue.dependsOn :: IsPlainKey(k)
    ensures var lines, e := BodyLines(issue, m, numbers), issue.execution.value;
      && Field(lines, LabelOf(Plan)) == Some("`" + issue.plan + "`")
      && Field(lines, LabelOf(Task)) == Some(issue.task)
      && Field(lines, LabelOf(Privacy)) == Some(issue.privacyImpact)
      && Field(lines, LabelOf(Parent)).Some?
      && ReadLink(Field(lines, LabelOf(Parent)).value) == LinkTo(issue.epic.value, numbers)
      && Field(lines, LabelOf(Depends)).Some?
      && ReadLinks(Field(lines, LabelOf(Depends)).value) == LinksTo(issue.dependsOn, numbers)
      && Field(lines, LabelOf(Reason)) == Some(e.reason)
      && Field(lines, LabelOf(Status))
           == Some(if e.Executable? then "executable" else if e.Deferred? then "deferred" else "historical")
      && Field(lines, LabelOf(Owner)) == (if e.Executable? then Some(e.owner) else None)
      && Field(lines, LabelOf(Model)) == (if e.Executable? then Some(e.model + " / " + e.effort) else None)
  {
    var e, top := issue.execution.value, [MarkerLine(issue.key)];
    ChildLinesAre(issue, m, numbers);
    MarkerStarts(issue.key);
    LinkReads(issue.epic.value, numbers);
    LinksRead(issue.dependsOn, numbers);
    ChildFields(issue, numbers);
    RoutingFieldsRead(e);
    hide LabelOf, LineTexts, ChildValues, RoutingValues, ListLines, Ending, BodyLines, Field, FieldIn,
         MarkerLine, ReadLink, ReadLinks, Reference, References, Join, NoneStarts, IsPlainKey;
    ChildFieldsRead(top, issue, numbers, Plan);
    ChildFieldsRead(top, issue, numbers, Task);
    ChildFieldsRead(top, issue, numbers, Privacy);
    ChildFieldsRead(top, issue, numbers, Parent);
    ChildFieldsRead(top, issue, numbers, Depends);
    ChildFieldsRead(top, issue, numbers, Reason);
    ChildFieldsRead(top, issue, numbers, Status);
    ChildFieldsRead(top, issue, numbers, Owner);
    ChildFieldsRead(top, issue, numbers, Model);
  }

  lemma ChildReadsLists(issue: IssueSpec, m: Manifest, numbers: Numbers)
    requires !issue.IsEpic() && issue.epic.Some? && issue.execution.Some?
    ensures var lines, e := BodyLines(issue, m, numbers), issue.execution.value;
      && Items(lines, LabelOf(Gate), BULLET) == (if e.Historical? then [] else e.dispatchGate)
      && Items(lines, LabelOf(Triggers), BULLET) == (if e.Executable? then e.escalationTriggers else [])
      && Items(lines, ACCEPTANCE_HEADING, BOX) == issue.acceptance
      && Items(lines, VERIFICATION_HEADING, BULLET) == InTicks(issue.verification)
      && Headings(lines) == ["Execution routing", "Acceptance criteria", "Verification"]
  {
    var e, top := issue.execution.value, [MarkerLine(issue.key)];
    var values, routing := LineTexts(ChildValues(issue, numbers)), LineTexts(RoutingValues(e));
    ChildLinesAre(issue, m, numbers);
    ChildParts(issue, numbers);
    hide LabelOf, LineTexts, ChildValues, RoutingValues, ListLines, Ending, BodyLines, Items, Headings,
         MarkerLine, IsAbove, HasNoLists, InTicks;
    var before := top + values + ROUTING_TOP + routing;
    RegroupChild(top, values, routing, ListLines(e), Ending(issue));
    ListsRead(before, e, issue);
    EndingReads(before + ListLines(e), issue);
  }

  lemma RegroupChild(top: seq<string>, values: seq<string>, routing: seq<string>, lists: seq<string>, ending: seq<string>)
    ensures var lines := top + (values + (ROUTING_TOP + (routing + (lists + ending))));
      && lines == (top + values + ROUTING_TOP + routing) + (lists + ending)
      && lines == ((top + values + ROUTING_TOP + routing) + lists) + ending
  {
  }

  // ----- Any body -----

  /** The body rendered for a record of a valid manifest is lines, joined and ended by line
      breaks, from which the reader gets back everything the record says and the right number
      of every issue it mentions. */
  lemma BodyReadsBack(issue: IssueSpec, m: Manifest, numbers: Numbers) returns (lines: seq<string>)
    requires ValidManifest(m) && issue in m.issues
    ensures Render(issue, m, numbers) == Join(lines, "\n") + "\n"
    ensures Reads(lines, issue, m, numbers)
  {
    lines := BodyLines(issue, m, numbers);
    MentionedKeysArePlain(issue, m);
    KeysFitMarkers(issue.key);
    hide Reads, IsPlainKey, BodyLines;
    if issue.IsEpic() {
      EpicReads(issue, m, numbers);
    } else {
      ChildReads(issue, m, numbers);
    }
  }

  lemma MentionedKeysArePlain(issue: IssueSpec, m: Manifest)
    requires ValidManifest(m) && issue in m.issues
    ensures WellShaped(issue)
    ensures issue.IsEpic() ==> forall k <- issue.children :: IsPlainKey(k)
    ensures !issue.IsEpic() ==> issue.epic.Some? && IsPlainKey(issue.epic.value)
    ensures forall k <- issue.dependsOn :: IsPlainKey(k)
  {
    var i :| 0 <= i < |m.issues| && m.issues[i] == issue;
    assert IsRelated(m, m.issues[i]);
    hide IsPlainKey, IssueIsClean;
    forall j | 0 <= j < |m.issues|
      ensures IsPlainKey(m.issues[j].key)
    {
      KeysArePlain(m.issues[j].key);
    }
    if issue.IsEpic() {
      forall c | 0 <= c < |issue.children|
        ensures IsPlainKey(issue.children[c])
      {
        assert IsListable(m, issue, issue.children[c]);
      }
    }
  }
}
