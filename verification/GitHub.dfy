/** The planning side of a GitHub repository: labels, milestones and issues, and the writes
    the synchronizer makes. There is no other writer. */
module GitHub {
  import opened Wrappers
  import opened Text

  datatype Label = Label(name: string, color: string, description: string)

  datatype Milestone = Milestone(number: nat, title: string, description: string, isOpen: bool)

  datatype Issue = Issue(
    number: nat, isClosed: bool, title: string, body: string,
    labels: set<string>, milestone: Option<string>)

  /** What a create or update request for an issue carries. */
  datatype IssuePayload = IssuePayload(
    title: string, body: string, labels: set<string>, milestone: nat)

  // ----- Looking records up; the last of a list wins, as in a dictionary comprehension -----

  function FindLabel(labels: seq<Label>, name: string): (r: Option<Label>)
    ensures r.Some? ==> r.value.name == name && r.value in labels
    ensures r.None? ==> forall i | 0 <= i < |labels| :: labels[i].name != name
  {
    if labels == [] then None
    else if labels[|labels| - 1].name == name then Some(labels[|labels| - 1])
    else FindLabel(labels[..|labels| - 1], name)
  }

  function FindMilestone(ms: seq<Milestone>, title: string): (r: Option<Milestone>)
    ensures r.Some? ==> r.value.title == title && r.value in ms
    ensures r.None? ==> forall i | 0 <= i < |ms| :: ms[i].title != title
  {
    if ms == [] then None
    else if ms[|ms| - 1].title == title then Some(ms[|ms| - 1])
    else FindMilestone(ms[..|ms| - 1], title)
  }

  function TitleOfNumber(ms: seq<Milestone>, number: nat): (r: Option<string>)
    ensures r.Some? ==> exists i | 0 <= i < |ms| :: ms[i].number == number && ms[i].title == r.value
    ensures r.None? ==> forall i | 0 <= i < |ms| :: ms[i].number != number
  {
    if ms == [] then None
    else if ms[|ms| - 1].number == number then Some(ms[|ms| - 1].title)
    else TitleOfNumber(ms[..|ms| - 1], number)
  }

  // ----- Replacing records -----

  function ReplaceLabel(labels: seq<Label>, record: Label): (r: seq<Label>) {
    seq(|labels|, i requires 0 <= i < |labels| =>
      if labels[i].name == record.name then record else labels[i])
  }

  function ReplaceMilestone(ms: seq<Milestone>, record: Milestone): (r: seq<Milestone>) {
    seq(|ms|, i requires 0 <= i < |ms| => if ms[i].number == record.number then record else ms[i])
  }

  function ReplaceIssue(issues: seq<Issue>, record: Issue): (r: seq<Issue>) {
    seq(|issues|, i requires 0 <= i < |issues| =>
      if issues[i].number == record.number then record else issues[i])
  }

  function FindIssue(issues: seq<Issue>, number: nat): (r: Option<Issue>)
    ensures r.Some? ==> r.value in issues && r.value.number == number
    ensures r.None? ==> forall i | 0 <= i < |issues| :: issues[i].number != number
  {
    if issues == [] then None
    else if issues[|issues| - 1].number == number then Some(issues[|issues| - 1])
    else FindIssue(issues[..|issues| - 1], number)
  }

  // ----- Writes -----

  datatype ServerState = ServerState(
    labels: seq<Label>, milestones: seq<Milestone>, issues: seq<Issue>,
    nextMilestone: nat, nextIssue: nat)
  {
    /** Numbers are never shared or reused. */
    predicate WellFormed() {
      && (forall i | 0 <= i < |milestones| :: milestones[i].number < nextMilestone)
      && (forall i, j | 0 <= i < j < |milestones| :: milestones[i].number != milestones[j].number)
      && (forall i | 0 <= i < |issues| :: issues[i].number < nextIssue)
      && (forall i, j | 0 <= i < j < |issues| :: issues[i].number != issues[j].number)
    }

    /** Colours come back in lower case, which is why they are raised before comparing. */
    function CreateLabel(name: string, color: string, description: string): ServerState {
      this.(labels := labels + [Label(name, Lower(color), description)])
    }

    function UpdateLabel(name: string, color: string, description: string): ServerState {
      this.(labels := ReplaceLabel(labels, Label(name, Lower(color), description)))
    }

    function CreateMilestone(title: string, description: string): ServerState {
      this.(milestones := milestones + [Milestone(nextMilestone, title, description, true)],
            nextMilestone := nextMilestone + 1)
    }

    function UpdateMilestone(number: nat, title: string, description: string): ServerState {
      this.(milestones := ReplaceMilestone(milestones, Milestone(number, title, description, true)))
    }

    /** A new issue is open, has a fresh number and holds the payload. */
    function NewIssue(payload: IssuePayload): Issue {
      Issue(nextIssue, false, payload.title, payload.body, payload.labels,
            TitleOfNumber(milestones, payload.milestone))
    }

    function CreateIssue(payload: IssuePayload): ServerState {
      this.(issues := issues + [NewIssue(payload)], nextIssue := nextIssue + 1)
    }

    /** An update overwrites the payload's fields and keeps the number and the state. */
    function Rewritten(existing: Issue, payload: IssuePayload): Issue {
      existing.(title := payload.title, body := payload.body, labels := payload.labels,
                milestone := TitleOfNumber(milestones, payload.milestone))
    }

    function UpdateIssue(number: nat, payload: IssuePayload): ServerState {
      match FindIssue(issues, number)
      case Some(existing) => this.(issues := ReplaceIssue(issues, Rewritten(existing, payload)))
      case None => this
    }
  }

  /** The repository as the client meets it: every write changes it in place. */
  class Repository {
    var labels: seq<Label>
    var milestones: seq<Milestone>
    var issues: seq<Issue>
    var nextMilestone: nat
    var nextIssue: nat

    constructor (s: ServerState)
      ensures State() == s
    {
      labels, milestones, issues := s.labels, s.milestones, s.issues;
      nextMilestone, nextIssue := s.nextMilestone, s.nextIssue;
    }

    ghost function State(): ServerState
      reads this
    {
      ServerState(labels, milestones, issues, nextMilestone, nextIssue)
    }

    method CreateLabel(name: string, color: string, description: string)
      modifies this
      ensures State() == old(State()).CreateLabel(name, color, description)
    {
      labels := labels + [Label(name, Lower(color), description)];
    }

    method UpdateLabel(name: string, color: string, description: string)
      modifies this
      ensures State() == old(State()).UpdateLabel(name, color, description)
    {
      labels := ReplaceLabel(labels, Label(name, Lower(color), description));
    }

    method CreateMilestone(title: string, description: string)
      modifies this
      ensures State() == old(State()).CreateMilestone(title, description)
      ensures old(State()).WellFormed() ==>
        && State().WellFormed()
        && forall i | 0 <= i < |old(milestones)| :: milestones[i].number != milestones[|old(milestones)|].number
    {
      milestones := milestones + [Milestone(nextMilestone, title, description, true)];
      nextMilestone := nextMilestone + 1;
    }

    method UpdateMilestone(number: nat, title: string, description: string)
      modifies this
      ensures State() == old(State()).UpdateMilestone(number, title, description)
      ensures old(State()).WellFormed() ==> State().WellFormed()
    {
      milestones := ReplaceMilestone(milestones, Milestone(number, title, description, true));
    }

    method CreateIssue(payload: IssuePayload) returns (record: Issue)
      modifies this
      ensures record == old(State()).NewIssue(payload)
      ensures State() == old(State()).CreateIssue(payload)
      ensures old(State()).WellFormed() ==>
        && State().WellFormed()
        && forall i | 0 <= i < |old(issues)| :: old(issues)[i].number != record.number
    {
      record := Issue(nextIssue, false, payload.title, payload.body, payload.labels,
                      TitleOfNumber(milestones, payload.milestone));
      issues := issues + [record];
      nextIssue := nextIssue + 1;
    }

    method UpdateIssue(number: nat, payload: IssuePayload) returns (record: Issue)
      requires FindIssue(issues, number).Some?
      modifies this
      ensures record == old(State()).Rewritten(FindIssue(old(issues), number).value, payload)
      ensures State() == old(State()).UpdateIssue(number, payload)
      ensures old(State()).WellFormed() ==> State().WellFormed()
    {
      var existing := FindIssue(issues, number).value;
      record := existing.(title := payload.title, body := payload.body, labels := payload.labels,
                          milestone := TitleOfNumber(milestones, payload.milestone));
      issues := ReplaceIssue(issues, record);
    }
  }
}
