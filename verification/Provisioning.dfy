/** The checkpointed runner: a plan applied step by step, resumed after any failure, crash or
    stop from what the checkpoint file says. */
module Provisioning {
  import opened Wrappers
  import opened Text

  datatype Step = Step(
    stage: string, description: string, command: seq<string>,
    already: Option<seq<string>>, readOnly: bool, capture: Option<string>)

  datatype Checkpoint = Checkpoint(completed: seq<string>, changed: seq<string>, captured: map<string, string>)

  // ----- Step keys -----

  function Key(i: nat, step: Step): string {
    Decimal(i) + ":" + step.description
  }

  function Keys(steps: seq<Step>): seq<string> {
    seq(|steps|, i requires 0 <= i < |steps| => Key(i, steps[i]))
  }

  /** The index can be read back from a key, so keys of different steps differ even when
      their descriptions are the same. */
  lemma KeysAreDistinct(i: nat, a: Step, j: nat, b: Step)
    requires Key(i, a) == Key(j, b)
    ensures i == j
  {
    var x, y := Decimal(i), Decimal(j);
    var key := Key(i, a);
    assert key[|x|] == ':' && key[|y|] == ':';
    assert key[..|x|] == x && key[..|y|] == y;
    assert forall k | 0 <= k < |x| :: IsDigit(key[k]);
    assert forall k | 0 <= k < |y| :: IsDigit(key[k]);
    assert !IsDigit(':');
    assert |x| == |y|;
  }

  lemma CompletedMeansEarlier(steps: seq<Step>, n: nat, i: nat)
    requires n <= |steps| && i < |steps|
    ensures Key(i, steps[i]) in Keys(steps)[..n] <==> i < n
  {
    if i < n {
      assert Keys(steps)[..n][i] == Key(i, steps[i]);
    }
    if Key(i, steps[i]) in Keys(steps)[..n] {
      var j :| 0 <= j < n && Keys(steps)[..n][j] == Key(i, steps[i]);
      KeysAreDistinct(j, steps[j], i, steps[i]);
    }
  }

  // ----- What happens to a host, over all runs -----

  datatype Event =
    | Probed(step: nat, code: int)
    | Issued(step: nat, code: int)
    | Saved(count: nat)

  /** How many steps the checkpoint file records after these events. */
  function Recorded(log: seq<Event>): nat {
    if log == [] then 0
    else if log[|log| - 1].Saved? then log[|log| - 1].count
    else Recorded(log[..|log| - 1])
  }

  /** The keys of changed steps: recorded after their command ran, and not read-only. */
  function ChangedKeys(steps: seq<Step>, n: nat, ran: set<nat>): seq<string>
    requires n <= |steps|
  {
    if n == 0 then []
    else
      var last := if n - 1 in ran && !steps[n - 1].readOnly then [Key(n - 1, steps[n - 1])] else [];
      ChangedKeys(steps, n - 1, ran) + last
  }

  /** A command or a probe is only ever issued for the step right after the recorded ones, and
      each rewrite of the file records one step more. */
  predicate OnlyNextIsTouched(log: seq<Event>) {
    forall p | 0 <= p < |log| ::
      if log[p].Saved? then log[p].count == Recorded(log[..p]) + 1 else log[p].step == Recorded(log[..p])
  }

  /** A step is recorded on the evidence of its probe or its command having succeeded. */
  predicate RecordedOnEvidence(log: seq<Event>, n: nat) {
    forall i | 0 <= i < n :: Probed(i, 0) in log || Issued(i, 0) in log
  }

  /** A command that was recorded as run came after no probe, or after one that failed. */
  ghost predicate RanAfterProbe(steps: seq<Step>, log: seq<Event>, ran: set<nat>) {
    forall i | i in ran && i < |steps| ::
      Issued(i, 0) in log && (steps[i].already.Some? ==> exists code :: code != 0 && Probed(i, code) in log)
  }

  /** What stands right before an event: a probe is of a step that has one, a command of a probed
      step comes right after its probe failed, and a step is recorded right after its probe or
      its command succeeded. */
  predicate Follows(steps: seq<Step>, before: seq<Event>, e: Event) {
    match e
    case Probed(i, _) => i < |steps| && steps[i].already.Some?
    case Issued(i, _) =>
      && i < |steps|
      && (steps[i].already.Some? ==>
            && before != []
            && var last := before[|before| - 1];
               last.Probed? && last.step == i && last.code != 0)
    case Saved(n) =>
      && n > 0 && before != []
      && (before[|before| - 1] == Probed(n - 1, 0) || before[|before| - 1] == Issued(n - 1, 0))
  }

  predicate EachFollows(steps: seq<Step>, log: seq<Event>) {
    forall p | 0 <= p < |log| :: Follows(steps, log[..p], log[p])
  }

  lemma FollowsGrows(steps: seq<Step>, log: seq<Event>, e: Event)
    requires EachFollows(steps, log) && Follows(steps, log, e)
    ensures EachFollows(steps, log + [e])
  {
    hide Follows;
    assert (log + [e])[..|log|] == log;
    forall p | 0 <= p < |log|
      ensures (log + [e])[..p] == log[..p] && (log + [e])[p] == log[p]
    {
    }
  }

  /** Everything a host went through, over all runs so far: the checkpoint file, the events,
      and the steps recorded after their command ran. */
  ghost predicate History(steps: seq<Step>, saved: Checkpoint, log: seq<Event>, ran: set<nat>) {
    && |saved.completed| <= |steps|
    && saved.completed == Keys(steps)[..|saved.completed|]
    && saved.changed == ChangedKeys(steps, |saved.completed|, ran)
    && Recorded(log) == |saved.completed|
    && OnlyNextIsTouched(log)
    && EachFollows(steps, log)
    && RecordedOnEvidence(log, |saved.completed|)
    && RanAfterProbe(steps, log, ran)
    && (forall i | i in ran :: i < |saved.completed|)
  }

  lemma HistoryStarts(steps: seq<Step>)
    ensures History(steps, Checkpoint([], [], map[]), [], {})
  {
  }

  /** Probing or running the next step keeps the history. */
  lemma HistoryTouched(steps: seq<Step>, saved: Checkpoint, log: seq<Event>, ran: set<nat>, e: Event)
    requires History(steps, saved, log, ran) && !e.Saved? && e.step == |saved.completed|
    requires Follows(steps, log, e)
    ensures History(steps, saved, log + [e], ran)
  {
    hide EachFollows, Follows;
    GrowsByTouch(log, e);
    FollowsGrows(steps, log, e);
    EvidenceGrows(steps, log, e, |saved.completed|, ran);
  }

  lemma EvidenceGrows(steps: seq<Step>, log: seq<Event>, e: Event, n: nat, ran: set<nat>)
    requires RecordedOnEvidence(log, n) && RanAfterProbe(steps, log, ran)
    ensures RecordedOnEvidence(log + [e], n) && RanAfterProbe(steps, log + [e], ran)
  {
    forall i | i in ran && i < |steps| && steps[i].already.Some?
      ensures exists code :: code != 0 && Probed(i, code) in log + [e]
    {
      var code :| code != 0 && Probed(i, code) in log;
      assert Probed(i, code) in log + [e];
    }
  }

  /** What a step has to have shown before it may be recorded. */
  ghost predicate HasEvidence(steps: seq<Step>, log: seq<Event>, n: nat, byCommand: bool)
    requires n < |steps|
  {
    if byCommand then
      && Issued(n, 0) in log
      && (steps[n].already.Some? ==> exists code :: code != 0 && Probed(n, code) in log)
    else Probed(n, 0) in log
  }

  ghost predicate WithStep(steps: seq<Step>, saved: Checkpoint, next: Checkpoint, byCommand: bool)
    requires |saved.completed| < |steps|
  {
    var key := Key(|saved.completed|, steps[|saved.completed|]);
    && next.completed == saved.completed + [key]
    && next.changed == saved.changed
         + (if byCommand && !steps[|saved.completed|].readOnly then [key] else [])
    && IsCaptured(steps[|saved.completed|], saved.captured, next.captured, byCommand)
  }

  /** The output of a command is kept, under the name the step gives it, if it has one. */
  ghost predicate IsCaptured(step: Step, before: map<string, string>, after: map<string, string>, byCommand: bool) {
    if byCommand && step.capture.Some? then
      var name := step.capture.value; name in after && after == before[name := after[name]]
    else after == before
  }

  /** Recording the next step on evidence keeps the history. */
  lemma HistorySaved(steps: seq<Step>, saved: Checkpoint, next: Checkpoint, log: seq<Event>, ran: set<nat>,
                     byCommand: bool)
    requires History(steps, saved, log, ran) && |saved.completed| < |steps|
    requires WithStep(steps, saved, next, byCommand)
    requires HasEvidence(steps, log, |saved.completed|, byCommand)
    requires Follows(steps, log, Saved(|next.completed|))
    ensures History(steps, next, log + [Saved(|next.completed|)],
                    if byCommand then ran + {|saved.completed|} else ran)
  {
    hide Key, RecordedOnEvidence, RanAfterProbe, OnlyNextIsTouched, EachFollows, Follows;
    var n := |saved.completed|;
    FollowsGrows(steps, log, Saved(n + 1));
    var longer := if byCommand then ran + {n} else ran;
    ChangedIgnores(steps, n, ran, longer);
    GrowsByTouch(log, Saved(n + 1));
    EvidenceExtends(steps, log, n, ran, byCommand);
    EvidenceGrows(steps, log, Saved(n + 1), n + 1, longer);
    assert Keys(steps)[..n + 1] == Keys(steps)[..n] + [Key(n, steps[n])];
  }

  lemma EvidenceExtends(steps: seq<Step>, log: seq<Event>, n: nat, ran: set<nat>, byCommand: bool)
    requires RecordedOnEvidence(log, n) && RanAfterProbe(steps, log, ran)
    requires n < |steps| && HasEvidence(steps, log, n, byCommand)
    ensures RecordedOnEvidence(log, n + 1)
    ensures RanAfterProbe(steps, log, if byCommand then ran + {n} else ran)
  {
  }

  /** The target of provisioning: the checkpoint file, and what was done to it so far. */
  class Host {
    var saved: Checkpoint
    ghost var log: seq<Event>
    ghost var ran: set<nat>  // steps recorded after their command ran
    ghost var printed: string  // by the last command

    constructor ()
      ensures saved == Checkpoint([], [], map[]) && log == [] && ran == {}
    {
      saved, log, ran, printed := Checkpoint([], [], map[]), [], {}, "";
    }

    ghost predicate Valid(steps: seq<Step>)
      reads this
    {
      History(steps, saved, log, ran)
    }

    /** Runs a read-only probe; the host decides the exit code. */
    method Probe(steps: seq<Step>, i: nat) returns (code: int)
      requires Valid(steps) && i == |saved.completed| < |steps| && steps[i].already.Some?
      modifies this`log
      ensures Valid(steps) && log == old(log) + [Probed(i, code)]
    {
      hide History;
      code := *;
      HistoryTouched(steps, saved, log, ran, Probed(i, code));
      log := log + [Probed(i, code)];
    }

    /** Issues the command of a step; the host decides how it ends. */
    method Execute(steps: seq<Step>, i: nat) returns (code: int, output: string)
      requires Valid(steps) && i == |saved.completed| < |steps|
      requires Follows(steps, log, Issued(i, 0))
      modifies this`log, this`printed
      ensures Valid(steps) && log == old(log) + [Issued(i, code)] && printed == output
    {
      hide History;
      code := *;
      output := *;
      HistoryTouched(steps, saved, log, ran, Issued(i, code));
      log := log + [Issued(i, code)];
      printed := output;
    }

    /** Rewrites the checkpoint file, whole or not at all. */
    method Save(steps: seq<Step>, next: Checkpoint, ghost byCommand: bool)
      requires Valid(steps) && |saved.completed| < |steps|
      requires WithStep(steps, saved, next, byCommand)
      requires HasEvidence(steps, log, |saved.completed|, byCommand)
      requires Follows(steps, log, Saved(|next.completed|))
      modifies this`saved, this`log, this`ran
      ensures Valid(steps) && saved == next
      ensures log == old(log) + [Saved(|next.completed|)]
    {
      hide History;
      HistorySaved(steps, saved, next, log, ran, byCommand);
      ran := if byCommand then ran + {|saved.completed|} else ran;
      saved := next;
      log := log + [Saved(|next.completed|)];
    }
  }

  lemma GrowsByTouch(log: seq<Event>, e: Event)
    requires OnlyNextIsTouched(log)
    requires if e.Saved? then e.count == Recorded(log) + 1 else e.step == Recorded(log)
    ensures OnlyNextIsTouched(log + [e])
    ensures Recorded(log + [e]) == if e.Saved? then e.count else Recorded(log)
  {
    var longer := log + [e];
    assert longer[..|log|] == log;
    forall p | 0 <= p < |log|
      ensures longer[p] == log[p] && longer[..p] == log[..p]
    {
    }
  }

  lemma {:induction false} ChangedIgnores(steps: seq<Step>, n: nat, a: set<nat>, b: set<nat>)
    requires n <= |steps| && forall i | 0 <= i < n :: i in a <==> i in b
    ensures ChangedKeys(steps, n, a) == ChangedKeys(steps, n, b)
  {
    if n > 0 {
      ChangedIgnores(steps, n - 1, a, b);
    }
  }

  // ----- One run -----

  datatype Outcome = Done | Refused(description: string) | Crashed

  /** In the events of this run, a command at or past the limit is the last command. */
  predicate StopsAt(log: seq<Event>, from: nat, limit: int) {
    forall p, q | from <= p < q < |log| && log[p].Issued? && log[p].step >= limit :: !log[q].Issued?
  }

  /** How a run that returns has left the host. */
  ghost predicate EndsAs(steps: seq<Step>, outcome: Outcome, n: nat, log: seq<Event>, stopAfter: Option<int>) {
    match outcome
    case Done => n == |steps| || (stopAfter.Some? && n - 1 >= stopAfter.value)
    case Refused(description) =>
      && n < |steps|
      && steps[n].description == description
      && log != []
      && log[|log| - 1].Issued? && log[|log| - 1].step == n && log[|log| - 1].code != 0
    case Crashed => true
  }

  /** No command of this run before the last one is at or past the limit. */
  ghost predicate BelowLimit(log: seq<Event>, from: nat, stopAfter: Option<int>) {
    stopAfter.Some? ==>
      forall p | from <= p < |log| && log[p].Issued? :: log[p].step < stopAfter.value
  }

  /** How many more effects a machine makes before it crashes; None if it never does. */
  type Power = Option<nat>

  function Spend(power: Power): (rest: Power)
    requires power != Some(0)
    ensures rest.None? <==> power.None?
  {
    if power.None? then None else Some(power.value - 1)
  }

  /** `apply`: it may fail, be stopped, or crash between any two effects. Steps recorded before
      stay recorded; a run that is not stopped completes the plan; a stopped one issued at most
      one command at or past the limit, its last; a complete plan is left alone. */
  method Apply(steps: seq<Step>, host: Host, stopAfter: Option<int>, power: Power) returns (outcome: Outcome)
    requires host.Valid(steps)
    modifies host
    ensures host.Valid(steps)
    ensures old(host.log) <= host.log && old(host.saved.completed) <= host.saved.completed
    ensures EndsAs(steps, outcome, |host.saved.completed|, host.log, stopAfter)
    ensures stopAfter.Some? ==> StopsAt(host.log, |old(host.log)|, stopAfter.value)
    ensures outcome.Crashed? ==> power.Some? && |host.saved.completed| < |steps|
    ensures |old(host.saved.completed)| == |steps| ==> host.log == old(host.log) && outcome.Done?
  {
    hide Key, History;
    ghost var from := |host.log|;
    var left := power;
    SavedIsPrefix(steps, host);
    for index := 0 to |steps|
      invariant host.Valid(steps)
      invariant index <= |host.saved.completed| <= |steps|
      invariant old(host.log) <= host.log && old(host.saved.completed) <= host.saved.completed
      invariant BelowLimit(host.log, from, stopAfter)
      invariant |old(host.saved.completed)| == |steps| ==> host.log == old(host.log)
      invariant left.Some? ==> power.Some?
    {
      SavedIsPrefix(steps, host);
      CompletedMeansEarlier(steps, |host.saved.completed|, index);
      if Key(index, steps[index]) in host.saved.completed {
        continue;
      }
      ghost var before := host.log;
      var progress;
      progress, left := TakeStep(steps, host, index, left);
      TurnMeans(steps[index], index, before, host.log, progress);
      match progress
      case Satisfied =>
      case Failed => return Refused(steps[index].description);
      case Lost => return Crashed;
      case Ran =>
        if stopAfter.Some? && index >= stopAfter.value {
          return Done;
        }
    }
    outcome := Done;
  }

  datatype Progress = Satisfied | Ran | Failed | Lost

  /** The events of one turn. A probe that succeeds is the only thing done before the step is
      recorded; otherwise the command is issued, and the step recorded when it succeeds. */
  predicate IsTurn(step: Step, i: nat, events: seq<Event>, progress: Progress) {
    var probes := if step.already.Some? then 1 else 0;
    match progress
    case Satisfied => step.already.Some? && events == [Probed(i, 0), Saved(i + 1)]
    case Ran =>
      && |events| == probes + 2 && FailedProbe(step, i, events)
      && events[probes] == Issued(i, 0) && events[probes + 1] == Saved(i + 1)
    case Failed =>
      && |events| == probes + 1 && FailedProbe(step, i, events)
      && events[probes].Issued? && events[probes].step == i && events[probes].code != 0
    case Lost =>
      || events == []
      || (step.already.Some? && |events| == 1 && events[0].Probed? && events[0].step == i)
      || (|events| == probes + 1 && FailedProbe(step, i, events) && events[probes] == Issued(i, 0))
  }

  predicate FailedProbe(step: Step, i: nat, events: seq<Event>) {
    step.already.Some? ==> events != [] && events[0].Probed? && events[0].step == i && events[0].code != 0
  }

  /** What a turn adds to the log, said of the log. */
  lemma TurnMeans(step: Step, i: nat, before: seq<Event>, log: seq<Event>, progress: Progress)
    requires before <= log && IsTurn(step, i, log[|before|..], progress)
    ensures forall p | |before| <= p < |log| && log[p].Issued? :: log[p].step == i
    ensures progress.Satisfied? ==> forall p | |before| <= p < |log| :: !log[p].Issued?
    ensures forall p, q | |before| <= p < q < |log| && log[p].Issued? :: !log[q].Issued?
    ensures progress.Failed? ==>
      && log != []
      && var e := log[|log| - 1];
         e.Issued? && e.step == i && e.code != 0
  {
    var events := log[|before|..];
    assert forall p | |before| <= p < |log| :: log[p] == events[p - |before|];
  }

  /** One turn of the loop, for the first step that is not recorded. */
  method TakeStep(steps: seq<Step>, host: Host, index: nat, power: Power)
    returns (progress: Progress, left: Power)
    requires host.Valid(steps) && index == |host.saved.completed| < |steps|
    modifies host
    ensures host.Valid(steps)
    ensures old(host.log) <= host.log && old(host.saved.completed) <= host.saved.completed
    ensures |host.saved.completed| == if progress.Satisfied? || progress.Ran? then index + 1 else index
    ensures IsTurn(steps[index], index, host.log[|old(host.log)|..], progress)
    ensures host.saved.captured ==
      if progress.Ran? && steps[index].capture.Some? then
        old(host.saved.captured)[steps[index].capture.value := host.printed]
      else old(host.saved.captured)
    ensures left.Some? ==> power.Some?
    ensures progress.Lost? ==> power.Some?
  {
    hide History, Key;
    left := power;
    var step := steps[index];
    ghost var probe := 0;
    if step.already.Some? {
      if left == Some(0) {
        return Lost, left;
      }
      left := Spend(left);
      var code := host.Probe(steps, index);
      probe := code;
      if code == 0 {
        if left == Some(0) {
          return Lost, left;
        }
        left := Spend(left);
        var checkpoint := host.saved.(completed := host.saved.completed + [Key(index, step)]);
        host.Save(steps, checkpoint, false);
        return Satisfied, left;
      }
    }
    ghost var before := host.log;
    assert step.already.Some? ==> probe != 0 && Probed(index, probe) in before;
    progress, left := RunStep(steps, host, index, left);
  }

  /** What the second half of a turn adds to the log. */
  predicate IsRun(i: nat, events: seq<Event>, progress: Progress) {
    match progress
    case Satisfied => false
    case Ran => events == [Issued(i, 0), Saved(i + 1)]
    case Failed => |events| == 1 && events[0].Issued? && events[0].step == i && events[0].code != 0
    case Lost => events == [] || events == [Issued(i, 0)]
  }

  /** The second half of a turn: the probe, if there is one, failed. */
  method RunStep(steps: seq<Step>, host: Host, index: nat, power: Power)
    returns (progress: Progress, left: Power)
    requires host.Valid(steps) && index == |host.saved.completed| < |steps|
    requires Follows(steps, host.log, Issued(index, 0))
    requires steps[index].already.Some? ==> exists code :: code != 0 && Probed(index, code) in host.log
    modifies host
    ensures host.Valid(steps)
    ensures old(host.log) <= host.log && old(host.saved.completed) <= host.saved.completed
    ensures |host.saved.completed| == if progress.Ran? then index + 1 else index
    ensures IsRun(index, host.log[|old(host.log)|..], progress)
    ensures host.saved.captured ==
      if progress.Ran? && steps[index].capture.Some? then
        old(host.saved.captured)[steps[index].capture.value := host.printed]
      else old(host.saved.captured)
    ensures left.Some? ==> power.Some?
    ensures progress.Lost? ==> power.Some?
  {
    hide History, Key;
    left := power;
    var step := steps[index];
    var checkpoint := host.saved;
    var key := Key(index, step);
    if left == Some(0) {
      return Lost, left;
    }
    left := Spend(left);
    ghost var before := host.log;
    var code, output := host.Execute(steps, index);
    if code != 0 {
      return Failed, left;
    }
    if step.capture.Some? {
      checkpoint := checkpoint.(captured := checkpoint.captured[step.capture.value := output]);
    }
    if !step.readOnly {
      checkpoint := checkpoint.(changed := checkpoint.changed + [key]);
    }
    checkpoint := checkpoint.(completed := checkpoint.completed + [key]);
    if left == Some(0) {
      return Lost, left;
    }
    left := Spend(left);
    EvidenceOfRun(steps[index], index, before, host.log);
    host.Save(steps, checkpoint, true);
    progress := Ran;
  }

  lemma EvidenceOfRun(step: Step, i: nat, before: seq<Event>, log: seq<Event>)
    requires before <= log
    requires step.already.Some? ==> exists code :: code != 0 && Probed(i, code) in before
    ensures step.already.Some? ==> exists code :: code != 0 && Probed(i, code) in log
  {
    if step.already.Some? {
      var code :| code != 0 && Probed(i, code) in before;
      assert Probed(i, code) in log;
    }
  }

  lemma SavedIsPrefix(steps: seq<Step>, host: Host)
    requires host.Valid(steps)
    ensures |host.saved.completed| <= |steps|
    ensures host.saved.completed == Keys(steps)[..|host.saved.completed|]
  {
  }

  /** Any number of runs, each stopped, failed or crashed as it may be. */
  method ApplyAgainAndAgain(steps: seq<Step>, runs: seq<(Option<int>, Power)>) returns (host: Host)
    ensures fresh(host) && host.Valid(steps)
  {
    hide History;
    host := new Host();
    HistoryStarts(steps);
    for r := 0 to |runs|
      invariant fresh(host) && host.Valid(steps)
    {
      var _ := Apply(steps, host, runs[r].0, runs[r].1);
    }
  }

  // ----- What that means -----

  lemma {:induction false} ChangedKeysMember(steps: seq<Step>, n: nat, ran: set<nat>, i: nat)
    requires n <= |steps| && i < |steps|
    ensures Key(i, steps[i]) in ChangedKeys(steps, n, ran) <==> i < n && i in ran && !steps[i].readOnly
  {
    hide Key;
    if n > 0 {
      ChangedKeysMember(steps, n - 1, ran, i);
      if i != n - 1 && Key(i, steps[i]) == Key(n - 1, steps[n - 1]) {
        KeysAreDistinct(i, steps[i], n - 1, steps[n - 1]);
      }
    }
  }

  // ----- What a history shows -----

  lemma {:induction false} RecordedGrows(log: seq<Event>, p: nat, q: nat)
    requires OnlyNextIsTouched(log) && p <= q <= |log|
    ensures Recorded(log[..p]) <= Recorded(log[..q])
    decreases q
  {
    if p < q {
      RecordedGrows(log, p, q - 1);
      assert log[..q][..q - 1] == log[..q - 1];
    }
  }

  /** Once a step is recorded, no later run probes it or issues its command again. */
  lemma RecordedIsNeverRepeated(steps: seq<Step>, saved: Checkpoint, log: seq<Event>, ran: set<nat>, p: nat, q: nat)
    requires History(steps, saved, log, ran)
    requires p < q < |log| && log[p].Saved? && !log[q].Saved?
    ensures log[q].step >= log[p].count
  {
    RecordedGrows(log, p + 1, q);
    assert log[..p + 1][..p] == log[..p];
  }

  /** A command is issued only after every earlier step was recorded, on evidence that is in
      the log before it. */
  lemma CommandsComeInOrder(steps: seq<Step>, saved: Checkpoint, log: seq<Event>, ran: set<nat>, p: nat, i: nat)
    requires History(steps, saved, log, ran)
    requires p < |log| && log[p].Issued? && i < log[p].step
    ensures exists q | 0 <= q < p :: log[q] == Saved(i + 1)
  {
    CountIsReached(log, p, i);
  }

  lemma {:induction false} CountIsReached(log: seq<Event>, p: nat, i: nat)
    requires OnlyNextIsTouched(log) && p <= |log| && i < Recorded(log[..p])
    ensures exists q | 0 <= q < p :: log[q] == Saved(i + 1)
    decreases p
  {
    var n := p - 1;
    assert log[..p][..n] == log[..n];
    if log[n] != Saved(i + 1) {
      CountIsReached(log, n, i);
      var q :| 0 <= q < n && log[q] == Saved(i + 1);
    }
  }

  /** Picking some of the elements of a list, in order. */
  predicate IsSubsequence(a: seq<string>, b: seq<string>) {
    if a == [] then true
    else if b == [] then false
    else if a[|a| - 1] == b[|b| - 1] then IsSubsequence(a[..|a| - 1], b[..|b| - 1])
    else IsSubsequence(a, b[..|b| - 1])
  }

  lemma {:induction false} ChangedIsSubsequence(steps: seq<Step>, n: nat, ran: set<nat>)
    requires n <= |steps|
    ensures IsSubsequence(ChangedKeys(steps, n, ran), Keys(steps)[..n])
  {
    hide Key;
    if n > 0 {
      ChangedIsSubsequence(steps, n - 1, ran);
      var changed, completed := ChangedKeys(steps, n, ran), Keys(steps)[..n];
      assert completed[..n - 1] == Keys(steps)[..n - 1];
      if !(n - 1 in ran && !steps[n - 1].readOnly) {
        assert changed == ChangedKeys(steps, n - 1, ran);
        assert completed[n - 1] == Key(n - 1, steps[n - 1]);
        if changed != [] {
          LastChangedIsEarlier(steps, n - 1, ran);
        }
      } else {
        assert changed[..|changed| - 1] == ChangedKeys(steps, n - 1, ran);
      }
    }
  }

  lemma LastChangedIsEarlier(steps: seq<Step>, n: nat, ran: set<nat>)
    requires n < |steps| && ChangedKeys(steps, n, ran) != []
    ensures var changed := ChangedKeys(steps, n, ran);
      changed[|changed| - 1] != Key(n, steps[n])
  {
    hide Key;
    ChangedAreEarlier(steps, n, ran);
    var changed := ChangedKeys(steps, n, ran);
    assert changed[|changed| - 1] in changed;
    var i :| 0 <= i < n && Key(i, steps[i]) == changed[|changed| - 1];
    if changed[|changed| - 1] == Key(n, steps[n]) {
      KeysAreDistinct(i, steps[i], n, steps[n]);
    }
  }

  lemma {:induction false} ChangedAreEarlier(steps: seq<Step>, n: nat, ran: set<nat>)
    requires n <= |steps|
    ensures forall key | key in ChangedKeys(steps, n, ran) :: exists i | 0 <= i < n :: Key(i, steps[i]) == key
  {
    hide Key;
    if n > 0 {
      ChangedAreEarlier(steps, n - 1, ran);
    }
  }

  /** After any runs, however they ended: the completed list has no duplicates and is a prefix
      of the plan, and the changed list is a subsequence of it. */
  lemma CheckpointIsSound(steps: seq<Step>, saved: Checkpoint, log: seq<Event>, ran: set<nat>)
    requires History(steps, saved, log, ran)
    ensures saved.completed <= Keys(steps)
    ensures forall i, j | 0 <= i < j < |saved.completed| :: saved.completed[i] != saved.completed[j]
    ensures IsSubsequence(saved.changed, saved.completed)
  {
    hide Key;
    ChangedIsSubsequence(steps, |saved.completed|, ran);
    forall i, j | 0 <= i < j < |saved.completed|
      ensures saved.completed[i] != saved.completed[j]
    {
      if saved.completed[i] == saved.completed[j] {
        KeysAreDistinct(i, steps[i], j, steps[j]);
      }
    }
  }

  /** A command of a probed step is only ever issued right after its probe failed, so where
      every probe comes back satisfied no such command is issued at all. */
  lemma SatisfiedProbesIssueNothing(steps: seq<Step>, saved: Checkpoint, log: seq<Event>, ran: set<nat>, p: nat)
    requires History(steps, saved, log, ran)
    requires forall e | e in log && e.Probed? :: e.code == 0
    requires p < |log| && log[p].Issued?
    ensures log[p].step < |steps| && steps[log[p].step].already.None?
  {
    assert Follows(steps, log[..p], log[p]);
    assert p > 0 ==> log[p - 1] in log;
  }

  /** If every probe ever made came back satisfied, only steps without a probe can have
      changed anything; a plan whose steps are all read-only or probed then changes nothing. */
  lemma SatisfiedProbesChangeNothing(steps: seq<Step>, saved: Checkpoint, log: seq<Event>, ran: set<nat>)
    requires History(steps, saved, log, ran)
    requires forall i | 0 <= i < |steps| :: steps[i].readOnly || steps[i].already.Some?
    requires forall e | e in log && e.Probed? :: e.code == 0
    ensures saved.changed == []
  {
    forall i | i in ran && i < |steps|
      ensures steps[i].readOnly
    {
    }
    NothingChanged(steps, |saved.completed|, ran);
  }

  lemma {:induction false} NothingChanged(steps: seq<Step>, n: nat, ran: set<nat>)
    requires n <= |steps| && forall i | i in ran && i < |steps| :: steps[i].readOnly
    ensures ChangedKeys(steps, n, ran) == []
  {
    if n > 0 {
      NothingChanged(steps, n - 1, ran);
    }
  }
}
