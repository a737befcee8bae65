/** Installing a release beside the others and moving the `current` link, and moving it back.
    The machine may stop between any two steps. */
module Deploy {
  import opened Wrappers
  import opened Text

  // ----- The order of release directories -----

  /** The order of two directory names: by code point, a prefix first. */
  predicate Less(a: string, b: string) {
    b != [] && (a == [] || a[0] < b[0] || (a[0] == b[0] && Less(a[1..], b[1..])))
  }

  lemma {:induction false} LessIsTotal(a: string, b: string)
    ensures Less(a, b) || a == b || Less(b, a)
    ensures !(Less(a, b) && Less(b, a)) && !Less(a, a)
  {
    if a != [] && b != [] {
      LessIsTotal(a[1..], b[1..]);
      assert a == [a[0]] + a[1..] && b == [b[0]] + b[1..];
    }
    if a != [] {
      LessIsTotal(a[1..], a[1..]);
    }
  }

  lemma {:induction false} LessIsTransitive(a: string, b: string, c: string)
    requires Less(a, b) && Less(b, c)
    ensures Less(a, c)
  {
    if a != [] && a[0] == b[0] == c[0] {
      LessIsTransitive(a[1..], b[1..], c[1..]);
    }
  }

  // ----- Names that are moments -----

  predicate IsHex(c: char) {
    IsDigit(c) || 'a' <= c <= 'f'
  }

  /** `RELEASE_ID_PATTERN`: date, `T`, time, `Z-`, seven to forty hexadecimal digits. */
  predicate IsReleaseId(id: string) {
    && 24 <= |id| <= 57
    && (forall i | 0 <= i < 15 && i != 8 :: IsDigit(id[i]))
    && id[8] == 'T' && id[15] == 'Z' && id[16] == '-'
    && forall i | 17 <= i < |id| :: IsHex(id[i])
  }

  /** The moment a release id names, as one number: year, month, day, hour, minute, second. */
  function Moment(id: string): nat
    requires IsReleaseId(id)
  {
    DecimalValue(id[..8] + id[9..15])
  }

  /** Whatever the commit says, an earlier release comes first. */
  lemma EarlierComesFirst(a: string, b: string)
    requires IsReleaseId(a) && IsReleaseId(b) && Moment(a) < Moment(b)
    ensures Less(a, b)
  {
    var x, y := a[..8] + a[9..15], b[..8] + b[9..15];
    var k := DigitsDiffer(x, y);
    var at := if k < 8 then k else k + 1;
    assert a[at] == x[k] && b[at] == y[k];
    assert forall i | 0 <= i < at :: a[i] == b[i] by {
      forall i | 0 <= i < at && i != 8
        ensures a[i] == b[i]
      {
        var j := if i < 8 then i else i - 1;
        assert x[j] == y[j];
      }
    }
    FirstDifferenceDecides(a, b, at);
  }

  /** The smaller of two numbers of equally many digits has the smaller digit at the first
      place where they differ. */
  lemma {:induction false} DigitsDiffer(x: string, y: string) returns (k: nat)
    requires |x| == |y| && AllDigits(x) && AllDigits(y)
    requires DecimalValue(x) < DecimalValue(y)
    ensures k < |x| && x[k] < y[k] && x[..k] == y[..k]
  {
    var n := |x| - 1;
    if DecimalValue(x[..n]) < DecimalValue(y[..n]) {
      k := DigitsDiffer(x[..n], y[..n]);
      assert x[..n][..k] == x[..k] && y[..n][..k] == y[..k];
    } else {
      SameValueSameDigits(x[..n], y[..n]);
      k := n;
    }
  }

  lemma {:induction false} SameValueSameDigits(x: string, y: string)
    requires |x| == |y| && AllDigits(x) && AllDigits(y)
    requires DecimalValue(x) == DecimalValue(y)
    ensures x == y
  {
    if x != [] {
      var n := |x| - 1;
      ValueSplits(x);
      ValueSplits(y);
      hide DecimalValue, DigitValue;
      LastDigit(x[..n], DigitValue(x[n]), y[..n], DigitValue(y[n]));
      SameValueSameDigits(x[..n], y[..n]);
      assert x == x[..n] + [x[n]] && y == y[..n] + [y[n]];
    }
  }

  lemma ValueSplits(x: string)
    requires x != [] && AllDigits(x)
    ensures var n := |x| - 1;
      AllDigits(x[..n]) && DigitValue(x[n]) < 10 && DecimalValue(x) == 10 * DecimalValue(x[..n]) + DigitValue(x[n])
  {
  }

  lemma LastDigit(x: string, a: nat, y: string, b: nat)
    requires AllDigits(x) && AllDigits(y) && a < 10 && b < 10
    requires 10 * DecimalValue(x) + a == 10 * DecimalValue(y) + b
    ensures a == b && DecimalValue(x) == DecimalValue(y)
  {
  }

  lemma {:induction false} FirstDifferenceDecides(a: string, b: string, k: nat)
    requires k < |a| && k < |b| && a[k] < b[k]
    requires forall i | 0 <= i < k :: a[i] == b[i]
    ensures Less(a, b)
  {
    if k > 0 {
      FirstDifferenceDecides(a[1..], b[1..], k - 1);
    }
  }

  // ----- The release before this one -----

  function Insert(x: string, sorted: seq<string>): seq<string> {
    if sorted != [] && Less(sorted[0], x) then [sorted[0]] + Insert(x, sorted[1..])
    else [x] + sorted
  }

  function Sorted(names: seq<string>): seq<string> {
    if names == [] then [] else Insert(names[0], Sorted(names[1..]))
  }

  function Before(names: seq<string>, bound: string): seq<string> {
    if names == [] then []
    else (if Less(names[0], bound) then [names[0]] else []) + Before(names[1..], bound)
  }

  /** The directories in whatever order they are listed, sorted, those below the current one,
      the last of them. */
  function Previous(listing: seq<string>, current: string): Option<string> {
    var previous := Before(Sorted(listing), current);
    if previous == [] then None else Some(previous[|previous| - 1])
  }

  function Below(listing: seq<string>, bound: string): set<string> {
    set x | x in listing && Less(x, bound)
  }

  ghost predicate IsGreatest(x: string, names: set<string>) {
    x in names && forall y :: y in names && y != x ==> Less(y, x)
  }

  ghost predicate Ascending(names: seq<string>) {
    forall i, j :: 0 <= i < j < |names| ==> names[i] == names[j] || Less(names[i], names[j])
  }

  lemma {:induction false} InsertKeepsOrder(x: string, names: seq<string>)
    requires Ascending(names)
    ensures Ascending(Insert(x, names))
    ensures forall y :: y in Insert(x, names) <==> y == x || y in names
  {
    if names != [] && Less(names[0], x) {
      InsertKeepsOrder(x, names[1..]);
      var rest := Insert(x, names[1..]);
      assert forall y :: y in rest ==> y == names[0] || Less(names[0], y);
      assert names == [names[0]] + names[1..];
    } else if names != [] {
      LessIsTotal(names[0], x);
      forall j | 0 < j < |names|
        ensures x == names[j] || Less(x, names[j])
      {
        if Less(x, names[0]) && Less(names[0], names[j]) {
          LessIsTransitive(x, names[0], names[j]);
        }
      }
    }
  }

  lemma {:induction false} SortedIsInOrder(names: seq<string>)
    ensures Ascending(Sorted(names))
    ensures forall y :: y in Sorted(names) <==> y in names
  {
    if names != [] {
      SortedIsInOrder(names[1..]);
      InsertKeepsOrder(names[0], Sorted(names[1..]));
    }
  }

  lemma {:induction false} BeforeKeepsOrder(names: seq<string>, bound: string)
    requires Ascending(names)
    ensures Ascending(Before(names, bound))
    ensures forall y :: y in Before(names, bound) <==> y in names && Less(y, bound)
  {
    hide Less;
    if names != [] {
      var rest := Before(names[1..], bound);
      BeforeKeepsOrder(names[1..], bound);
      assert names == [names[0]] + names[1..];
      forall y | y in rest
        ensures names[0] == y || Less(names[0], y)
      {
        var j :| 0 <= j < |names[1..]| && names[1..][j] == y;
        assert names[j + 1] == y;
      }
    }
  }

  /** A rollback goes to the greatest installed directory strictly below the current one, and
      there is none exactly when no directory is below it. */
  lemma PreviousIsGreatest(listing: seq<string>, current: string)
    ensures Previous(listing, current).None? <==> Below(listing, current) == {}
    ensures Previous(listing, current).Some? ==>
      IsGreatest(Previous(listing, current).value, Below(listing, current))
  {
    SortedIsInOrder(listing);
    BeforeKeepsOrder(Sorted(listing), current);
    var previous := Before(Sorted(listing), current);
    if previous != [] {
      assert previous[0] in Below(listing, current);
      assert previous[|previous| - 1] in previous;
      forall y | y in Below(listing, current) && y != previous[|previous| - 1]
        ensures Less(y, previous[|previous| - 1])
      {
        var i :| 0 <= i < |previous| && previous[i] == y;
      }
    }
  }

  lemma GreatestIsUnique(x: string, y: string, names: set<string>)
    requires IsGreatest(x, names) && IsGreatest(y, names)
    ensures x == y
  {
    LessIsTotal(x, y);
  }

  // ----- Rolling back again and again -----

  /** The directories that rolling back until it is refused goes through. */
  function Descent(listing: seq<string>, current: string): seq<string>
    decreases Below(listing, current)
  {
    match Previous(listing, current)
    case None => []
    case Some(t) =>
      StepGoesDown(listing, current);
      [t] + Descent(listing, t)
  }

  lemma StepGoesDown(listing: seq<string>, current: string)
    requires Previous(listing, current).Some?
    ensures var t := Previous(listing, current).value;
      Below(listing, current) == Below(listing, t) + {t} && t !in Below(listing, t)
  {
    PreviousIsGreatest(listing, current);
    var t := Previous(listing, current).value;
    LessIsTotal(t, t);
    forall y | y in listing && Less(y, t)
      ensures Less(y, current)
    {
      LessIsTransitive(y, t, current);
    }
  }

  ghost predicate Descends(names: seq<string>) {
    forall i, j :: 0 <= i < j < |names| ==> Less(names[j], names[i])
  }

  function Elements(names: seq<string>): set<string> {
    set x | x in names
  }

  lemma OneMoreOnTop(t: string, rest: seq<string>)
    requires Descends(rest) && |rest| == |Elements(rest)|
    requires forall x :: x in Elements(rest) ==> Less(x, t)
    ensures var d := [t] + rest; Descends(d) && Elements(d) == Elements(rest) + {t} && |d| == |Elements(d)|
  {
    hide Less;
    LessIsTotal(t, t);
    forall j | 0 <= j < |rest|
      ensures Less(rest[j], t)
    {
      assert rest[j] in Elements(rest);
    }
    assert Elements([t] + rest) == Elements(rest) + {t};
  }

  /** Where rolling back from here until it is refused ends. */
  function Bottom(listing: seq<string>, current: string): string {
    var d := Descent(listing, current);
    if d == [] then current else d[|d| - 1]
  }

  /** Repeated rollbacks visit every directory below the first current one once, each below
      the one before it, and then are refused. */
  lemma {:induction false} DescentVisitsAllBelow(listing: seq<string>, current: string)
    ensures var d := Descent(listing, current);
      && Descends(d)
      && Elements(d) == Below(listing, current)
      && |d| == |Below(listing, current)|
    ensures Previous(listing, Bottom(listing, current)).None?
    decreases Below(listing, current)
  {
    hide Less, Previous;
    PreviousIsGreatest(listing, current);
    if Previous(listing, current).Some? {
      var t := Previous(listing, current).value;
      StepGoesDown(listing, current);
      DescentVisitsAllBelow(listing, t);
      OneMoreOnTop(t, Descent(listing, t));
    } else {
      assert Elements([]) == {};
    }
  }

  // ----- A site -----

  /** How far a release directory got. An install that fails leaves its directory behind. */
  datatype Stage = Bare | Unpacked | Migrated

  const UNITS := ["tamforge-api", "tamforge-worker", "tamforge-speech-worker",
                  "tamforge-claude-worker", "tamforge-embedding-worker"]

  datatype Refusal =
    | AlreadyInstalled
    | UnpackFailed
    | MigrationFailed
    | NoReleasesDirectory
    | NoCurrentRelease
    | NoPreviousRelease

  datatype Outcome = Refused(reason: Refusal) | Stopped | Done(release: string)

  datatype State = State(
    made: bool,  // the directory of releases exists
    releases: map<string, Stage>,
    next: Option<string>,  // the temporary link
    current: Option<string>,
    running: map<string, string>)  // the release each unit was last started from
  {
    predicate Valid() {
      !made ==> releases == map[]
    }

    /** What is served was unpacked and migrated without error. */
    predicate ServesAGoodRelease() {
      current.Some? ==> current.value in releases && releases[current.value] == Migrated
    }
  }

  const EMPTY := State(false, map[], None, None, map[])

  // ----- What an operation does, effect by effect -----

  /** The first units restarted; a restart's exit code is not looked at. */
  function Restarted(s: State, release: string, n: nat): State
    requires n <= |UNITS|
  {
    if n == 0 then s
    else
      var before := Restarted(s, release, n - 1);
      before.(running := before.running[UNITS[n - 1] := release])
  }

  /** The states after each effect of a switch: the temporary link removed if there is one,
      made, moved over `current`, and every unit restarted. */
  function SwitchTrace(s: State, release: string): seq<State> {
    var linked := s.(next := Some(release));
    var switched := s.(next := None, current := Some(release));
    (if s.next.Some? then [s.(next := None)] else [])
    + [linked]
    + seq(|UNITS| + 1, n requires 0 <= n <= |UNITS| => Restarted(switched, release, n))
  }

  /** The states after each effect of an install; a command that fails changes nothing. */
  function InstallTrace(s: State, id: string, unpackCode: int, migrateCode: int): seq<State> {
    var bare := s.(made := true, releases := s.releases[id := Bare]);
    var unpacked := bare.(releases := s.releases[id := Unpacked]);
    var migrated := bare.(releases := s.releases[id := Migrated]);
    if id in s.releases then []
    else if unpackCode != 0 then [bare, bare]
    else if migrateCode != 0 then [bare, unpacked, unpacked]
    else [bare, unpacked, migrated] + SwitchTrace(migrated, id)
  }

  function InstallOutcome(s: State, id: string, unpackCode: int, migrateCode: int): Outcome {
    if id in s.releases then Refused(AlreadyInstalled)
    else if unpackCode != 0 then Refused(UnpackFailed)
    else if migrateCode != 0 then Refused(MigrationFailed)
    else Done(id)
  }

  /** Where a rollback goes, or why it does not. */
  function RollbackOutcome(s: State, listing: seq<string>): Outcome {
    if !s.made then Refused(NoReleasesDirectory)
    else if s.current.None? then Refused(NoCurrentRelease)
    else
      match Previous(listing, s.current.value)
      case None => Refused(NoPreviousRelease)
      case Some(t) => Done(t)
  }

  function RollbackTrace(s: State, listing: seq<string>): seq<State> {
    match RollbackOutcome(s, listing)
    case Done(t) => SwitchTrace(s, t)
    case _ => []
  }

  /** The state a machine is left in that makes no more than `cut` effects. */
  function After(s: State, trace: seq<State>, cut: nat): State {
    if trace == [] || cut == 0 then s
    else trace[(if cut < |trace| then cut else |trace|) - 1]
  }

  function Ended(trace: seq<State>, cut: nat, outcome: Outcome): Outcome {
    if cut < |trace| then Stopped else outcome
  }

  /** The state an operation ends in when nothing stops it. */
  function Completed(s: State, trace: seq<State>): State {
    After(s, trace, |trace|)
  }

  lemma SwitchStep(s: State, release: string)
    ensures var trace, k := SwitchTrace(s, release), if s.next.Some? then 1 else 0;
      && |trace| == k + 2 + |UNITS|
      && (s.next.Some? ==> trace[0] == s.(next := None))
      && trace[k] == s.(next := Some(release))
      && (forall n | 0 <= n <= |UNITS| ::
            trace[k + 1 + n] == Restarted(s.(next := None, current := Some(release)), release, n))
      && Restarted(s.(next := None, current := Some(release)), release, 0)
           == s.(next := None, current := Some(release))
  {
  }

  lemma RestartStep(s: State, release: string, n: nat)
    requires n < |UNITS|
    ensures var before := Restarted(s, release, n);
      Restarted(s, release, n + 1) == before.(running := before.running[UNITS[n] := release])
  {
  }

  // ----- The operations -----

  class Site {
    var made: bool
    var releases: map<string, Stage>
    var next: Option<string>
    var current: Option<string>
    var running: map<string, string>

    constructor ()
      ensures Now() == EMPTY
    {
      made, releases, next, current, running := false, map[], None, None, map[];
    }

    ghost function Now(): State
      reads this
    {
      State(made, releases, next, current, running)
    }

    /** Replace the link in one move, then restart every unit. The machine makes no more than
        `cut` effects. */
    method SwitchTo(release: string, cut: nat) returns (stopped: bool)
      modifies this`next, this`current, this`running
      ensures Now() == After(old(Now()), SwitchTrace(old(Now()), release), cut)
      ensures stopped <==> cut < |SwitchTrace(old(Now()), release)|
    {
      ghost var before := Now();
      ghost var trace := SwitchTrace(before, release);
      ghost var k := if before.next.Some? then 1 else 0;
      SwitchStep(before, release);
      hide SwitchTrace, Restarted;
      var left := cut;
      if next.Some? {
        if left == 0 { return true; }
        next := None;
        left := left - 1;
      }
      if left == 0 { return true; }
      next := Some(release);
      assert Now() == trace[k];
      if left == 1 { return true; }
      next, current := None, next;
      left := left - 2;
      ghost var switched := before.(next := None, current := Some(release));
      for i := 0 to |UNITS|
        invariant left == cut - k - 2 - i && left >= 0
        invariant Now() == Restarted(switched, release, i) == trace[k + 1 + i]
      {
        if left == 0 { return true; }
        RestartStep(switched, release, i);
        running := running[UNITS[i] := release];
        left := left - 1;
      }
      stopped := false;
    }

    /** `install`, given the exit codes of the unpacking and of the migration. */
    method Install(id: string, unpackCode: int, migrateCode: int, cut: nat) returns (outcome: Outcome)
      modifies this
      ensures var trace := InstallTrace(old(Now()), id, unpackCode, migrateCode);
        && Now() == After(old(Now()), trace, cut)
        && outcome == Ended(trace, cut, InstallOutcome(old(Now()), id, unpackCode, migrateCode))
    {
      hide SwitchTrace;
      if id in releases {
        return Refused(AlreadyInstalled);
      }
      if cut == 0 {
        return Stopped;
      }
      made, releases := true, releases[id := Bare];
      if cut == 1 {
        return Stopped;
      }
      if unpackCode != 0 {
        return Refused(UnpackFailed);
      }
      releases := releases[id := Unpacked];
      assert releases == old(releases)[id := Unpacked];
      if cut == 2 {
        return Stopped;
      }
      if migrateCode != 0 {
        return Refused(MigrationFailed);
      }
      releases := releases[id := Migrated];
      assert releases == old(releases)[id := Migrated];
      var stopped := SwitchTo(id, cut - 3);
      outcome := if stopped then Stopped else Done(id);
    }

    /** `rollback`, over the directories in the order the file system lists them. */
    method Rollback(listing: seq<string>, cut: nat) returns (outcome: Outcome)
      modifies this`next, this`current, this`running
      ensures var trace := RollbackTrace(old(Now()), listing);
        && Now() == After(old(Now()), trace, cut)
        && outcome == Ended(trace, cut, RollbackOutcome(old(Now()), listing))
    {
      hide SwitchTrace;
      if !made {
        return Refused(NoReleasesDirectory);
      }
      var installed := Sorted(listing);
      if current.None? {
        return Refused(NoCurrentRelease);
      }
      var previous := Before(installed, current.value);
      if previous == [] {
        return Refused(NoPreviousRelease);
      }
      var target := previous[|previous| - 1];
      var stopped := SwitchTo(target, cut);
      outcome := if stopped then Stopped else Done(target);
    }

    /** Rolling back, uninterrupted, until it is refused. */
    method RollbackUntilRefused(listing: seq<string>) returns (visited: seq<string>)
      requires made && current.Some?
      modifies this`next, this`current, this`running
      ensures current == Some(Bottom(listing, old(current).value))
      ensures visited == Descent(listing, old(current).value)
      ensures RollbackOutcome(Now(), listing) == Refused(NoPreviousRelease)
    {
      hide SwitchTrace, Previous, Descent, After, Less, RollbackTrace;
      visited := [];
      ghost var first := current.value;
      while true
        invariant made && current.Some?
        invariant Descent(listing, first) == visited + Descent(listing, current.value)
        invariant current.value == if visited == [] then first else visited[|visited| - 1]
        decreases Below(listing, current.value)
      {
        RollbackStep(Now(), listing);
        var outcome := Rollback(listing, MOST_EFFECTS);
        if !outcome.Done? {
          break;
        }
        visited := visited + [outcome.release];
      }
      DescentVisitsAllBelow(listing, first);
    }
  }

  /** A switch has at most these many effects. */
  const MOST_EFFECTS := 3 + |UNITS|

  /** One uninterrupted rollback goes one step down the descent, or is at its end. */
  lemma RollbackStep(s: State, listing: seq<string>)
    requires s.made && s.current.Some?
    ensures var trace, outcome := RollbackTrace(s, listing), RollbackOutcome(s, listing);
      var done := After(s, trace, MOST_EFFECTS);
      && |trace| <= MOST_EFFECTS
      && if outcome.Done? then
           && done.made && done.current == Some(outcome.release)
           && Descent(listing, s.current.value) == [outcome.release] + Descent(listing, outcome.release)
           && Below(listing, outcome.release) < Below(listing, s.current.value)
         else
           done == s && outcome == Refused(NoPreviousRelease) && Descent(listing, s.current.value) == []
  {
    hide Previous, Less;
    var outcome := RollbackOutcome(s, listing);
    if outcome.Done? {
      SwitchCompletes(s, outcome.release);
      StepGoesDown(listing, s.current.value);
    }
  }

  // ----- What every cut leaves -----

  lemma {:induction false} RestartedUnits(s: State, release: string, n: nat)
    requires n <= |UNITS|
    ensures Restarted(s, release, n) == s.(running := Restarted(s, release, n).running)
    ensures forall u :: u in Restarted(s, release, n).running <==> u in s.running || u in UNITS[..n]
    ensures forall u | u in Restarted(s, release, n).running ::
      Restarted(s, release, n).running[u] == if u in UNITS[..n] then release else s.running[u]
  {
    if n > 0 {
      RestartedUnits(s, release, n - 1);
      assert UNITS[..n] == UNITS[..n - 1] + [UNITS[n - 1]];
    }
  }

  /** The services of a release. */
  predicate IsUnit(u: string) {
    || u == "tamforge-api" || u == "tamforge-worker" || u == "tamforge-speech-worker"
    || u == "tamforge-claude-worker" || u == "tamforge-embedding-worker"
  }

  lemma UnitsAreListed()
    ensures forall u :: IsUnit(u) <==> u in UNITS
  {
    assert UNITS[0] == "tamforge-api" && UNITS[1] == "tamforge-worker" && UNITS[2] == "tamforge-speech-worker";
    assert UNITS[3] == "tamforge-claude-worker" && UNITS[4] == "tamforge-embedding-worker";
  }

  /** A switch that is not stopped serves the release, with every unit restarted on it and no
      temporary link left. */
  lemma SwitchCompletes(s: State, release: string)
    ensures var done := Completed(s, SwitchTrace(s, release));
      && done == s.(next := None, current := Some(release), running := done.running)
      && forall u | IsUnit(u) :: u in done.running && done.running[u] == release
  {
    UnitsAreListed();
    hide IsUnit;
    RestartedUnits(s.(next := None, current := Some(release)), release, |UNITS|);
    assert UNITS[..|UNITS|] == UNITS;
  }

  /** Wherever a switch stops, the link is the old or the new one, the releases are as they
      were, and a unit runs what it ran or, once the link has moved, the new release. */
  lemma SwitchIsAtomic(s: State, release: string, cut: nat)
    ensures var t := After(s, SwitchTrace(s, release), cut);
      && t.made == s.made && t.releases == s.releases
      && (t.current == s.current || t.current == Some(release))
      && forall u | u in t.running ::
           (u in s.running && t.running[u] == s.running[u]) || (t.running[u] == release && t.current == Some(release))
  {
    var switched := s.(next := None, current := Some(release));
    forall n | 0 <= n <= |UNITS|
      ensures Restarted(switched, release, n) == switched.(running := Restarted(switched, release, n).running)
      ensures forall u | u in Restarted(switched, release, n).running ::
        (u in s.running && Restarted(switched, release, n).running[u] == s.running[u])
        || Restarted(switched, release, n).running[u] == release
    {
      RestartedUnits(switched, release, n);
    }
  }

  /** Wherever an install stops, `current` denotes the old release or this one, unpacked and
      migrated without error; other directories are as they were; and a site that served a
      good release still does. */
  lemma InstallIsSafe(s: State, id: string, unpackCode: int, migrateCode: int, cut: nat)
    ensures var t := After(s, InstallTrace(s, id, unpackCode, migrateCode), cut);
      && (t.current == s.current
          || (t.current == Some(id) && unpackCode == 0 == migrateCode && t.releases == s.releases[id := Migrated]))
      && t.releases - {id} == s.releases - {id}
      && (s.Valid() ==> t.Valid())
      && (s.ServesAGoodRelease() ==> t.ServesAGoodRelease())
  {
    hide SwitchTrace;
    var trace := InstallTrace(s, id, unpackCode, migrateCode);
    var migrated := s.(made := true, releases := s.releases[id := Migrated]);
    if id !in s.releases && unpackCode == 0 == migrateCode {
      SwitchStates(migrated, id);
      assert forall k | 3 <= k < |trace| :: trace[k] == SwitchTrace(migrated, id)[k - 3];
    }
  }

  lemma SwitchStates(s: State, release: string)
    ensures forall k | 0 <= k < |SwitchTrace(s, release)| ::
      var t := SwitchTrace(s, release)[k];
      t.made == s.made && t.releases == s.releases && (t.current == s.current || t.current == Some(release))
  {
    forall k | 0 <= k < |SwitchTrace(s, release)|
      ensures var t := SwitchTrace(s, release)[k];
        t.made == s.made && t.releases == s.releases && (t.current == s.current || t.current == Some(release))
    {
      SwitchIsAtomic(s, release, k + 1);
    }
  }

  /** What an uninterrupted install does: a new id with two zero exit codes is served by
      every unit, anything else is refused with `current` as it was. */
  lemma InstallCompletes(s: State, id: string, unpackCode: int, migrateCode: int)
    ensures var done := Completed(s, InstallTrace(s, id, unpackCode, migrateCode));
      if id !in s.releases && unpackCode == 0 == migrateCode then
        && done.made && done.releases == s.releases[id := Migrated]
        && done.current == Some(id) && done.next == None
        && forall u | IsUnit(u) :: u in done.running && done.running[u] == id
      else
        && InstallOutcome(s, id, unpackCode, migrateCode).Refused?
        && (match InstallOutcome(s, id, unpackCode, migrateCode).reason
            case AlreadyInstalled => id in s.releases
            case UnpackFailed => id !in s.releases && unpackCode != 0
            case MigrationFailed => id !in s.releases && unpackCode == 0 && migrateCode != 0
            case _ => false)
        && done.current == s.current && done.running == s.running
        && done.releases == (if id in s.releases then s.releases
                             else s.releases[id := if unpackCode != 0 then Bare else Unpacked])
  {
    hide IsUnit;
    if id !in s.releases && unpackCode == 0 == migrateCode {
      var migrated := s.(made := true, releases := s.releases[id := Migrated]);
      SwitchCompletes(migrated, id);
      var trace, switch := InstallTrace(s, id, unpackCode, migrateCode), SwitchTrace(migrated, id);
      assert trace[|trace| - 1] == switch[|switch| - 1];
    }
  }

  // ----- When a rollback is what one hopes for -----

  /** After a new release was switched to, a rollback returns to the release served before it
      exactly when that is the greatest directory below the new one. */
  lemma RollbackUndoesInstall(releases: map<string, Stage>, before: string, id: string, listing: seq<string>)
    requires id !in releases && forall x :: x in listing <==> x in releases || x == id
    ensures Previous(listing, id) == Some(before) <==>
      && before in releases && Less(before, id)
      && forall x | x in releases && x != before && Less(x, id) :: Less(x, before)
  {
    PreviousIsGreatest(listing, id);
    LessIsTotal(id, id);
    if before in releases && Less(before, id)
       && forall x | x in releases && x != before && Less(x, id) :: Less(x, before) {
      assert IsGreatest(before, Below(listing, id));
      GreatestIsUnique(before, Previous(listing, id).value, Below(listing, id));
    }
  }

  /** Where every release id is a moment and the new one is the latest, it is enough that the
      release served before is the latest of the others. */
  lemma LatestInstallRollsBack(releases: map<string, Stage>, before: string, id: string, listing: seq<string>)
    requires id !in releases && forall x :: x in listing <==> x in releases || x == id
    requires IsReleaseId(id) && forall x | x in releases :: IsReleaseId(x) && Moment(x) < Moment(id)
    requires before in releases && forall x | x in releases && x != before :: Moment(x) < Moment(before)
    ensures Previous(listing, id) == Some(before)
  {
    EarlierComesFirst(before, id);
    forall x | x in releases && x != before
      ensures Less(x, before)
    {
      EarlierComesFirst(x, before);
    }
    RollbackUndoesInstall(releases, before, id, listing);
  }

  /** Every release that rolling back can come to was installed without error exactly when no
      failed install left its directory below the current one. */
  lemma EveryRollbackIsGood(releases: map<string, Stage>, current: string, listing: seq<string>)
    requires forall x :: x in listing <==> x in releases
    ensures (forall t | t in Descent(listing, current) :: t in releases && releases[t] == Migrated) <==>
      forall x | x in releases && Less(x, current) :: releases[x] == Migrated
  {
    DescentVisitsAllBelow(listing, current);
    var d := Descent(listing, current);
    assert forall x :: x in d <==> x in Elements(d);
    assert forall x :: x in Below(listing, current) <==> x in releases && Less(x, current);
  }

  /** A rollback leaves the site serving a good release exactly when its target was unpacked and
      migrated without error. */
  lemma RollbackServes(s: State, listing: seq<string>)
    requires RollbackOutcome(s, listing).Done?
    ensures var t, done := RollbackOutcome(s, listing).release, Completed(s, RollbackTrace(s, listing));
      && done.current == Some(t) && done.releases == s.releases
      && (done.ServesAGoodRelease() <==> t in s.releases && s.releases[t] == Migrated)
  {
    SwitchCompletes(s, RollbackOutcome(s, listing).release);
  }

  /** So a rollback can serve a release that never came up: on an empty site, of any three
      installs in order, none interrupted, the second fails to unpack; rolling back the third
      goes to it. */
  lemma RollbackServesAFailedInstall(first: string, broken: string, third: string)
    requires Less(first, broken) && Less(broken, third)
    ensures var a := Completed(EMPTY, InstallTrace(EMPTY, first, 0, 0));
      var b := Completed(a, InstallTrace(a, broken, 2, 0));
      var c := Completed(b, InstallTrace(b, third, 0, 0));
      var listing := [first, broken, third];
      var done := Completed(c, RollbackTrace(c, listing));
      && c.current == Some(third) && c.ServesAGoodRelease()
      && RollbackOutcome(c, listing) == Done(broken)
      && done.current == Some(broken) && broken in done.releases && done.releases[broken] == Bare
      && !done.ServesAGoodRelease()
  {
    hide Less, Previous, Descent, InstallTrace, RollbackTrace, After;
    LessIsTotal(first, broken);
    LessIsTotal(broken, third);
    LessIsTransitive(first, broken, third);
    LessIsTotal(first, third);
    var a := Completed(EMPTY, InstallTrace(EMPTY, first, 0, 0));
    var b := Completed(a, InstallTrace(a, broken, 2, 0));
    var c := Completed(b, InstallTrace(b, third, 0, 0));
    InstallCompletes(EMPTY, first, 0, 0);
    InstallCompletes(a, broken, 2, 0);
    InstallCompletes(b, third, 0, 0);
    var listing := [first, broken, third];
    RollbackUndoesInstall(b.releases, broken, third, listing);
    RollbackServes(c, listing);
  }
}
