/** The gate a provisioning plan passes before it may run, and what it says of real plans. */
module HostGate {
  import opened Wrappers
  import opened Text
  import opened Provisioning
  import opened HostPlan

  const FORBIDDEN_HOSTS: seq<string> := ["lamas-prod", "lamas", "n8n-prod-gastos"]
  const ALLOW := "allow"

  datatype GateError =
    | MentionsHost(name: string)
    | NoSshStep
    | NoEnableStep
    | EnabledBeforeSsh
    | LoopbackAllowed(port: nat)
    | RunsAsRoot

  function CommandText(step: Step): string {
    Join(step.command, " ")
  }

  function CommandTexts(steps: seq<Step>): seq<string> {
    seq(|steps|, i requires 0 <= i < |steps| => CommandText(steps[i]))
  }

  /** All commands as one text. */
  function PlanText(steps: seq<Step>): string {
    Join(CommandTexts(steps), " ")
  }

  function Firewall(steps: seq<Step>): seq<Step> {
    if steps == [] then []
    else Firewall(steps[..|steps| - 1]) + InFirewall(steps[|steps| - 1])
  }

  function InFirewall(step: Step): seq<Step> {
    if step.stage == "firewall" then [step] else []
  }

  predicate AllowsSsh(step: Step) {
    "port" in step.command && "22" in step.command
  }

  predicate Enables(step: Step) {
    "enable" in step.command
  }

  predicate CreatesRoot(step: Step) {
    step.command != [] && step.command[0] == "useradd" && "root" in step.command
  }

  function PortText(port: nat): string {
    Decimal(port) + "/tcp"
  }

  function AllowText(port: nat): string {
    ALLOW + " " + PortText(port)
  }

  /** SSH is allowed, the firewall is enabled, and the first of the one comes no later than the
      first of the other. */
  ghost predicate SshFirst(firewall: seq<Step>) {
    && (exists i | 0 <= i < |firewall| :: Enables(firewall[i]))
    && (exists i | 0 <= i < |firewall| ::
          AllowsSsh(firewall[i]) && forall j | 0 <= j < i :: !Enables(firewall[j]))
  }

  /** What the gate lets through. */
  ghost predicate Passes(steps: seq<Step>, loopbackPorts: seq<nat>) {
    && (forall name <- FORBIDDEN_HOSTS :: !Contains(PlanText(steps), name))
    && SshFirst(Firewall(steps))
    && (forall port <- loopbackPorts :: !Contains(PlanText(steps), AllowText(port)))
    && (forall step <- steps :: !CreatesRoot(step))
  }

  method FirstWhere(steps: seq<Step>, ssh: bool) returns (at: Option<nat>)
    ensures at.None? ==> forall i | 0 <= i < |steps| :: !(if ssh then AllowsSsh(steps[i]) else Enables(steps[i]))
    ensures at.Some? ==>
      && at.value < |steps|
      && (if ssh then AllowsSsh(steps[at.value]) else Enables(steps[at.value]))
      && forall i | 0 <= i < at.value :: !(if ssh then AllowsSsh(steps[i]) else Enables(steps[i]))
  {
    for i := 0 to |steps|
      invariant forall j | 0 <= j < i :: !(if ssh then AllowsSsh(steps[j]) else Enables(steps[j]))
    {
      if (if ssh then AllowsSsh(steps[i]) else Enables(steps[i])) {
        return Some(i);
      }
    }
    at := None;
  }

  /** `assert_plan_is_safe`, which raises at the first thing it finds. */
  method AssertPlanIsSafe(steps: seq<Step>, loopbackPorts: seq<nat>) returns (problem: Option<GateError>)
    ensures problem.None? <==> Passes(steps, loopbackPorts)
    ensures problem.Some? ==>
      match problem.value
      case MentionsHost(name) => name in FORBIDDEN_HOSTS && Contains(PlanText(steps), name)
      case LoopbackAllowed(port) => port in loopbackPorts && Contains(PlanText(steps), AllowText(port))
      case RunsAsRoot => exists step <- steps :: CreatesRoot(step)
      case _ => !SshFirst(Firewall(steps))
  {
    hide Contains, PlanText, AllowText, AllowsSsh, Enables, CreatesRoot, Firewall;
    var joined := PlanText(steps);
    for i := 0 to |FORBIDDEN_HOSTS|
      invariant forall j | 0 <= j < i :: !Contains(joined, FORBIDDEN_HOSTS[j])
    {
      if Contains(joined, FORBIDDEN_HOSTS[i]) {
        assert FORBIDDEN_HOSTS[i] in FORBIDDEN_HOSTS;
        return Some(MentionsHost(FORBIDDEN_HOSTS[i]));
      }
    }
    var firewall := Firewall(steps);
    var allow := FirstWhere(firewall, true);
    if allow.None? {
      return Some(NoSshStep);
    }
    var enable := FirstWhere(firewall, false);
    if enable.None? {
      return Some(NoEnableStep);
    }
    if allow.value > enable.value {
      return Some(EnabledBeforeSsh);
    }
    assert SshFirst(firewall);
    for i := 0 to |loopbackPorts|
      invariant forall j | 0 <= j < i :: !Contains(joined, AllowText(loopbackPorts[j]))
    {
      if Contains(joined, AllowText(loopbackPorts[i])) {
        assert loopbackPorts[i] in loopbackPorts;
        return Some(LoopbackAllowed(loopbackPorts[i]));
      }
    }
    for i := 0 to |steps|
      invariant forall j | 0 <= j < i :: !CreatesRoot(steps[j])
    {
      if CreatesRoot(steps[i]) {
        assert steps[i] in steps;
        return Some(RunsAsRoot);
      }
    }
    problem := None;
  }

  // ----- Finding two words in a text -----

  predicate EndsWith(s: string, t: string) {
    |t| <= |s| && s[|s| - |t|..] == t
  }

  predicate IsOneWord(s: string) {
    s != [] && ' ' !in s
  }

  lemma OccursPointwise(s: string, p: string, i: nat)
    requires i + |p| <= |s| && OccursAt(s, p, i)
    ensures forall k | 0 <= k < |p| :: p[k] == s[i + k]
  {
    forall k | 0 <= k < |p|
      ensures p[k] == s[i + k]
    {
      assert s[i..i + |p|][k] == s[i + k];
    }
  }

  /** Two words found across a space: on one side, on the other, or one on each. */
  lemma FoundAcross(h: string, t: string, a: string, b: string)
    requires IsOneWord(a) && IsOneWord(b)
    ensures Contains(h + " " + t, a + " " + b) <==>
      || Contains(h, a + " " + b) || Contains(t, a + " " + b) || (EndsWith(h, a) && b <= t)
  {
    hide OccursAt, EndsWith, IsOneWord;
    var s, p := h + " " + t, a + " " + b;
    if i :| 0 <= i <= |s| - |p| && OccursAt(s, p, i) {
      OneOfThree(h, t, a, b, i);
    }
    if i :| 0 <= i <= |h| - |p| && OccursAt(h, p, i) {
      FoundBefore(h, " " + t, p, i);
      assert h + (" " + t) == s;
      assert OccursAt(s, p, i);
    }
    if i :| 0 <= i <= |t| - |p| && OccursAt(t, p, i) {
      FoundBehind(h + " ", t, p, i);
      assert OccursAt(s, p, |h| + 1 + i);
    }
    if EndsWith(h, a) && b <= t {
      OccursBetween(h, t, a, b);
    }
  }

  lemma OccursBetween(h: string, t: string, a: string, b: string)
    requires EndsWith(h, a) && b <= t
    ensures Contains(h + " " + t, a + " " + b)
  {
    var s, p, i := h + " " + t, a + " " + b, |h| - |a|;
    assert s[i..i + |p|] == h[i..] + " " + t[..|b|];
    assert OccursAt(s, p, i);
  }

  lemma OneOfThree(h: string, t: string, a: string, b: string, i: nat)
    requires IsOneWord(a) && IsOneWord(b)
    requires i <= |h + " " + t| - |a + " " + b| && OccursAt(h + " " + t, a + " " + b, i)
    ensures Contains(h, a + " " + b) || Contains(t, a + " " + b) || (EndsWith(h, a) && b <= t)
  {
    hide OccursAt, EndsWith, IsOneWord;
    var s, p := h + " " + t, a + " " + b;
    GapIsNotInside(h, t, a, b, i);
    if |h| == i + |a| {
      FoundBetween(h, t, a, b);
    } else if i + |p| <= |h| {
      FoundBefore(h, " " + t, p, i);
      assert h + (" " + t) == s;
      assert OccursAt(h, p, i);
    } else {
      FoundBehind(h + " ", t, p, i - |h| - 1);
      assert OccursAt(t, p, i - |h| - 1);
    }
  }

  lemma FoundBefore(h: string, t: string, p: string, i: nat)
    requires i + |p| <= |h|
    ensures OccursAt(h + t, p, i) <==> OccursAt(h, p, i)
  {
    assert (h + t)[i..i + |p|] == h[i..i + |p|];
  }

  lemma FoundBehind(h: string, t: string, p: string, i: nat)
    requires i + |p| <= |t|
    ensures OccursAt(h + t, p, |h| + i) <==> OccursAt(t, p, i)
  {
    assert (h + t)[|h| + i..|h| + i + |p|] == t[i..i + |p|];
  }

  lemma FoundBetween(h: string, t: string, a: string, b: string)
    requires |a| <= |h| && |b| <= |t| && OccursAt(h + " " + t, a + " " + b, |h| - |a|)
    ensures EndsWith(h, a) && b <= t
  {
    var s, p, i := h + " " + t, a + " " + b, |h| - |a|;
    assert s[i..i + |p|] == h[i..] + " " + t[..|b|];
    assert p[..|a|] == a && p[|a| + 1..] == b;
    assert (h[i..] + " " + t[..|b|])[..|a|] == h[i..];
    assert (h[i..] + " " + t[..|b|])[|a| + 1..] == t[..|b|];
  }

  /** The space between the two texts is the one between the words, or outside them. */
  lemma GapIsNotInside(h: string, t: string, a: string, b: string, i: nat)
    requires IsOneWord(a) && IsOneWord(b) && i + |a| + 1 + |b| <= |h| + 1 + |t|
    requires OccursAt(h + " " + t, a + " " + b, i)
    ensures |h| < i || |h| == i + |a| || i + |a| + 1 + |b| <= |h|
  {
    var s, p, k := h + " " + t, a + " " + b, |h| - i;
    OccursPointwise(s, p, i);
    assert s[|h|] == ' ';
    assert 0 <= k < |p| ==> p[k] == s[i + k];
    assert forall j | 0 <= j < |a| :: p[j] == a[j] && a[j] in a;
    assert forall j | |a| < j < |p| :: p[j] == b[j - |a| - 1] && b[j - |a| - 1] in b;
  }

  predicate AreWords(words: seq<string>) {
    forall w <- words :: IsOneWord(w)
  }

  /** Two words found in a text of words are the end of one and the start of the next. */
  lemma {:induction false} FoundInWords(words: seq<string>, a: string, b: string) returns (k: nat)
    requires AreWords(words) && IsOneWord(a) && IsOneWord(b)
    requires Contains(Join(words, " "), a + " " + b)
    ensures k + 1 < |words| && EndsWith(words[k], a) && b <= words[k + 1]
  {
    hide Contains, EndsWith;
    if |words| <= 1 {
      NotInOneWord(words, a, b);
      assert false;
    } else {
      var n := |words| - 1;
      var front := Join(words[..n], " ");
      FoundAcross(front, words[n], a, b);
      assert Join([words[n]], " ") == words[n];
      assert words[n] in words && forall w <- words[..n] :: w in words;
      NotInOneWord([words[n]], a, b);
      if Contains(front, a + " " + b) {
        k := FoundInWords(words[..n], a, b);
      } else {
        k := n - 1;
        EndOfJoin(words[..n], a);
      }
    }
  }

  lemma NotInOneWord(words: seq<string>, a: string, b: string)
    requires |words| <= 1 && AreWords(words)
    ensures !Contains(Join(words, " "), a + " " + b)
  {
    assert words != [] ==> words[0] in words;
    assert (a + " " + b)[|a|] == ' ';
    ContainsNeeds(Join(words, " "), a + " " + b, |a|);
  }

  lemma EndOfJoin(words: seq<string>, a: string)
    requires words != [] && AreWords(words) && IsOneWord(a) && EndsWith(Join(words, " "), a)
    ensures EndsWith(words[|words| - 1], a)
  {
    var n := |words| - 1;
    if n > 0 {
      EndOfText(Join(words[..n], " "), words[n], a);
    }
  }

  lemma EndOfText(front: string, last: string, a: string)
    requires IsOneWord(a) && EndsWith(front + " " + last, a)
    ensures EndsWith(last, a)
  {
    var text := front + " " + last;
    var from := |text| - |a|;
    forall j | from <= j < |text|
      ensures text[j] != ' '
    {
      assert a[j - from] == text[from..][j - from] && a[j - from] in a;
    }
    assert text[|front|] == ' ';
    assert last[|last| - |a|..] == text[from..];
  }

  // ----- Joining the commands -----

  lemma {:induction false} JoinConcat(a: seq<string>, b: seq<string>)
    requires a != [] && b != []
    ensures Join(a + b, " ") == Join(a, " ") + " " + Join(b, " ")
  {
    hide Join;
    var n := |b| - 1;
    assert (a + b)[..|a| + n] == a + b[..n];
    JoinLast(a + b);
    JoinLast(b);
    if n > 0 {
      JoinConcat(a, b[..n]);
      Regroup(Join(a, " "), Join(b[..n], " "), b[n]);
    } else {
      assert a + b[..n] == a;
    }
  }

  lemma JoinLast(words: seq<string>)
    requires words != []
    ensures var n := |words| - 1;
      Join(words, " ") == if n == 0 then words[n] else Join(words[..n], " ") + " " + words[n]
  {
  }

  lemma Regroup(x: string, y: string, z: string)
    ensures (x + " " + y) + " " + z == x + " " + (y + " " + z)
  {
  }

  lemma PlanTextConcat(a: seq<Step>, b: seq<Step>)
    requires a != [] && b != []
    ensures PlanText(a + b) == PlanText(a) + " " + PlanText(b)
  {
    hide CommandText;
    JoinConcat(CommandTexts(a), CommandTexts(b));
    assert CommandTexts(a + b) == CommandTexts(a) + CommandTexts(b);
  }

  /** The words of all commands. */
  function AllWords(steps: seq<Step>): seq<string> {
    if steps == [] then [] else AllWords(steps[..|steps| - 1]) + steps[|steps| - 1].command
  }

  lemma {:induction false} PlanTextIsWords(steps: seq<Step>)
    requires steps != [] && forall s <- steps :: s.command != []
    ensures AllWords(steps) != [] && PlanText(steps) == Join(AllWords(steps), " ")
  {
    hide Join, PlanText;
    var n := |steps| - 1;
    var front, last := steps[..n], steps[n];
    assert last in steps;
    OneText(last);
    if n > 0 {
      assert forall s <- front :: s in steps;
      PlanTextIsWords(front);
      PlanTextConcat(front, [last]);
      JoinConcat(AllWords(front), last.command);
      assert steps == front + [last];
    } else {
      assert steps == [last] && front == [];
      assert AllWords(steps) == [] + last.command == last.command;
    }
  }

  // ----- The part of a plan after SSH -----

  /** Every word that ends in "allow" comes right before one of these ports. */
  ghost predicate OnlyAllows(words: seq<string>, open: seq<nat>) {
    && (forall w <- words :: IsOneWord(w))
    && (forall k | 0 <= k < |words| && EndsWith(words[k], ALLOW) ::
          k + 1 < |words| && exists q <- open :: words[k + 1] == PortText(q))
  }

  lemma OnlyAllowsConcat(a: seq<string>, b: seq<string>, open: seq<nat>)
    requires OnlyAllows(a, open) && OnlyAllows(b, open)
    ensures OnlyAllows(a + b, open)
  {
    hide IsOneWord, EndsWith, PortText;
    var words := a + b;
    forall k | 0 <= k < |words| && EndsWith(words[k], ALLOW)
      ensures k + 1 < |words| && exists q <- open :: words[k + 1] == PortText(q)
    {
      assert if k < |a| then words[k] == a[k] else words[k] == b[k - |a|];
    }
  }

  lemma {:induction false} AllOnlyAllow(steps: seq<Step>, open: seq<nat>)
    requires forall s <- steps :: OnlyAllows(s.command, open)
    ensures OnlyAllows(AllWords(steps), open)
  {
    hide OnlyAllows;
    if steps != [] {
      var n := |steps| - 1;
      assert steps[n] in steps && forall s <- steps[..n] :: s in steps;
      AllOnlyAllow(steps[..n], open);
      OnlyAllowsConcat(AllWords(steps[..n]), steps[n].command, open);
    } else {
      assert OnlyAllows([], open) by {
        NoWords(open);
      }
    }
  }

  lemma NoWords(open: seq<nat>)
    ensures OnlyAllows([], open)
  {
  }

  lemma PortTextIsWord(port: nat)
    ensures IsOneWord(PortText(port)) && IsDigit(PortText(port)[0]) && !EndsWith(PortText(port), ALLOW)
  {
    var text := PortText(port);
    assert text[|text| - 1] == 'p';
    forall i | 0 <= i < |text|
      ensures text[i] != ' '
    {
      assert i < |Decimal(port)| ==> IsDigit(text[i]);
      assert i >= |Decimal(port)| ==> text[i] == "/tcp"[i - |Decimal(port)|];
    }
  }

  lemma PortTextPrefix(p: nat, q: nat)
    requires PortText(p) <= PortText(q)
    ensures p == q
  {
    var a, b := Decimal(p), Decimal(q);
    SlashStands(p);
    SlashStands(q);
    assert PortText(q)[|a|] == PortText(p)[|a|];
    assert |a| < |b| ==> IsDigit(PortText(q)[|a|]);
    assert a == PortText(p)[..|a|] == PortText(q)[..|b|] == b;
    assert DecimalValue(a) == DecimalValue(b);
  }

  lemma SlashStands(p: nat)
    ensures PortText(p)[|Decimal(p)|] == '/' && PortText(p)[..|Decimal(p)|] == Decimal(p)
    ensures forall i | 0 <= i < |Decimal(p)| :: IsDigit(PortText(p)[i])
  {
  }

  function Tail(c: Contract): seq<Step> {
    PortSteps(c) + [EnableStep()] + UnitSteps()
  }

  function Head(c: Contract): seq<Step> {
    BeforeSsh(c) + [AllowSshStep(c.sshSourceCidr)]
  }

  /** A word that is short or ends otherwise. */
  predicate IsQuietWord(w: string) {
    IsOneWord(w) && (|w| < |ALLOW| || w[|w| - 1] != 'w')
  }

  lemma QuietWords(words: seq<string>, open: seq<nat>)
    requires forall w <- words :: IsQuietWord(w)
    ensures OnlyAllows(words, open)
  {
    forall k | 0 <= k < |words|
      ensures !EndsWith(words[k], ALLOW)
    {
      assert words[k] in words;
      QuietWord(words[k]);
    }
  }

  lemma QuietWord(w: string)
    requires IsQuietWord(w)
    ensures !EndsWith(w, ALLOW)
  {
    assert |w| >= |ALLOW| ==> w[|w| - |ALLOW|..][|ALLOW| - 1] == w[|w| - 1];
  }

  lemma AllowStepWords(port: nat, open: seq<nat>)
    requires port in open
    ensures OnlyAllows(AllowStep(port).command, open)
  {
    PortTextIsWord(port);
    var words := ["ufw", ALLOW, PortText(port)];
    assert AllowStep(port).command == words;
    QuietWord("ufw");
    hide PortText, EndsWith;
    assert words[2] == PortText(port);
  }

  lemma DenyStepWords(port: nat, open: seq<nat>)
    ensures OnlyAllows(DenyStep(port).command, open)
  {
    PortTextIsWord(port);
    var words := ["ufw", "deny", PortText(port)];
    assert DenyStep(port).command == words;
    QuietWord("ufw");
    QuietWord("deny");
    hide PortText, EndsWith;
  }

  lemma LastStepsWords(open: seq<nat>)
    ensures OnlyAllows(EnableStep().command, open)
    ensures OnlyAllows(UnitSteps()[0].command, open) && OnlyAllows(UnitSteps()[1].command, open)
  {
    hide OnlyAllows, IsQuietWord;
    EnableWords();
    VerifyWords();
    ReloadWords();
    ThreeWords("ufw", "--force", "enable", open);
    ThreeWords("systemd-analyze", "verify", UNIT_FILES, open);
    QuietWords(["systemctl", "daemon-reload"], open);
  }

  const UNIT_FILES := "/etc/systemd/system/tamforge-*.service"

  lemma EnableWords()
    ensures IsQuietWord("ufw") && IsQuietWord("--force") && IsQuietWord("enable")
  {
  }

  lemma VerifyWords()
    ensures IsQuietWord("systemd-analyze") && IsQuietWord("verify") && IsQuietWord(UNIT_FILES)
  {
  }

  lemma ReloadWords()
    ensures IsQuietWord("systemctl") && IsQuietWord("daemon-reload")
  {
  }

  lemma ThreeWords(a: string, b: string, c: string, open: seq<nat>)
    requires IsQuietWord(a) && IsQuietWord(b) && IsQuietWord(c)
    ensures OnlyAllows([a, b, c], open)
  {
    hide OnlyAllows, IsQuietWord;
    QuietWords([a, b, c], open);
  }

  lemma TailOnlyAllows(c: Contract)
    ensures forall s <- Tail(c) :: OnlyAllows(s.command, OpenPorts(c)) && s.command != []
  {
    hide OnlyAllows, OpenPorts, AllowStep, DenyStep, EnableStep, UnitSteps;
    var open, ports := OpenPorts(c), PortSteps(c);
    LastStepsWords(open);
    CommandsThere();
    forall i | 0 <= i < |ports|
      ensures OnlyAllows(ports[i].command, open) && ports[i].command != []
    {
      if i < |open| {
        AllowStepWords(open[i], open);
      } else {
        DenyStepWords(c.loopbackPorts[i - |open|], open);
      }
    }
    assert |UnitSteps()| == 2;
  }

  lemma CommandsThere()
    ensures forall p :: AllowStep(p).command != [] && DenyStep(p).command != []
    ensures EnableStep().command != [] && |UnitSteps()| == 2
    ensures UnitSteps()[0].command != [] && UnitSteps()[1].command != []
  {
  }

  /** The ports, the enabling and the units never spell out that a loopback port is allowed. */
  lemma TailIsQuiet(c: Contract, port: nat)
    requires port !in OpenPorts(c)
    ensures !Contains(PlanText(Tail(c)), AllowText(port))
  {
    hide OpenPorts, Tail, PlanText, Contains, PortText, Head, PlanOf, OnlyAllows, AllWords, AllowText;
    TailOnlyAllows(c);
    TailIsThere(c);
    AllOnlyAllow(Tail(c), OpenPorts(c));
    PlanTextIsWords(Tail(c));
    QuietPort(AllWords(Tail(c)), OpenPorts(c), port);
  }

  lemma QuietPort(words: seq<string>, open: seq<nat>, port: nat)
    requires OnlyAllows(words, open) && port !in open
    ensures !Contains(Join(words, " "), AllowText(port))
  {
    hide Contains, EndsWith, PortText, IsOneWord, Join;
    PortTextIsWord(port);
    assert IsOneWord(ALLOW) by {
      AllowIsWord();
    }
    if Contains(Join(words, " "), AllowText(port)) {
      var k := FoundInWords(words, ALLOW, PortText(port));
      var q :| q in open && words[k + 1] == PortText(q);
      PortTextPrefix(port, q);
    }
  }

  lemma AllowIsWord()
    ensures IsOneWord(ALLOW)
  {
  }

  lemma TailIsThere(c: Contract)
    ensures Tail(c) != [] && Head(c) != [] && PlanOf(c) == Head(c) + Tail(c)
  {
    hide BeforeSsh, PortSteps, AllowSshStep, EnableStep, UnitSteps;
  }

  lemma HeadEnd(c: Contract)
    ensures !EndsWith(PlanText(Head(c)), ALLOW)
  {
    hide BeforeSsh, PlanText;
    var ssh := AllowSshStep(c.sshSourceCidr);
    var words := ssh.command;
    JoinConcat(words[..9], words[9..]);
    assert words == words[..9] + words[9..] && words[9..] == ["tcp"];
    var text := CommandText(ssh);
    assert text[|text| - 1] == 'p';
    assert PlanText([ssh]) == text by {
      OneText(ssh);
    }
    if BeforeSsh(c) != [] {
      PlanTextConcat(BeforeSsh(c), [ssh]);
      var all := PlanText(Head(c));
      assert all[|all| - 1] == text[|text| - 1];
    } else {
      assert Head(c) == [ssh];
    }
  }

  lemma OneText(step: Step)
    ensures PlanText([step]) == CommandText(step)
  {
  }

  /** So a loopback port is spelled out as allowed only by what the contract itself puts into
      the commands up to the one that allows SSH. */
  lemma AllowedInHeadOnly(c: Contract, port: nat)
    requires port !in OpenPorts(c)
    ensures Contains(PlanText(PlanOf(c)), AllowText(port)) <==> Contains(PlanText(Head(c)), AllowText(port))
  {
    hide OpenPorts, Tail, Head, PlanText, Contains, EndsWith, PortText, PlanOf;
    TailIsThere(c);
    PlanTextConcat(Head(c), Tail(c));
    PortTextIsWord(port);
    HeadEnd(c);
    TailIsQuiet(c, port);
    FoundAcross(PlanText(Head(c)), PlanText(Tail(c)), ALLOW, PortText(port));
  }

  // ----- The firewall steps -----

  lemma {:induction false} FirewallMembers(steps: seq<Step>)
    ensures forall s :: s in Firewall(steps) <==> s in steps && s.stage == "firewall"
  {
    if steps != [] {
      var n := |steps| - 1;
      FirewallMembers(steps[..n]);
      assert steps == steps[..n] + [steps[n]];
    }
  }

  lemma {:induction false} FirewallConcat(a: seq<Step>, b: seq<Step>)
    ensures Firewall(a + b) == Firewall(a) + Firewall(b)
  {
    hide InFirewall;
    if b == [] {
      assert a + b == a;
    } else {
      var n := |b| - 1;
      FirewallConcat(a, b[..n]);
      var last := InFirewall(b[n]);
      assert (a + b)[|a| + n] == b[n];
      assert (a + b)[..|a| + n] == a + b[..n];
      assert Firewall(a + b) == Firewall(a + b[..n]) + last;
      assert Firewall(a) + (Firewall(b[..n]) + last) == (Firewall(a) + Firewall(b[..n])) + last;
    }
  }

  lemma EarlySteps(c: Contract)
    requires "root" !in c.serviceUsers
    ensures forall name, package :: !CreatesRoot(PackageStep(name, package)) && PackageStep(name, package).stage != "firewall"
    ensures !CreatesRoot(GroupStep(c.sharedGroup)) && GroupStep(c.sharedGroup).stage != "firewall"
    ensures forall u <- c.serviceUsers ::
      UserStep(c.sharedGroup, u).stage != "firewall"
      && (CreatesRoot(UserStep(c.sharedGroup, u)) <==> c.sharedGroup == "root")
    ensures forall d :: !CreatesRoot(DirectoryStep(d)) && DirectoryStep(d).stage != "firewall"
    ensures forall s <- DatabaseSteps() :: !CreatesRoot(s) && s.stage != "firewall"
    ensures forall role :: !CreatesRoot(RoleStep(role)) && RoleStep(role).stage != "firewall"
    ensures !CreatesRoot(SnapshotStep()) && !Enables(SnapshotStep())
  {
  }

  /** A step that does not enable the firewall, if it is one for it, and creates no root. */
  predicate IsPlain(step: Step) {
    (step.stage == "firewall" ==> !Enables(step)) && !CreatesRoot(step)
  }

  // The part of a plan up to SSH: before the users, the users, and after them.

  function PackagePart(c: Contract): seq<Step> {
    seq(|c.packages|, i requires 0 <= i < |c.packages| => PackageStep(c.packages[i].0, c.packages[i].1))
    + [GroupStep(c.sharedGroup)]
  }

  function UserPart(c: Contract): seq<Step> {
    seq(|c.serviceUsers|, i requires 0 <= i < |c.serviceUsers| => UserStep(c.sharedGroup, c.serviceUsers[i]))
  }

  function RestPart(): seq<Step> {
    seq(|LAYOUT|, i requires 0 <= i < |LAYOUT| => DirectoryStep(LAYOUT[i]))
    + DatabaseSteps()
    + seq(|ROLES|, i requires 0 <= i < |ROLES| => RoleStep(ROLES[i]))
    + [SnapshotStep()]
  }

  lemma BeforeSshParts(c: Contract)
    ensures BeforeSsh(c) == PackagePart(c) + UserPart(c) + RestPart()
  {
    hide PackageStep, UserStep, GroupStep, DirectoryStep, DatabaseSteps, RoleStep, SnapshotStep;
  }

  lemma PackagePartIsPlain(c: Contract)
    requires IsValid(c)
    ensures forall s <- PackagePart(c) :: IsPlain(s)
  {
    EarlySteps(c);
    hide PackageStep, GroupStep, CreatesRoot, Enables, IsValid;
  }

  lemma RestPartIsPlain(c: Contract)
    requires IsValid(c)
    ensures forall s <- RestPart() :: IsPlain(s)
  {
    EarlySteps(c);
    hide DirectoryStep, DatabaseSteps, RoleStep, SnapshotStep, CreatesRoot, Enables, IsValid;
  }

  lemma UserPartUsers(c: Contract)
    requires IsValid(c)
    ensures forall s <- UserPart(c) :: s.stage != "firewall"
    ensures (exists s <- UserPart(c) :: CreatesRoot(s)) <==> c.serviceUsers != [] && c.sharedGroup == "root"
  {
    EarlySteps(c);
    hide UserStep, CreatesRoot, Enables, IsValid;
    var users := UserPart(c);
    assert forall i | 0 <= i < |users| :: users[i] in users && c.serviceUsers[i] in c.serviceUsers;
    assert users != [] ==> users[0] in users;
  }

  lemma BeforeSshIsEarly(c: Contract)
    requires IsValid(c)
    ensures forall s <- BeforeSsh(c) :: s.stage == "firewall" ==> !Enables(s)
    ensures (exists s <- BeforeSsh(c) :: CreatesRoot(s)) <==> c.serviceUsers != [] && c.sharedGroup == "root"
  {
    hide BeforeSsh, PackagePart, UserPart, RestPart, IsPlain, CreatesRoot, Enables, IsValid;
    BeforeSshParts(c);
    PackagePartIsPlain(c);
    RestPartIsPlain(c);
    UserPartUsers(c);
    UsersAmongPlain(PackagePart(c), UserPart(c), RestPart());
  }

  lemma UsersAmongPlain(before: seq<Step>, users: seq<Step>, after: seq<Step>)
    requires (forall s <- before :: IsPlain(s)) && (forall s <- after :: IsPlain(s))
    requires forall s <- users :: s.stage != "firewall"
    ensures forall s <- before + users + after :: s.stage == "firewall" ==> !Enables(s)
    ensures (exists s <- before + users + after :: CreatesRoot(s)) <==> exists s <- users :: CreatesRoot(s)
  {
    hide CreatesRoot, Enables;
    if s :| s in users && CreatesRoot(s) {
      assert s in before + users + after;
    }
  }

  lemma LateSteps(c: Contract)
    ensures !CreatesRoot(AllowSshStep(c.sshSourceCidr)) && AllowsSsh(AllowSshStep(c.sshSourceCidr))
    ensures AllowSshStep(c.sshSourceCidr).stage == "firewall"
    ensures Enables(EnableStep()) && EnableStep().stage == "firewall"
    ensures forall p :: !CreatesRoot(AllowStep(p)) && !CreatesRoot(DenyStep(p))
    ensures !CreatesRoot(EnableStep()) && !CreatesRoot(UnitSteps()[0]) && !CreatesRoot(UnitSteps()[1])
    ensures |UnitSteps()| == 2
  {
  }

  lemma TailCreatesNoRoot(c: Contract)
    ensures forall s <- Tail(c) :: !CreatesRoot(s)
  {
    LateSteps(c);
    hide CreatesRoot, AllowStep, DenyStep, EnableStep, UnitSteps, OpenPorts;
  }

  lemma PlanAllowsSshFirst(c: Contract)
    requires IsValid(c)
    ensures SshFirst(Firewall(PlanOf(c)))
  {
    var ssh := AllowSshStep(c.sshSourceCidr);
    LateSteps(c);
    BeforeSshIsEarly(c);
    hide BeforeSsh, PortSteps, AllowSshStep, EnableStep, UnitSteps, AllowsSsh, Enables, CreatesRoot, IsValid,
         Firewall, SshFirst, PlanOf;
    TailIsThere(c);
    FirewallMembers(BeforeSsh(c));
    FirewallMembers(Tail(c));
    FirewallSplit(BeforeSsh(c), ssh, Tail(c));
    assert EnableStep() in Tail(c);
    SshBeforeEnable(Firewall(BeforeSsh(c)), ssh, Firewall(Tail(c)), EnableStep());
  }

  lemma FirewallSplit(a: seq<Step>, step: Step, b: seq<Step>)
    requires step.stage == "firewall"
    ensures Firewall(a + [step] + b) == Firewall(a) + [step] + Firewall(b)
  {
    FirewallConcat(a, [step]);
    FirewallConcat(a + [step], b);
    assert [step][..0] == [];
    assert Firewall([step]) == [] + InFirewall(step);
  }

  lemma SshBeforeEnable(early: seq<Step>, ssh: Step, late: seq<Step>, enable: Step)
    requires forall s <- early :: !Enables(s)
    requires AllowsSsh(ssh) && enable in late && Enables(enable)
    ensures SshFirst(early + [ssh] + late)
  {
    hide AllowsSsh, Enables;
    var all := early + [ssh] + late;
    assert all[|early|] == ssh;
    assert forall j | 0 <= j < |early| :: all[j] == early[j] && early[j] in early;
    var k :| 0 <= k < |late| && late[k] == enable;
    assert all[|early| + 1 + k] == enable;
  }

  // ----- Which plans pass -----

  /** The gate lets the plan of a valid contract through if and only if no forbidden host is
      mentioned, no user is put into a shared group called root, and what the contract fills
      into the commands up to SSH does not itself spell out that a loopback port is allowed:
      the order of the firewall and the ports the plan opens are never the reason to refuse. */
  lemma PlanPassesExactly(c: Contract)
    requires IsValid(c)
    ensures Passes(PlanOf(c), c.loopbackPorts) <==>
      && (forall name <- FORBIDDEN_HOSTS :: !Contains(PlanText(PlanOf(c)), name))
      && (c.serviceUsers == [] || c.sharedGroup != "root")
      && (forall port <- c.loopbackPorts :: !Contains(PlanText(Head(c)), AllowText(port)))
  {
    hide Contains, PlanText, AllowText, CreatesRoot, SshFirst, Firewall, OpenPorts, BeforeSsh, AllowSshStep, Tail;
    PlanAllowsSshFirst(c);
    WebPorts(c);
    BeforeSshIsEarly(c);
    LateSteps(c);
    TailCreatesNoRoot(c);
    TailIsThere(c);
    forall port | port in c.loopbackPorts
      ensures Contains(PlanText(PlanOf(c)), AllowText(port)) <==> Contains(PlanText(Head(c)), AllowText(port))
    {
      AllowedInHeadOnly(c, port);
    }
    assert forall s :: s in PlanOf(c) <==>
      s in BeforeSsh(c) || s == AllowSshStep(c.sshSourceCidr) || s in Tail(c);
  }

  /** A valid contract whose shared group is called root has a plan that is refused. */
  lemma RootGroupIsRefused(c: Contract) returns (instance: Contract)
    ensures IsValid(c) && c.serviceUsers != [] && c.sharedGroup == "root" ==>
      !Passes(PlanOf(c), c.loopbackPorts)
    ensures IsValid(instance) && !Passes(PlanOf(instance), instance.loopbackPorts)
  {
    instance := Contract([], "root", ["tamforge-api"], "", [22, 80, 443], []);
    assert PublicPorts(instance) == {22, 80, 443};
    hide Passes, PlanOf;
    if IsValid(c) {
      PlanPassesExactly(c);
    }
    PlanPassesExactly(instance);
  }
}
