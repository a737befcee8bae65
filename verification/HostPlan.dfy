/** The provisioning plan a host contract gives, and why it can be run in order. */
module HostPlan {
  import opened Wrappers
  import opened Text
  import opened Provisioning

  datatype Contract = Contract(
    packages: seq<(string, string)>, sharedGroup: string, serviceUsers: seq<string>,
    sshSourceCidr: string, publicPorts: seq<nat>, loopbackPorts: seq<nat>)

  function PublicPorts(c: Contract): set<nat> {
    set p | p in c.publicPorts
  }

  /** The rules of `HostContract.validate` that the plan depends on. */
  predicate IsValid(c: Contract) {
    && PublicPorts(c) == {22, 80, 443}
    && (forall p | p in c.loopbackPorts :: p !in c.publicPorts)
    && "root" !in c.serviceUsers
    && (forall u | u in c.serviceUsers :: "tamforge-" <= u)
  }

  const LAYOUT: seq<(string, string, string, string)> := [
    ("/opt/tamforge/releases", "root", "tamforge", "0750"),
    ("/etc/tamforge", "root", "tamforge", "0750"),
    ("/etc/tamforge/secrets", "root", "root", "0700"),
    ("/etc/tamforge/trust", "root", "root", "0755"),
    ("/var/lib/tamforge/api", "tamforge-api", "tamforge-api", "0750"),
    ("/var/lib/tamforge/worker", "tamforge-worker", "tamforge-worker", "0750"),
    ("/var/lib/tamforge/speech", "tamforge-speech", "tamforge-speech", "0750"),
    ("/var/lib/tamforge/claude", "tamforge-claude", "tamforge-claude", "0750"),
    ("/var/lib/tamforge/embedding", "tamforge-embedding", "tamforge-embedding", "0750"),
    ("/var/lib/tamforge/shared", "root", "tamforge", "2770"),
    ("/var/lib/tamforge/backup", "tamforge-backup", "tamforge-backup", "0700"),
    ("/var/lib/tamforge/quarantine", "tamforge-api", "tamforge-api", "0700"),
    ("/var/cache/tamforge/speech", "tamforge-speech", "tamforge-speech", "0750"),
    ("/var/cache/tamforge/embeddings", "tamforge-embedding", "tamforge-embedding", "0750")]

  const ROLES := ["tamforge_app", "tamforge_migrator", "tamforge_backup"]

  // ----- Steps -----

  function ProbedStep(stage: string, description: string, command: seq<string>, already: seq<string>): Step {
    Step(stage, description, command, Some(already), false, None)
  }

  function PackageStep(name: string, package: string): Step {
    ProbedStep("packages", "install " + name + " (" + package + ")",
           ["apt-get", "install", "-y", "--no-install-recommends", package],
           ["dpkg-query", "-W", package])
  }

  function GroupStep(group: string): Step {
    ProbedStep("identities", "create shared group " + group,
           ["groupadd", "--system", group], ["getent", "group", group])
  }

  function UserStep(group: string, user: string): Step {
    ProbedStep("identities", "create locked no-login user " + user,
           ["useradd", "--system", "--no-create-home", "--shell", "/usr/sbin/nologin", "--groups", group, user],
           ["getent", "passwd", user])
  }

  function DirectoryStep(d: (string, string, string, string)): Step {
    ProbedStep("layout", d.0 + " " + d.1 + ":" + d.2 + " " + d.3,
           ["install", "-d", "-o", d.1, "-g", d.2, "-m", d.3, d.0], ["test", "-d", d.0])
  }

  function DatabaseSteps(): seq<Step> {
    [ProbedStep("postgresql", "bind PostgreSQL to loopback only",
            ["pg_conftool", "16", "main", "set", "listen_addresses", "'127.0.0.1'"],
            ["grep", "-q", "listen_addresses = '127.0.0.1'", "/etc/postgresql/16/main/postgresql.conf"]),
     ProbedStep("postgresql", "create database tamforge with vector",
            ["sudo", "-u", "postgres", "psql", "-c", "CREATE DATABASE tamforge"],
            ["sudo", "-u", "postgres", "psql", "-tAc", "SELECT 1 FROM pg_database WHERE datname='tamforge'"])]
  }

  function RoleStep(role: string): Step {
    ProbedStep("postgresql", "create least-privilege role " + role,
           ["sudo", "-u", "postgres", "psql", "-c",
            "CREATE ROLE " + role + " LOGIN NOSUPERUSER NOCREATEDB NOCREATEROLE"],
           ["sudo", "-u", "postgres", "psql", "-tAc", "SELECT 1 FROM pg_roles WHERE rolname='" + role + "'"])
  }

  function SnapshotStep(): Step {
    Step("firewall", "snapshot firewall state", ["ufw", "status", "verbose"], None, true, Some("ufw_status"))
  }

  function AllowSshStep(cidr: string): Step {
    ProbedStep("firewall", "allow SSH from " + cidr,
           ["ufw", "allow", "from", cidr, "to", "any", "port", "22", "proto", "tcp"],
           ["sh", "-c", "ufw status | grep -q '22/tcp.*ALLOW.*" + cidr + "'"])
  }

  function AllowStep(port: nat): Step {
    ProbedStep("firewall", "allow tcp/" + Decimal(port), ["ufw", "allow", Decimal(port) + "/tcp"],
           ["sh", "-c", "ufw status | grep -q '" + Decimal(port) + "/tcp.*ALLOW'"])
  }

  function DenyStep(port: nat): Step {
    ProbedStep("firewall", "deny tcp/" + Decimal(port) + " from outside", ["ufw", "deny", Decimal(port) + "/tcp"],
           ["sh", "-c", "ufw status | grep -q '" + Decimal(port) + "/tcp.*DENY'"])
  }

  function EnableStep(): Step {
    ProbedStep("firewall", "enable firewall", ["ufw", "--force", "enable"],
           ["sh", "-c", "ufw status | grep -q 'Status: active'"])
  }

  function UnitSteps(): seq<Step> {
    [Step("units", "verify units before enablement",
          ["systemd-analyze", "verify", "/etc/systemd/system/tamforge-*.service"], None, true, None),
     Step("units", "reload systemd", ["systemctl", "daemon-reload"], None, true, None)]
  }

  // ----- The plan -----

  predicate IsLeast(s: set<nat>, x: nat) {
    x in s && forall p | p in s :: x <= p
  }

  lemma {:induction false} HasLeast(s: set<nat>) returns (least: nat)
    requires s != {}
    ensures IsLeast(s, least)
    decreases |s|
  {
    least :| least in s;
    var rest := s - {least};
    if rest != {} {
      var other := HasLeast(rest);
      assert forall p | p in s :: p == least || p in rest;
      least := if least <= other then least else other;
    } else {
      assert s == {least};
    }
  }

  /** `sorted(s)` for a set of ports. */
  function Ascending(s: set<nat>): (r: seq<nat>)
    ensures forall p :: p in r <==> p in s
    ensures forall i, j | 0 <= i < j < |r| :: r[i] < r[j]
  {
    if s == {} then []
    else
      assert exists x :: IsLeast(s, x) by { var x := HasLeast(s); assert IsLeast(s, x); }
      var least: nat :| least in s && IsLeast(s, least);
      [least] + Ascending(s - {least})
  }

  function OpenPorts(c: Contract): seq<nat> {
    Ascending(PublicPorts(c) - {22})
  }

  function BeforeSsh(c: Contract): seq<Step> {
    seq(|c.packages|, i requires 0 <= i < |c.packages| => PackageStep(c.packages[i].0, c.packages[i].1))
    + [GroupStep(c.sharedGroup)]
    + seq(|c.serviceUsers|, i requires 0 <= i < |c.serviceUsers| => UserStep(c.sharedGroup, c.serviceUsers[i]))
    + seq(|LAYOUT|, i requires 0 <= i < |LAYOUT| => DirectoryStep(LAYOUT[i]))
    + DatabaseSteps()
    + seq(|ROLES|, i requires 0 <= i < |ROLES| => RoleStep(ROLES[i]))
    + [SnapshotStep()]
  }

  function PortSteps(c: Contract): seq<Step> {
    seq(|OpenPorts(c)|, i requires 0 <= i < |OpenPorts(c)| => AllowStep(OpenPorts(c)[i]))
    + seq(|c.loopbackPorts|, i requires 0 <= i < |c.loopbackPorts| => DenyStep(c.loopbackPorts[i]))
  }

  function PlanOf(c: Contract): seq<Step> {
    BeforeSsh(c) + [AllowSshStep(c.sshSourceCidr)] + PortSteps(c) + [EnableStep()] + UnitSteps()
  }

  function SshIndex(c: Contract): nat {
    |BeforeSsh(c)|
  }

  function EnableIndex(c: Contract): nat {
    |BeforeSsh(c)| + 1 + |PortSteps(c)|
  }

  method PackageSteps(packages: seq<(string, string)>) returns (steps: seq<Step>)
    ensures steps == seq(|packages|, i requires 0 <= i < |packages| => PackageStep(packages[i].0, packages[i].1))
  {
    hide PackageStep;
    steps := [];
    for i := 0 to |packages|
      invariant |steps| == i
      invariant forall j | 0 <= j < i :: steps[j] == PackageStep(packages[j].0, packages[j].1)
    {
      steps := steps + [PackageStep(packages[i].0, packages[i].1)];
    }
  }

  method UserSteps(group: string, users: seq<string>) returns (steps: seq<Step>)
    ensures steps == seq(|users|, i requires 0 <= i < |users| => UserStep(group, users[i]))
  {
    hide UserStep;
    steps := [];
    for i := 0 to |users|
      invariant |steps| == i
      invariant forall j | 0 <= j < i :: steps[j] == UserStep(group, users[j])
    {
      steps := steps + [UserStep(group, users[i])];
    }
  }

  method PortStepList(open: seq<nat>, denied: seq<nat>) returns (steps: seq<Step>)
    ensures steps == seq(|open|, i requires 0 <= i < |open| => AllowStep(open[i]))
      + seq(|denied|, i requires 0 <= i < |denied| => DenyStep(denied[i]))
  {
    hide AllowStep, DenyStep;
    steps := [];
    for i := 0 to |open|
      invariant |steps| == i
      invariant forall j | 0 <= j < i :: steps[j] == AllowStep(open[j])
    {
      steps := steps + [AllowStep(open[i])];
    }
    for i := 0 to |denied|
      invariant |steps| == |open| + i
      invariant forall j | 0 <= j < |open| :: steps[j] == AllowStep(open[j])
      invariant forall j | 0 <= j < i :: steps[|open| + j] == DenyStep(denied[j])
    {
      steps := steps + [DenyStep(denied[i])];
    }
  }

  /** `plan`, which appends step after step. */
  method BuildPlan(c: Contract) returns (steps: seq<Step>)
    ensures steps == PlanOf(c)
  {
    hide PackageStep, UserStep, GroupStep, DirectoryStep, DatabaseSteps, RoleStep, SnapshotStep, AllowSshStep,
         AllowStep, DenyStep, EnableStep, UnitSteps, OpenPorts;
    var packages := PackageSteps(c.packages);
    var users := UserSteps(c.sharedGroup, c.serviceUsers);
    var ports := PortStepList(OpenPorts(c), c.loopbackPorts);
    steps := packages + [GroupStep(c.sharedGroup)] + users;
    steps := steps + seq(|LAYOUT|, i requires 0 <= i < |LAYOUT| => DirectoryStep(LAYOUT[i]));
    steps := steps + DatabaseSteps();
    steps := steps + seq(|ROLES|, i requires 0 <= i < |ROLES| => RoleStep(ROLES[i]));
    steps := steps + [SnapshotStep()];
    steps := steps + [AllowSshStep(c.sshSourceCidr)];
    steps := steps + ports + [EnableStep()] + UnitSteps();
  }

  // ----- Properties of every plan -----

  predicate IsSafeStep(step: Step) {
    step.readOnly || step.already.Some?
  }

  predicate AllSafe(steps: seq<Step>) {
    forall i | 0 <= i < |steps| :: IsSafeStep(steps[i])
  }

  /** Commands that open the firewall or turn it on. */
  predicate OpensFirewall(step: Step) {
    |step.command| >= 2 && step.command[0] == "ufw" && (step.command[1] == "allow" || step.command[1] == "--force")
  }

  predicate NoneOpen(steps: seq<Step>) {
    forall i | 0 <= i < |steps| :: !OpensFirewall(steps[i])
  }

  lemma BeforeSshIsQuiet(c: Contract)
    ensures AllSafe(BeforeSsh(c)) && NoneOpen(BeforeSsh(c))
  {
    QuietParts(c);
    var packages := seq(|c.packages|, i requires 0 <= i < |c.packages| => PackageStep(c.packages[i].0, c.packages[i].1));
    var users := seq(|c.serviceUsers|, i requires 0 <= i < |c.serviceUsers| => UserStep(c.sharedGroup, c.serviceUsers[i]));
    var layout := seq(|LAYOUT|, i requires 0 <= i < |LAYOUT| => DirectoryStep(LAYOUT[i]));
    var roles := seq(|ROLES|, i requires 0 <= i < |ROLES| => RoleStep(ROLES[i]));
    hide PackageStep, UserStep, GroupStep, DirectoryStep, DatabaseSteps, RoleStep, SnapshotStep, IsSafeStep,
         OpensFirewall;
    assert BeforeSsh(c) == packages + [GroupStep(c.sharedGroup)] + users + layout + DatabaseSteps() + roles
      + [SnapshotStep()];
  }

  lemma QuietParts(c: Contract)
    ensures forall name, package :: IsSafeStep(PackageStep(name, package)) && !OpensFirewall(PackageStep(name, package))
    ensures IsSafeStep(GroupStep(c.sharedGroup)) && !OpensFirewall(GroupStep(c.sharedGroup))
    ensures forall group, user :: IsSafeStep(UserStep(group, user)) && !OpensFirewall(UserStep(group, user))
    ensures forall d :: IsSafeStep(DirectoryStep(d)) && !OpensFirewall(DirectoryStep(d))
    ensures AllSafe(DatabaseSteps()) && NoneOpen(DatabaseSteps())
    ensures forall role :: IsSafeStep(RoleStep(role)) && !OpensFirewall(RoleStep(role))
    ensures IsSafeStep(SnapshotStep()) && !OpensFirewall(SnapshotStep())
  {
  }

  lemma PortStepsAreProbed(c: Contract)
    ensures AllSafe(PortSteps(c))
  {
    hide OpenPorts;
  }

  lemma PlanAt(c: Contract)
    ensures SshIndex(c) < EnableIndex(c) < |PlanOf(c)|
    ensures PlanOf(c)[SshIndex(c)] == AllowSshStep(c.sshSourceCidr)
    ensures PlanOf(c)[EnableIndex(c)] == EnableStep()
    ensures forall i | 0 <= i < SshIndex(c) :: PlanOf(c)[i] == BeforeSsh(c)[i]
    ensures forall i | SshIndex(c) < i < EnableIndex(c) :: PlanOf(c)[i] == PortSteps(c)[i - SshIndex(c) - 1]
    ensures forall i | EnableIndex(c) < i < |PlanOf(c)| :: PlanOf(c)[i] == UnitSteps()[i - EnableIndex(c) - 1]
  {
    hide BeforeSsh, PortSteps, AllowSshStep, EnableStep;
  }

  /** Every step of every plan is read-only or guarded by a probe. */
  lemma EveryStepIsReadOnlyOrProbed(c: Contract)
    ensures AllSafe(PlanOf(c))
  {
    hide BeforeSsh, PortSteps;
    PlanAt(c);
    BeforeSshIsQuiet(c);
    PortStepsAreProbed(c);
    forall i | 0 <= i < |PlanOf(c)|
      ensures IsSafeStep(PlanOf(c)[i])
    {
      if i < SshIndex(c) {
        assert IsSafeStep(BeforeSsh(c)[i]);
      } else if SshIndex(c) < i < EnableIndex(c) {
        assert IsSafeStep(PortSteps(c)[i - SshIndex(c) - 1]);
      }
    }
  }

  /** The firewall is turned on by one step only; it and everything that opens a port come no
      earlier than the step that allows SSH. */
  lemma OnlyOneStepEnables(c: Contract, i: nat)
    requires i < |PlanOf(c)|
    ensures PlanOf(c)[i].command == EnableStep().command <==> i == EnableIndex(c)
    ensures OpensFirewall(PlanOf(c)[i]) ==> i >= SshIndex(c)
  {
    hide BeforeSsh, PortSteps;
    PlanAt(c);
    BeforeSshIsQuiet(c);
    if i < SshIndex(c) {
      assert !OpensFirewall(BeforeSsh(c)[i]);
    } else if SshIndex(c) < i < EnableIndex(c) {
      PortStepIsNotEnable(c, i - SshIndex(c) - 1);
    }
  }

  lemma PortStepIsNotEnable(c: Contract, i: nat)
    requires i < |PortSteps(c)|
    ensures PortSteps(c)[i].command != EnableStep().command
    ensures || (exists port :: port in OpenPorts(c) && PortSteps(c)[i] == AllowStep(port))
            || (exists port :: port in c.loopbackPorts && PortSteps(c)[i] == DenyStep(port))
  {
    hide OpenPorts;
    var open := OpenPorts(c);
    if i < |open| {
      assert PortSteps(c)[i] == AllowStep(open[i]);
      assert open[i] in open;
    } else {
      assert PortSteps(c)[i] == DenyStep(c.loopbackPorts[i - |open|]);
      assert c.loopbackPorts[i - |open|] in c.loopbackPorts;
    }
  }

  /** Over all runs of the plan, however they ended: the command that turns the firewall on is
      issued only after the step that allows SSH was recorded in the checkpoint. */
  lemma FirewallWaitsForSsh(c: Contract, saved: Checkpoint, log: seq<Event>, ran: set<nat>, p: nat)
    requires History(PlanOf(c), saved, log, ran)
    requires p < |log| && log[p].Issued? && log[p].step < |PlanOf(c)|
    requires PlanOf(c)[log[p].step].command == EnableStep().command
    ensures exists q | 0 <= q < p :: log[q] == Saved(SshIndex(c) + 1)
  {
    hide History, PlanOf;
    OnlyOneStepEnables(c, log[p].step);
    PlanAt(c);
    CommandsComeInOrder(PlanOf(c), saved, log, ran, p, SshIndex(c));
  }

  /** On a host where every probe finds its step already done, the plan changes nothing: no
      command is issued but those of the read-only steps. */
  lemma ReadyHostIsNotChanged(c: Contract, saved: Checkpoint, log: seq<Event>, ran: set<nat>)
    requires History(PlanOf(c), saved, log, ran)
    requires forall e | e in log && e.Probed? :: e.code == 0
    ensures saved.changed == []
    ensures forall p | 0 <= p < |log| && log[p].Issued? ::
      log[p].step < |PlanOf(c)| && PlanOf(c)[log[p].step].already.None? && PlanOf(c)[log[p].step].readOnly
  {
    hide History, PlanOf;
    EveryStepIsReadOnlyOrProbed(c);
    forall i | 0 <= i < |PlanOf(c)|
      ensures PlanOf(c)[i].readOnly || PlanOf(c)[i].already.Some?
    {
      assert IsSafeStep(PlanOf(c)[i]);
    }
    SatisfiedProbesChangeNothing(PlanOf(c), saved, log, ran);
    forall p | 0 <= p < |log| && log[p].Issued?
      ensures log[p].step < |PlanOf(c)| && PlanOf(c)[log[p].step].already.None? && PlanOf(c)[log[p].step].readOnly
    {
      SatisfiedProbesIssueNothing(PlanOf(c), saved, log, ran, p);
      assert IsSafeStep(PlanOf(c)[log[p].step]);
    }
  }

  /** No plan of a valid contract opens a loopback port to the outside, and every web port is
      opened between SSH and the firewall going on. */
  lemma LoopbackStaysClosed(c: Contract, i: nat, port: nat)
    requires IsValid(c) && i < |PlanOf(c)|
    ensures port in c.loopbackPorts ==> PlanOf(c)[i].command != AllowStep(port).command
    ensures OpenPorts(c) == [80, 443]
  {
    hide BeforeSsh, PortSteps;
    PlanAt(c);
    BeforeSshIsQuiet(c);
    WebPorts(c);
    if i < SshIndex(c) {
      assert !OpensFirewall(BeforeSsh(c)[i]);
    } else if SshIndex(c) < i < EnableIndex(c) {
      PortStepIsNotEnable(c, i - SshIndex(c) - 1);
      if PlanOf(c)[i].command == AllowStep(port).command {
        AllowNamesItsPort(c, PortSteps(c)[i - SshIndex(c) - 1], port);
      }
    }
  }

  lemma AllowNamesItsPort(c: Contract, step: Step, port: nat)
    requires step.command == AllowStep(port).command
    requires || (exists open :: open in OpenPorts(c) && step == AllowStep(open))
             || (exists closed :: closed in c.loopbackPorts && step == DenyStep(closed))
    ensures port in OpenPorts(c)
  {
    assert step.command[1] == "allow";
    var open :| open in OpenPorts(c) && step == AllowStep(open);
    assert Decimal(open) + "/tcp" == Decimal(port) + "/tcp";
    SamePrefix(Decimal(open), Decimal(port), "/tcp");
    assert DecimalValue(Decimal(open)) == DecimalValue(Decimal(port));
  }

  lemma SamePrefix(a: string, b: string, tail: string)
    requires a + tail == b + tail
    ensures a == b
  {
    assert |a| == |b|;
    assert a == (a + tail)[..|a|] && b == (b + tail)[..|b|];
  }

  lemma WebPorts(c: Contract)
    requires IsValid(c)
    ensures OpenPorts(c) == [80, 443]
    ensures forall p | p in c.loopbackPorts :: p !in OpenPorts(c)
  {
    var open := PublicPorts(c) - {22};
    assert open == {80, 443};
    AscendingFrom({80, 443}, 80);
    assert {80, 443} - {80} == {443};
    AscendingFrom({443}, 443);
    assert {443} - {443} == {};
  }

  lemma AscendingFrom(s: set<nat>, x: nat)
    requires IsLeast(s, x)
    ensures Ascending(s) == [x] + Ascending(s - {x})
  {
  }
}
