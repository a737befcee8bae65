/** What the steps of the plan ask for, read back from the words of their commands. */
module HostCommands {
  import opened Wrappers
  import opened Text
  import opened Provisioning
  import opened HostPlan

  datatype Request =
    | Package(name: string)
    | Group(name: string)
    | User(name: string, group: string, shell: string)
    | Directory(path: string, owner: string, group: string, mode: string)
    | OpenTo(source: string, port: nat)
    | OpenPort(port: nat)
    | ClosePort(port: nat)
    | TurnOn

  /** The word right after an option. */
  function After(words: seq<string>, option: string): (word: string) {
    if |words| < 2 then ""
    else if words[0] == option then words[1]
    else After(words[1..], option)
  }

  function Last(words: seq<string>): string {
    if words == [] then "" else words[|words| - 1]
  }

  /** `80/tcp` */
  function PortOf(word: string): Option<nat> {
    if |word| > 4 && word[|word| - 4..] == "/tcp" then
      var digits := word[..|word| - 4];
      if forall i | 0 <= i < |digits| :: IsDigit(digits[i]) then Some(DecimalValue(digits)) else None
    else None
  }

  /** The request a command makes, by its name, its options and its last word. */
  function Read(words: seq<string>): Option<Request> {
    if |words| < 2 then None
    else if words[0] == "apt-get" && words[1] == "install" then Some(Package(Last(words)))
    else if words[0] == "groupadd" then Some(Group(Last(words)))
    else if words[0] == "useradd" then
      Some(User(Last(words), After(words, "--groups"), After(words, "--shell")))
    else if words[0] == "install" && words[1] == "-d" then
      Some(Directory(Last(words), After(words, "-o"), After(words, "-g"), After(words, "-m")))
    else if words[0] == "ufw" then
      if words[1] == "allow" && "from" in words then
        if After(words, "port") == "22" then Some(OpenTo(After(words, "from"), 22)) else None
      else if Last(words) == "enable" then Some(TurnOn)
      else
        var port := PortOf(Last(words));
        if port.None? then None
        else if words[1] == "allow" then Some(OpenPort(port.value))
        else if words[1] == "deny" then Some(ClosePort(port.value))
        else None
    else None
  }

  /** A step makes a request, and its probe asks about the same subject. */
  predicate Asks(step: Step, request: Request) {
    && Read(step.command) == Some(request)
    && step.already.Some?
    && match request
       case Package(name) => step.already.value == ["dpkg-query", "-W", name]
       case Group(name) => step.already.value == ["getent", "group", name]
       case User(name, _, _) => step.already.value == ["getent", "passwd", name]
       case Directory(path, _, _, _) => step.already.value == ["test", "-d", path]
       case OpenTo(source, _) => Contains(Last(step.already.value), "22/tcp.*ALLOW.*" + source)
       case OpenPort(port) => Contains(Last(step.already.value), Decimal(port) + "/tcp.*ALLOW")
       case ClosePort(port) => Contains(Last(step.already.value), Decimal(port) + "/tcp.*DENY")
       case TurnOn => Contains(Last(step.already.value), "Status: active")
  }

  // ----- One step -----

  lemma PackageReads(name: string, package: string)
    ensures Asks(PackageStep(name, package), Package(package))
  {
  }

  lemma GroupReads(group: string)
    ensures Asks(GroupStep(group), Group(group))
  {
  }

  lemma UserReads(group: string, user: string)
    ensures Asks(UserStep(group, user), User(user, group, "/usr/sbin/nologin"))
    ensures "--no-create-home" in UserStep(group, user).command
  {
    var words := UserStep(group, user).command;
    assert words[2] == "--no-create-home";
    assert words[1..][0] == "--system" && words[2..][0] == "--no-create-home";
    assert words[3..][0] == "--shell" && words[4..][0] == "/usr/sbin/nologin" && words[5..][0] == "--groups";
    AfterAt(words, "--shell", 3);
    AfterAt(words, "--groups", 5);
  }

  /** The option is read at its first place. */
  lemma {:induction false} AfterAt(words: seq<string>, option: string, i: nat)
    requires i + 1 < |words| && words[i] == option
    requires forall j | 0 <= j < i :: words[j] != option
    ensures After(words, option) == words[i + 1]
  {
    if i > 0 {
      assert words[0] != option;
      AfterAt(words[1..], option, i - 1);
    }
  }

  lemma DirectoryReads(d: (string, string, string, string))
    requires IsPlain(d)
    ensures Asks(DirectoryStep(d), Directory(d.0, d.1, d.2, d.3))
  {
    var words := DirectoryStep(d).command;
    AfterAt(words, "-o", 2);
    AfterAt(words, "-g", 4);
    AfterAt(words, "-m", 6);
  }

  lemma GrepLooksFor(text: string, pattern: string)
    requires text == "ufw status | grep -q '" + pattern + "'"
    ensures Contains(text, pattern)
  {
    var front := "ufw status | grep -q '";
    assert OccursAt(front + pattern + "'", pattern, |front|);
  }

  lemma SshWordsRead(words: seq<string>, cidr: string)
    requires cidr != "port"
    requires words == ["ufw", "allow", "from", cidr, "to", "any", "port", "22", "proto", "tcp"]
    ensures Read(words) == Some(OpenTo(cidr, 22))
  {
    hide After, PortOf, Last;
    assert words[2] == "from";
    AfterAt(words, "from", 2);
    AfterAt(words, "port", 6);
  }

  /** A network is never the word `port`. */
  lemma AllowSshReads(cidr: string)
    requires cidr != "port"
    ensures Asks(AllowSshStep(cidr), OpenTo(cidr, 22))
  {
    hide Contains, Read;
    SshWordsRead(AllowSshStep(cidr).command, cidr);
    GrepLooksFor(Last(AllowSshStep(cidr).already.value), "22/tcp.*ALLOW.*" + cidr);
  }

  lemma PortReads(port: nat)
    ensures PortOf(Decimal(port) + "/tcp") == Some(port)
    ensures Decimal(port) + "/tcp" != "enable" && Decimal(port) + "/tcp" != "from"
  {
    var word := Decimal(port) + "/tcp";
    assert word[..|word| - 4] == Decimal(port);
    assert word[|word| - 1] == 'p';
    assert "enable"[5] == 'e' && "from"[3] == 'm';
  }

  lemma AllowReads(port: nat)
    ensures Asks(AllowStep(port), OpenPort(port))
  {
    hide Contains, PortOf;
    PortReads(port);
    GrepLooksFor(Last(AllowStep(port).already.value), Decimal(port) + "/tcp.*ALLOW");
  }

  lemma DenyReads(port: nat)
    ensures Asks(DenyStep(port), ClosePort(port))
  {
    hide Contains, PortOf;
    PortReads(port);
    GrepLooksFor(Last(DenyStep(port).already.value), Decimal(port) + "/tcp.*DENY");
  }

  lemma EnableReads()
    ensures Asks(EnableStep(), TurnOn)
  {
    hide Contains;
    GrepLooksFor(Last(EnableStep().already.value), "Status: active");
  }

  // ----- The whole plan -----

  /** A layout entry that cannot be taken for an option. */
  predicate IsPlain(d: (string, string, string, string)) {
    d.1 != "-g" && d.1 != "-m" && d.2 != "-m"
  }

  lemma LayoutIsPlain(i: nat)
    requires i < |LAYOUT|
    ensures IsPlain(LAYOUT[i])
  {
  }

  /** The steps up to SSH ask, in order, for every package, the shared group, every service user
      in that group and without a login, and every directory of the layout with its owner, its
      group and its mode. */
  lemma SetupIsAskedFor(c: Contract)
    ensures var plan, a, b, d := PlanOf(c), |c.packages|, |c.serviceUsers|, |LAYOUT|;
      && SshIndex(c) == a + 1 + b + d + 2 + |ROLES| + 1 && SshIndex(c) < |plan|
      && (forall i | 0 <= i < a :: Asks(plan[i], Package(c.packages[i].1)))
      && Asks(plan[a], Group(c.sharedGroup))
      && (forall i | 0 <= i < b ::
            Asks(plan[a + 1 + i], User(c.serviceUsers[i], c.sharedGroup, "/usr/sbin/nologin")))
      && (forall i | 0 <= i < d ::
            Asks(plan[a + 1 + b + i], Directory(LAYOUT[i].0, LAYOUT[i].1, LAYOUT[i].2, LAYOUT[i].3)))
  {
    hide PackageStep, GroupStep, UserStep, DirectoryStep, Asks, LAYOUT, PlanOf, BeforeSsh, AllowSshStep, EnableStep,
         PortSteps;
    PlanAt(c);
    SetupAt(c);
    GroupReads(c.sharedGroup);
    forall i | 0 <= i < |c.packages|
      ensures Asks(BeforeSsh(c)[i], Package(c.packages[i].1))
    {
      PackageReads(c.packages[i].0, c.packages[i].1);
    }
    var a, b := |c.packages|, |c.serviceUsers|;
    forall i | 0 <= i < b
      ensures Asks(BeforeSsh(c)[a + 1 + i], User(c.serviceUsers[i], c.sharedGroup, "/usr/sbin/nologin"))
    {
      UserReads(c.sharedGroup, c.serviceUsers[i]);
    }
    forall i | 0 <= i < |LAYOUT|
      ensures Asks(BeforeSsh(c)[a + 1 + b + i], Directory(LAYOUT[i].0, LAYOUT[i].1, LAYOUT[i].2, LAYOUT[i].3))
    {
      LayoutIsPlain(i);
      DirectoryReads(LAYOUT[i]);
    }
  }

  /** Before the firewall: PostgreSQL is bound to loopback, the database is created, and each role
      is created without any of the three privileges, behind a probe that asks for that role. */
  lemma DatabaseIsAskedFor(c: Contract, r: nat)
    requires r < |ROLES|
    ensures var plan, n := PlanOf(c), |c.packages| + 1 + |c.serviceUsers| + |LAYOUT|;
      && n + 2 + r < SshIndex(c) < |plan|
      && Last(plan[n].command) == "'127.0.0.1'" && After(plan[n].command, "set") == "listen_addresses"
      && Last(plan[n + 1].command) == "CREATE DATABASE tamforge"
      && IsRoleStep(plan[n + 2 + r], ROLES[r])
  {
    hide BeforeSsh, PlanOf, AllowSshStep, EnableStep, PortSteps, RoleStep, DatabaseSteps, IsRoleStep, ROLES, LAYOUT, Last, After;
    PlanAt(c);
    DatabaseAt(c, r);
    RoleReads(ROLES[r]);
    DatabaseReads();
  }

  predicate IsRoleStep(step: Step, role: string) {
    && "CREATE ROLE " + role + " " <= Last(step.command)
    && Contains(Last(step.command), "NOSUPERUSER")
    && Contains(Last(step.command), "NOCREATEDB")
    && Contains(Last(step.command), "NOCREATEROLE")
    && step.already.Some? && Contains(Last(step.already.value), "rolname='" + role + "'")
  }

  lemma DatabaseReads()
    ensures |DatabaseSteps()| == 2
    ensures Last(DatabaseSteps()[0].command) == "'127.0.0.1'"
    ensures After(DatabaseSteps()[0].command, "set") == "listen_addresses"
    ensures Last(DatabaseSteps()[1].command) == "CREATE DATABASE tamforge"
  {
    AfterAt(DatabaseSteps()[0].command, "set", 3);
  }

  const RIGHTS := " LOGIN NOSUPERUSER NOCREATEDB NOCREATEROLE"

  lemma RoleReads(role: string)
    ensures IsRoleStep(RoleStep(role), role)
  {
    hide Contains;
    var sql := "CREATE ROLE " + role + RIGHTS;
    assert Last(RoleStep(role).command) == sql;
    RightsRead("CREATE ROLE " + role);
    RoleProbeReads(role);
    assert RIGHTS[0] == ' ';
    hide RIGHTS;
    assert "CREATE ROLE " + role + " " <= sql;
  }

  lemma RightsRead(front: string)
    ensures Contains(front + RIGHTS, "NOSUPERUSER")
    ensures Contains(front + RIGHTS, "NOCREATEDB")
    ensures Contains(front + RIGHTS, "NOCREATEROLE")
  {
    NotSuper(front);
    NotDatabases(front);
    NotRoles(front);
  }

  lemma NotSuper(front: string)
    ensures Contains(front + RIGHTS, "NOSUPERUSER")
  {
    hide Contains;
    TailHolds(front, RIGHTS, RIGHTS[..7], "NOSUPERUSER", RIGHTS[18..]);
  }

  lemma NotDatabases(front: string)
    ensures Contains(front + RIGHTS, "NOCREATEDB")
  {
    hide Contains;
    TailHolds(front, RIGHTS, RIGHTS[..19], "NOCREATEDB", RIGHTS[29..]);
  }

  lemma NotRoles(front: string)
    ensures Contains(front + RIGHTS, "NOCREATEROLE")
  {
    hide Contains;
    TailHolds(front, RIGHTS, RIGHTS[..30], "NOCREATEROLE", "");
  }

  lemma RoleProbeReads(role: string)
    ensures RoleStep(role).already.Some?
    ensures Contains(Last(RoleStep(role).already.value), "rolname='" + role + "'")
  {
    hide Contains;
    var front, query := "SELECT 1 FROM pg_roles WHERE ", Last(RoleStep(role).already.value);
    assert "SELECT 1 FROM pg_roles WHERE rolname='" == front + "rolname='";
    assert query == "SELECT 1 FROM pg_roles WHERE rolname='" + role + "'";
    TailHolds("", query, front, "rolname='" + role + "'", "");
    assert "" + query == query;
  }

  lemma TailHolds(front: string, tail: string, before: string, part: string, after: string)
    requires tail == before + part + after
    ensures Contains(front + tail, part)
  {
    assert OccursAt(front + tail, part, |front| + |before|);
  }

  lemma DatabaseAt(c: Contract, r: nat)
    requires r < |ROLES|
    ensures var steps, n := BeforeSsh(c), |c.packages| + 1 + |c.serviceUsers| + |LAYOUT|;
      && |steps| == n + 2 + |ROLES| + 1
      && |DatabaseSteps()| == 2
      && steps[n] == DatabaseSteps()[0] && steps[n + 1] == DatabaseSteps()[1]
      && steps[n + 2 + r] == RoleStep(ROLES[r])
  {
    hide PackageStep, GroupStep, UserStep, DirectoryStep, RoleStep, SnapshotStep, LAYOUT, ROLES, ProbedStep;
  }

  /** Where each kind of step stands. */
  lemma SetupAt(c: Contract)
    ensures var steps, a, b, d := BeforeSsh(c), |c.packages|, |c.serviceUsers|, |LAYOUT|;
      && |steps| == a + 1 + b + d + 2 + |ROLES| + 1
      && (forall i | 0 <= i < a :: steps[i] == PackageStep(c.packages[i].0, c.packages[i].1))
      && steps[a] == GroupStep(c.sharedGroup)
      && (forall i | 0 <= i < b :: steps[a + 1 + i] == UserStep(c.sharedGroup, c.serviceUsers[i]))
      && (forall i | 0 <= i < d :: steps[a + 1 + b + i] == DirectoryStep(LAYOUT[i]))
  {
    hide PackageStep, GroupStep, UserStep, DirectoryStep, RoleStep, SnapshotStep, LAYOUT;
  }

  /** From SSH on, the plan opens port 22 to the contract's source, then every web port, closes
      every loopback port, and turns the firewall on; two read-only steps end it. */
  lemma FirewallIsAskedFor(c: Contract)
    requires IsValid(c) && c.sshSourceCidr != "port"
    ensures var plan, s, n := PlanOf(c), SshIndex(c), |c.loopbackPorts|;
      && |plan| == s + 1 + 2 + n + 1 + 2
      && Asks(plan[s], OpenTo(c.sshSourceCidr, 22))
      && Asks(plan[s + 1], OpenPort(80)) && Asks(plan[s + 2], OpenPort(443))
      && (forall i | 0 <= i < n :: Asks(plan[s + 3 + i], ClosePort(c.loopbackPorts[i])))
      && Asks(plan[s + 3 + n], TurnOn)
      && plan[s + 4 + n].readOnly && plan[s + 5 + n].readOnly
  {
    hide AllowStep, DenyStep, AllowSshStep, EnableStep, Asks, BeforeSsh, OpenPorts;
    PlanAt(c);
    WebPorts(c);
    AllowSshReads(c.sshSourceCidr);
    EnableReads();
    AllowReads(80);
    AllowReads(443);
    forall i | 0 <= i < |c.loopbackPorts|
      ensures Asks(PortSteps(c)[2 + i], ClosePort(c.loopbackPorts[i]))
    {
      DenyReads(c.loopbackPorts[i]);
    }
  }
}
