/** The gate over a native test report: the summary must be clean and the test cases in the
    tree, wherever they sit, must be the expected ones, each once and each passed. */
module Xcresult {
  import opened Wrappers

  /** A node of the report's JSON; what the gate does not look at is a `Scalar`. */
  datatype Node =
    | Listing(items: seq<Node>)
    | Entry(nodeType: Option<string>, name: Option<string>, result: Option<string>, children: Option<Node>)
    | Scalar

  datatype Summary = Summary(
    result: Option<string>, totalTestCount: Option<int>, passedTests: Option<int>,
    failedTests: Option<int>, skippedTests: Option<int>, expectedFailures: Option<int>)

  datatype GateError =
    | SummaryDrift
    | InventoryDrift(count: nat, missing: set<string>, unexpected: set<string>)
    | NotPassing(names: seq<Option<string>>)

  const TEST_CASE := "Test Case"
  const PASSED := "Passed"

  predicate IsCase(node: Node) {
    node.Entry? && node.nodeType == Some(TEST_CASE)
  }

  /** `_test_cases` */
  function TestCases(node: Node): seq<Node>
    decreases node, 0
  {
    match node
    case Scalar => []
    case Listing(items) => TestCasesOfAll(items)
    case Entry(_, _, _, children) =>
      (if IsCase(node) then [node] else [])
      + match children { case None => [] case Some(sub) => TestCases(sub) }
  }

  function TestCasesOfAll(nodes: seq<Node>): seq<Node>
    decreases nodes, 1
  {
    if nodes == [] then [] else TestCases(nodes[0]) + TestCasesOfAll(nodes[1..])
  }

  function Names(cases: seq<Node>): (names: seq<Option<string>>)
    requires forall c <- cases :: c.Entry?
    ensures |names| == |cases| && forall i | 0 <= i < |cases| :: names[i] == cases[i].name
  {
    seq(|cases|, i requires 0 <= i < |cases| => cases[i].name)
  }

  function NotPassed(cases: seq<Node>): seq<Option<string>>
    requires forall c <- cases :: c.Entry?
  {
    if cases == [] then []
    else (if cases[0].result != Some(PASSED) then [cases[0].name] else []) + NotPassed(cases[1..])
  }

  predicate IsClean(s: Summary, count: nat) {
    s == Summary(Some(PASSED), Some(count), Some(count), Some(0), Some(0), Some(0))
  }

  /** `validate_xcresult`; a report without `testNodes` has an empty listing of them. */
  function ValidateXcresult(summary: Summary, testNodes: Node, expected: set<string>): Option<GateError> {
    if !IsClean(summary, |expected|) then Some(SummaryDrift)
    else
      var cases := TestCases(testNodes);
      OnlyCases(testNodes);
      var names := set n | n in Names(cases) :: n;
      var missing := set e | e in expected && Some(e) !in names :: e;
      var unexpected := set n | n in names && n.Some? && n.value !in expected :: n.value;
      if |cases| != |expected| || missing != {} || unexpected != {} then
        Some(InventoryDrift(|cases|, missing, unexpected))
      else if NotPassed(cases) != [] then Some(NotPassing(NotPassed(cases)))
      else None
  }

  lemma {:induction false} OnlyCases(node: Node)
    ensures forall c <- TestCases(node) :: IsCase(c)
    decreases node, 0
  {
    match node {
      case Scalar =>
      case Listing(items) => OnlyCasesInAll(items);
      case Entry(_, _, _, children) =>
        if children.Some? {
          OnlyCases(children.value);
        }
    }
  }

  lemma {:induction false} OnlyCasesInAll(nodes: seq<Node>)
    ensures forall c <- TestCasesOfAll(nodes) :: IsCase(c)
    decreases nodes, 1
  {
    if nodes != [] {
      OnlyCases(nodes[0]);
      OnlyCasesInAll(nodes[1..]);
    }
  }

  // ----- Places in a tree -----

  /** A way down: an item of a listing by its index, the children of an entry by 0. */
  type Path = seq<nat>

  function At(node: Node, path: Path): Option<Node>
    decreases |path|
  {
    if path == [] then Some(node)
    else
      match node
      case Listing(items) => if path[0] < |items| then At(items[path[0]], path[1..]) else None
      case Entry(_, _, _, children) =>
        if path[0] == 0 && children.Some? then At(children.value, path[1..]) else None
      case Scalar => None
  }

  predicate IsCaseAt(node: Node, path: Path) {
    At(node, path).Some? && IsCase(At(node, path).value)
  }

  function Prefixed(step: nat, paths: seq<Path>): (r: seq<Path>)
    ensures |r| == |paths| && forall i | 0 <= i < |r| :: r[i] == [step] + paths[i]
  {
    seq(|paths|, i requires 0 <= i < |paths| => [step] + paths[i])
  }

  /** Where the test cases are, in the order `TestCases` gives them. */
  function Places(node: Node): seq<Path>
    decreases node, 0
  {
    match node
    case Scalar => []
    case Listing(items) => PlacesInAll(items, 0)
    case Entry(_, _, _, children) =>
      (if IsCase(node) then [[]] else [])
      + match children { case None => [] case Some(sub) => Prefixed(0, Places(sub)) }
  }

  function PlacesInAll(nodes: seq<Node>, from: nat): seq<Path>
    decreases nodes, 1
  {
    if nodes == [] then [] else Prefixed(from, Places(nodes[0])) + PlacesInAll(nodes[1..], from + 1)
  }

  ghost predicate NoDuplicates<T(!new)>(s: seq<T>) {
    forall i, j :: 0 <= i < j < |s| ==> s[i] != s[j]
  }

  /** The list of cases and the places in the tree match one to one. */
  lemma {:induction false} PlacesAreTheCases(node: Node)
    ensures |Places(node)| == |TestCases(node)| && NoDuplicates(Places(node))
    ensures forall i | 0 <= i < |Places(node)| :: At(node, Places(node)[i]) == Some(TestCases(node)[i])
    ensures forall p: Path :: IsCaseAt(node, p) <==> p in Places(node)
    decreases node, 1
  {
    OnlyCases(node);
    match node {
      case Scalar =>
      case Listing(items) =>
        PlacesInAllAreTheCases(items, 0);
        forall p: Path
          ensures IsCaseAt(node, p) <==> p in Places(node)
        {
          if p != [] && p[0] < |items| {
            assert IsCaseAt(node, p) == IsCaseAt(items[p[0]], p[1..]);
          }
        }
      case Entry(_, _, _, children) =>
        EntryPlaces(node);
    }
  }

  lemma {:induction false} EntryPlaces(node: Node)
    requires node.Entry?
    ensures |Places(node)| == |TestCases(node)| && NoDuplicates(Places(node))
    ensures forall i | 0 <= i < |Places(node)| :: At(node, Places(node)[i]) == Some(TestCases(node)[i])
    ensures forall p: Path :: IsCaseAt(node, p) <==> p in Places(node)
    decreases node, 0
  {
    hide IsCase;
    if node.children.Some? {
      var sub := node.children.value;
      PlacesAreTheCases(sub);
      var below := Prefixed(0, Places(sub));
      PrefixedMembers(0, Places(sub));
      assert Places(node) == (if IsCase(node) then [[]] else []) + below;
      assert forall p: Path | p != [] :: IsCaseAt(node, p) == (p[0] == 0 && IsCaseAt(sub, p[1..]));
    }
  }

  lemma PrefixedMembers(step: nat, paths: seq<Path>)
    ensures NoDuplicates(paths) ==> NoDuplicates(Prefixed(step, paths))
    ensures forall p: Path :: p in Prefixed(step, paths) <==> p != [] && p[0] == step && p[1..] in paths
  {
    var r := Prefixed(step, paths);
    assert forall i | 0 <= i < |r| :: r[i][1..] == paths[i];
    forall p: Path | p != [] && p[0] == step && p[1..] in paths
      ensures p in r
    {
      var i :| 0 <= i < |paths| && paths[i] == p[1..];
      assert r[i] == [step] + p[1..] == p;
    }
  }

  lemma {:induction false} PlacesInAllAreTheCases(nodes: seq<Node>, from: nat)
    ensures var places := PlacesInAll(nodes, from);
      && |places| == |TestCasesOfAll(nodes)| && NoDuplicates(places)
      && (forall i | 0 <= i < |places| ::
            && places[i] != [] && from <= places[i][0] < from + |nodes|
            && At(nodes[places[i][0] - from], places[i][1..]) == Some(TestCasesOfAll(nodes)[i]))
    ensures forall p: Path :: p in PlacesInAll(nodes, from) <==>
      p != [] && from <= p[0] < from + |nodes| && IsCaseAt(nodes[p[0] - from], p[1..])
    decreases nodes, 1
  {
    hide At, IsCaseAt, Places, TestCases;
    if nodes != [] {
      PlacesAreTheCases(nodes[0]);
      PlacesInAllAreTheCases(nodes[1..], from + 1);
      PrefixedMembers(from, Places(nodes[0]));
      var first, others := Prefixed(from, Places(nodes[0])), PlacesInAll(nodes[1..], from + 1);
      SeparateFirsts(first, others, from);
      forall i | 0 <= i < |first|
        ensures first[i] != [] && first[i][0] == from && first[i][1..] == Places(nodes[0])[i]
      {
      }
      forall i | 0 <= i < |others|
        ensures At(nodes[others[i][0] - from], others[i][1..]) == Some(TestCasesOfAll(nodes[1..])[i])
      {
        assert nodes[others[i][0] - from] == nodes[1..][others[i][0] - (from + 1)];
      }
      forall p: Path
        ensures p in others <==> p != [] && from < p[0] < from + |nodes| && IsCaseAt(nodes[p[0] - from], p[1..])
      {
        if p != [] && from < p[0] < from + |nodes| {
          assert nodes[p[0] - from] == nodes[1..][p[0] - (from + 1)];
        }
      }
    }
  }

  lemma SeparateFirsts(first: seq<Path>, others: seq<Path>, from: nat)
    requires NoDuplicates(first) && NoDuplicates(others)
    requires forall p <- first :: p != [] && p[0] == from
    requires forall p <- others :: p != [] && p[0] > from
    ensures NoDuplicates(first + others)
  {
    var all := first + others;
    forall i, j | 0 <= i < j < |all|
      ensures all[i] != all[j]
    {
      assert i < |first| ==> all[i] in first;
      assert j >= |first| ==> all[j] in others;
      assert j >= |first| ==> all[j] == others[j - |first|];
    }
  }

  // ----- Counting -----

  lemma {:induction false} ElementsCount<T(!new)>(s: seq<T>)
    ensures |set x | x in s| <= |s|
    ensures |set x | x in s| == |s| <==> NoDuplicates(s)
  {
    if s != [] {
      var n := |s| - 1;
      var front := s[..n];
      ElementsCount(front);
      assert s == front + [s[n]];
      assert (set x | x in s) == (set x | x in front) + {s[n]};
      if s[n] in front {
        var i :| 0 <= i < n && front[i] == s[n];
        assert (set x | x in s) == (set x | x in front);
        assert s[i] == s[n];
      }
    }
  }

  function Wrapped(expected: set<string>): (w: set<Option<string>>)
    ensures forall o :: o in w <==> o.Some? && o.value in expected
  {
    set e | e in expected :: Some(e)
  }

  lemma {:induction false} WrappedCount(expected: set<string>)
    ensures |Wrapped(expected)| == |expected|
  {
    if e :| e in expected {
      WrappedCount(expected - {e});
      assert Wrapped(expected) == Wrapped(expected - {e}) + {Some(e)};
    }
  }

  /** As many names as expected and none missing: then none twice, none absent, none extra. */
  lemma Pigeonhole(names: seq<Option<string>>, expected: set<string>)
    ensures (|names| == |expected| && forall e <- expected :: Some(e) in names) <==>
      (NoDuplicates(names) && (set n | n in names) == Wrapped(expected))
  {
    var found := set n | n in names;
    ElementsCount(names);
    WrappedCount(expected);
    if |names| == |expected| && forall e <- expected :: Some(e) in names {
      SubsetCounts(Wrapped(expected), found);
    }
    if found == Wrapped(expected) {
      forall e <- expected
        ensures Some(e) in names
      {
        assert Some(e) in found;
      }
    }
  }

  lemma SubsetCounts<T>(a: set<T>, b: set<T>)
    requires a <= b
    ensures |a| <= |b| && (|a| == |b| ==> a == b)
  {
    assert b == a + (b - a);
  }

  // ----- What acceptance means -----

  /** The one place that a test case with this name has. */
  ghost predicate IsTheCase(root: Node, name: string, p: Path) {
    && IsCaseAt(root, p) && At(root, p).value.name == Some(name)
    && forall q: Path :: IsCaseAt(root, q) && At(root, q).value.name == Some(name) ==> q == p
  }

  /** A report is accepted exactly when its summary is clean, every expected test has one
      place in the tree and one only, and whatever else is a test case anywhere in the tree is
      one of these, has a name, and passed. */
  lemma AcceptedIsExact(summary: Summary, root: Node, expected: set<string>)
    ensures ValidateXcresult(summary, root, expected).None? <==>
      && IsClean(summary, |expected|)
      && (forall e <- expected :: exists p: Path :: IsTheCase(root, e, p))
      && (forall p: Path :: IsCaseAt(root, p) ==>
            && At(root, p).value.name.Some? && At(root, p).value.name.value in expected
            && At(root, p).value.result == Some(PASSED))
  {
    hide At, IsCase, TestCases, Places;
    var cases, places := TestCases(root), Places(root);
    PlacesAreTheCases(root);
    CasesAreEntries(root);
    var names := Names(cases);
    AcceptedByList(summary, root, expected);
    Pigeonhole(names, expected);
    NobodyFails(cases);
    if ValidateXcresult(summary, root, expected).None? {
      ListMeansPlaces(root, expected);
    }
    if && (forall e <- expected :: exists p: Path :: IsTheCase(root, e, p))
       && (forall p: Path :: IsCaseAt(root, p) ==>
             && At(root, p).value.name.Some? && At(root, p).value.name.value in expected
             && At(root, p).value.result == Some(PASSED)) {
      PlacesMeanList(root, expected);
    }
  }

  lemma CasesAreEntries(root: Node)
    ensures forall c <- TestCases(root) :: c.Entry?
  {
    OnlyCases(root);
  }

  /** Acceptance in terms of the flat list. */
  ghost predicate ListIsRight(root: Node, expected: set<string>) {
    CasesAreEntries(root);
    && NoDuplicates(Names(TestCases(root)))
    && (set n | n in Names(TestCases(root))) == Wrapped(expected)
    && forall c <- TestCases(root) :: c.result == Some(PASSED)
  }

  lemma AcceptedByList(summary: Summary, root: Node, expected: set<string>)
    ensures ValidateXcresult(summary, root, expected).None? <==>
      IsClean(summary, |expected|) && ListIsRight(root, expected)
  {
    hide At, IsCase, TestCases, Places, NotPassed;
    CasesAreEntries(root);
    var cases := TestCases(root);
    var names := Names(cases);
    Pigeonhole(names, expected);
    NobodyFails(cases);
    var found := set n | n in names :: n;
    var missing := set e | e in expected && Some(e) !in found :: e;
    var unexpected := set n | n in found && n.Some? && n.value !in expected :: n.value;
    assert missing == {} <==> forall e <- expected :: Some(e) in names by {
      if forall e <- expected :: Some(e) in names {
        assert forall e :: e !in missing;
      }
      if missing == {} {
        forall e <- expected
          ensures Some(e) in names
        {
          assert e !in missing;
        }
      }
    }
    assert found == (set n | n in names);
    if found == Wrapped(expected) {
      assert forall n :: n !in unexpected;
    }
  }

  lemma {:induction false} NobodyFails(cases: seq<Node>)
    requires forall c <- cases :: c.Entry?
    ensures NotPassed(cases) == [] <==> forall c <- cases :: c.result == Some(PASSED)
  {
    if cases != [] {
      NobodyFails(cases[1..]);
      assert cases == [cases[0]] + cases[1..];
    }
  }

  lemma ListMeansPlaces(root: Node, expected: set<string>)
    requires ListIsRight(root, expected)
    ensures forall e <- expected :: exists p: Path :: IsTheCase(root, e, p)
    ensures forall p: Path :: IsCaseAt(root, p) ==>
      && At(root, p).value.name.Some? && At(root, p).value.name.value in expected
      && At(root, p).value.result == Some(PASSED)
  {
    hide At, IsCase, TestCases, Places;
    PlacesAreTheCases(root);
    CasesAreEntries(root);
    var cases, places := TestCases(root), Places(root);
    var names := Names(cases);
    forall e <- expected
      ensures exists p: Path :: IsTheCase(root, e, p)
    {
      assert Some(e) in (set n | n in names);
      var i :| 0 <= i < |names| && names[i] == Some(e);
      forall q: Path | IsCaseAt(root, q) && At(root, q).value.name == Some(e)
        ensures q == places[i]
      {
        var j :| 0 <= j < |places| && places[j] == q;
        assert names[j] == names[i];
      }
      assert places[i] in places;
      assert IsTheCase(root, e, places[i]);
    }
    forall p: Path | IsCaseAt(root, p)
      ensures
        && At(root, p).value.name.Some? && At(root, p).value.name.value in expected
        && At(root, p).value.result == Some(PASSED)
    {
      var j :| 0 <= j < |places| && places[j] == p;
      assert cases[j] in cases;
      assert names[j] in (set n | n in names);
    }
  }

  lemma PlacesMeanList(root: Node, expected: set<string>)
    requires forall e <- expected :: exists p: Path :: IsTheCase(root, e, p)
    requires forall p: Path :: IsCaseAt(root, p) ==>
      && At(root, p).value.name.Some? && At(root, p).value.name.value in expected
      && At(root, p).value.result == Some(PASSED)
    ensures ListIsRight(root, expected)
  {
    hide At, IsCase, TestCases, Places;
    PlacesAreTheCases(root);
    CasesAreEntries(root);
    var cases, places := TestCases(root), Places(root);
    var names := Names(cases);
    forall i | 0 <= i < |cases|
      ensures cases[i].name.Some? && cases[i].name.value in expected && cases[i].result == Some(PASSED)
      ensures forall j | 0 <= j < |cases| && j != i :: names[j] != names[i]
    {
      assert places[i] in places && IsCaseAt(root, places[i]);
      var p: Path :| IsTheCase(root, cases[i].name.value, p);
      forall j | 0 <= j < |cases| && names[j] == names[i]
        ensures j == i
      {
        assert places[j] in places && IsCaseAt(root, places[j]);
        assert places[j] == p && places[i] == p;
      }
    }
    forall e <- expected
      ensures Some(e) in names
    {
      var p: Path :| IsTheCase(root, e, p);
      var i :| 0 <= i < |places| && places[i] == p;
      assert names[i] == Some(e);
    }
    assert (set n | n in names) == Wrapped(expected);
  }
}
