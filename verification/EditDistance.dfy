/** Word error rate: a filled distance table, a greedy walk back through it, and the proof
    that together they find a cheapest way to edit the reference into the hypothesis. */
module EditDistance {

  // ----- Edit scripts -----

  /** One edit; a script lists them in the order of the words. */
  datatype Edit = Keep | Substitute(word: string) | Delete | Insert(word: string)

  /** The script edits exactly this reference into exactly this hypothesis. */
  ghost predicate Turns(script: seq<Edit>, reference: seq<string>, hypothesis: seq<string>)
    decreases |script|
  {
    if script == [] then reference == [] && hypothesis == []
    else
      var front, last := script[..|script| - 1], script[|script| - 1];
      match last
      case Keep =>
        && reference != [] && hypothesis != []
        && reference[|reference| - 1] == hypothesis[|hypothesis| - 1]
        && Turns(front, reference[..|reference| - 1], hypothesis[..|hypothesis| - 1])
      case Substitute(word) =>
        && reference != [] && hypothesis != []
        && hypothesis[|hypothesis| - 1] == word
        && Turns(front, reference[..|reference| - 1], hypothesis[..|hypothesis| - 1])
      case Delete =>
        && reference != []
        && Turns(front, reference[..|reference| - 1], hypothesis)
      case Insert(word) =>
        && hypothesis != []
        && hypothesis[|hypothesis| - 1] == word
        && Turns(front, reference, hypothesis[..|hypothesis| - 1])
  }

  /** How often each kind of edit occurs. */
  datatype Counts = Counts(kept: nat, substitutions: nat, deletions: nat, insertions: nat) {
    function Cost(): nat {
      substitutions + deletions + insertions
    }
  }

  function CountOne(c: Counts, e: Edit): Counts {
    match e
    case Keep => c.(kept := c.kept + 1)
    case Substitute(_) => c.(substitutions := c.substitutions + 1)
    case Delete => c.(deletions := c.deletions + 1)
    case Insert(_) => c.(insertions := c.insertions + 1)
  }

  function CountEdits(script: seq<Edit>): Counts {
    if script == [] then Counts(0, 0, 0, 0)
    else CountOne(CountEdits(script[..|script| - 1]), script[|script| - 1])
  }

  /** The least cost of any script that turns the one list into the other. */
  ghost predicate IsDistance(reference: seq<string>, hypothesis: seq<string>, d: nat) {
    && (exists script :: Turns(script, reference, hypothesis) && CountEdits(script).Cost() == d)
    && (forall script | Turns(script, reference, hypothesis) :: d <= CountEdits(script).Cost())
  }

  // ----- The table, cell by cell -----

  function Min(a: int, b: int): int {
    if a <= b then a else b
  }

  /** The value the table holds for the first `i` reference and `j` hypothesis words. Equal
      words take the diagonal without looking at the other two cells. */
  function Cell(r: seq<string>, h: seq<string>, i: nat, j: nat): nat
    requires i <= |r| && j <= |h|
    decreases i + j
  {
    if i == 0 then j
    else if j == 0 then i
    else if r[i - 1] == h[j - 1] then Cell(r, h, i - 1, j - 1)
    else 1 + Min(Cell(r, h, i - 1, j - 1), Min(Cell(r, h, i - 1, j), Cell(r, h, i, j - 1)))
  }

  lemma CellUnfolds(r: seq<string>, h: seq<string>, i: nat, j: nat)
    requires i <= |r| && j <= |h|
    ensures i == 0 ==> Cell(r, h, i, j) == j
    ensures j == 0 ==> Cell(r, h, i, j) == i
    ensures i > 0 && j > 0 ==>
      Cell(r, h, i, j) ==
        if r[i - 1] == h[j - 1] then Cell(r, h, i - 1, j - 1)
        else 1 + Min(Cell(r, h, i - 1, j - 1), Min(Cell(r, h, i - 1, j), Cell(r, h, i, j - 1)))
  {
  }

  /** Cells beside each other differ by at most one: this is what justifies the diagonal. */
  lemma {:induction false} NeighboursAreClose(r: seq<string>, h: seq<string>, i: nat, j: nat)
    requires i <= |r| && j <= |h|
    ensures i > 0 ==> Cell(r, h, i - 1, j) - 1 <= Cell(r, h, i, j) <= Cell(r, h, i - 1, j) + 1
    ensures j > 0 ==> Cell(r, h, i, j - 1) - 1 <= Cell(r, h, i, j) <= Cell(r, h, i, j - 1) + 1
    ensures i > 0 && j > 0 ==> Cell(r, h, i - 1, j - 1) <= Cell(r, h, i, j) <= Cell(r, h, i - 1, j - 1) + 1
    decreases i + j
  {
    hide Cell;
    CellUnfolds(r, h, i, j);
    if i > 0 {
      CellUnfolds(r, h, i - 1, j);
      NeighboursAreClose(r, h, i - 1, j);
    }
    if j > 0 {
      CellUnfolds(r, h, i, j - 1);
      NeighboursAreClose(r, h, i, j - 1);
    }
    if i > 0 && j > 0 {
      NeighboursAreClose(r, h, i - 1, j - 1);
    }
  }

  // ----- Optimality -----

  lemma {:induction false} NoScriptIsCheaper(script: seq<Edit>, r: seq<string>, h: seq<string>, i: nat, j: nat)
    requires i <= |r| && j <= |h| && Turns(script, r[..i], h[..j])
    ensures Cell(r, h, i, j) <= CountEdits(script).Cost()
    decreases |script|
  {
    if script != [] {
      NeighboursAreClose(r, h, i, j);
      var front, last := script[..|script| - 1], script[|script| - 1];
      if last.Keep? || last.Substitute? {
        assert r[..i][..i - 1] == r[..i - 1] && h[..j][..j - 1] == h[..j - 1];
        NoScriptIsCheaper(front, r, h, i - 1, j - 1);
      } else if last.Delete? {
        assert r[..i][..i - 1] == r[..i - 1];
        NoScriptIsCheaper(front, r, h, i - 1, j);
      } else {
        assert h[..j][..j - 1] == h[..j - 1];
        NoScriptIsCheaper(front, r, h, i, j - 1);
      }
    }
  }

  // ----- The walk back -----

  datatype Step = Match | Replaced | Deleted | Inserted

  /** The branch the walk takes in a cell; each one looks at the table only. */
  function Branch(r: seq<string>, h: seq<string>, i: nat, j: nat): Step
    requires i <= |r| && j <= |h| && (i > 0 || j > 0)
  {
    if i > 0 && j > 0 && r[i - 1] == h[j - 1] && Cell(r, h, i, j) == Cell(r, h, i - 1, j - 1) then Match
    else if i > 0 && j > 0 && Cell(r, h, i, j) == Cell(r, h, i - 1, j - 1) + 1 then Replaced
    else if i > 0 && Cell(r, h, i, j) == Cell(r, h, i - 1, j) + 1 then Deleted
    else Inserted
  }

  /** The last branch is only taken with a hypothesis word left, and for a real insertion. */
  lemma LastBranchInserts(r: seq<string>, h: seq<string>, i: nat, j: nat)
    requires i <= |r| && j <= |h| && (i > 0 || j > 0)
    ensures Branch(r, h, i, j).Inserted? ==> j > 0 && Cell(r, h, i, j) == Cell(r, h, i, j - 1) + 1
  {
    if i > 0 && j > 0 && r[i - 1] != h[j - 1] {
      NeighboursAreClose(r, h, i, j);
    }
  }

  function BackI(step: Step, i: nat): int {
    if step.Inserted? then i else i - 1
  }

  function BackJ(step: Step, j: nat): int {
    if step.Deleted? then j else j - 1
  }

  function EditOf(step: Step, h: seq<string>, j: nat): Edit
    requires j <= |h| && (step.Replaced? || step.Inserted? ==> j > 0)
  {
    match step
    case Match => Keep
    case Replaced => Substitute(h[j - 1])
    case Deleted => Delete
    case Inserted => Insert(h[j - 1])
  }

  /** The alignment the walk finds. */
  function Alignment(r: seq<string>, h: seq<string>, i: nat, j: nat): seq<Edit>
    requires i <= |r| && j <= |h|
    decreases i + j
  {
    if i == 0 && j == 0 then []
    else
      LastBranchInserts(r, h, i, j);
      var step := Branch(r, h, i, j);
      Alignment(r, h, BackI(step, i), BackJ(step, j)) + [EditOf(step, h, j)]
  }

  function Score(r: seq<string>, h: seq<string>): Counts {
    CountEdits(Alignment(r, h, |r|, |h|))
  }

  /** The alignment is real, costs what its corner cell says, and accounts for every word. */
  lemma {:induction false} AlignmentFits(r: seq<string>, h: seq<string>, i: nat, j: nat)
    requires i <= |r| && j <= |h|
    ensures var script := Alignment(r, h, i, j);
      var c := CountEdits(script);
      && Turns(script, r[..i], h[..j])
      && c.Cost() == Cell(r, h, i, j)
      && c.kept + c.substitutions + c.deletions == i
      && c.kept + c.substitutions + c.insertions == j
    decreases i + j
  {
    if i > 0 || j > 0 {
      hide Cell, CountEdits;
      LastBranchInserts(r, h, i, j);
      var step := Branch(r, h, i, j);
      var a, b := BackI(step, i), BackJ(step, j);
      AlignmentFits(r, h, a, b);
      LastEdit(r, h, i, j);
      ExtendTurns(Alignment(r, h, a, b), step, r, h, i, j);
      assert Alignment(r, h, i, j) == Alignment(r, h, a, b) + [EditOf(step, h, j)];
      StepCost(r, h, i, j);
    }
  }

  lemma StepCost(r: seq<string>, h: seq<string>, i: nat, j: nat)
    requires i <= |r| && j <= |h| && (i > 0 || j > 0)
    requires Branch(r, h, i, j).Inserted? ==> j > 0
    ensures var step := Branch(r, h, i, j);
      Cell(r, h, i, j) == Cell(r, h, BackI(step, i), BackJ(step, j)) + if step.Match? then 0 else 1
  {
    LastBranchInserts(r, h, i, j);
  }

  lemma ExtendTurns(front: seq<Edit>, step: Step, r: seq<string>, h: seq<string>, i: nat, j: nat)
    requires i <= |r| && j <= |h|
    requires !step.Inserted? ==> i > 0
    requires !step.Deleted? ==> j > 0
    requires step.Match? ==> r[i - 1] == h[j - 1]
    requires Turns(front, r[..BackI(step, i)], h[..BackJ(step, j)])
    ensures Turns(front + [EditOf(step, h, j)], r[..i], h[..j])
  {
    var script := front + [EditOf(step, h, j)];
    assert script[..|script| - 1] == front;
    assert i > 0 ==> r[..i][..i - 1] == r[..i - 1];
    assert j > 0 ==> h[..j][..j - 1] == h[..j - 1];
  }

  /** The corner cell is the edit distance, over every edit script there is. */
  lemma CornerIsDistance(r: seq<string>, h: seq<string>)
    ensures IsDistance(r, h, Cell(r, h, |r|, |h|))
  {
    hide Cell, IsDistance;
    assert r[..|r|] == r && h[..|h|] == h;
    CellIsDistance(r, h, |r|, |h|);
  }

  /** So is every other cell, for the words it stands for. */
  lemma CellIsDistance(r: seq<string>, h: seq<string>, i: nat, j: nat)
    requires i <= |r| && j <= |h|
    ensures IsDistance(r[..i], h[..j], Cell(r, h, i, j))
  {
    AlignmentFits(r, h, i, j);
    forall script | Turns(script, r[..i], h[..j])
      ensures Cell(r, h, i, j) <= CountEdits(script).Cost()
    {
      NoScriptIsCheaper(script, r, h, i, j);
    }
  }

  /** A score is the tally of a cheapest alignment; insertions less deletions is the difference
      in length, and only equal lists score nothing. */
  lemma ScoreIsOptimal(r: seq<string>, h: seq<string>)
    ensures var c := Score(r, h);
      && (exists script :: Turns(script, r, h) && CountEdits(script) == c)
      && IsDistance(r, h, c.Cost())
      && c.insertions - c.deletions == |h| - |r|
      && c.kept + c.substitutions + c.deletions == |r|
      && (c.Cost() == 0 <==> r == h)
  {
    AlignmentFits(r, h, |r|, |h|);
    CornerIsDistance(r, h);
    assert r[..|r|] == r && h[..|h|] == h;
    ZeroMeansEqual(r, h, |r|, |h|);
  }

  lemma {:induction false} ZeroMeansEqual(r: seq<string>, h: seq<string>, i: nat, j: nat)
    requires i <= |r| && j <= |h|
    ensures Cell(r, h, i, j) == 0 <==> r[..i] == h[..j]
    decreases i + j
  {
    if i > 0 && j > 0 {
      ZeroMeansEqual(r, h, i - 1, j - 1);
      assert r[..i] == r[..i - 1] + [r[i - 1]];
      assert h[..j] == h[..j - 1] + [h[j - 1]];
    }
  }

  // ----- Which cheapest script -----

  function Rank(e: Edit): nat {
    match e
    case Keep => 0
    case Substitute(_) => 1
    case Delete => 2
    case Insert(_) => 3
  }

  /** Read from the last edit backwards, the two are the same, or where they first differ `a`
      has the edit of lower rank: keep, substitute, delete, insert. */
  ghost predicate NotBehind(a: seq<Edit>, b: seq<Edit>)
    decreases |a|
  {
    a == b
    || (&& a != [] && b != []
        && var x, y := a[|a| - 1], b[|b| - 1];
           Rank(x) < Rank(y) || (x == y && NotBehind(a[..|a| - 1], b[..|b| - 1])))
  }

  /** A cheapest script, and of the cheapest ones the first in that order. */
  ghost predicate IsFirstCheapest(script: seq<Edit>, r: seq<string>, h: seq<string>) {
    && Turns(script, r, h)
    && forall other | Turns(other, r, h) ::
         && CountEdits(script).Cost() <= CountEdits(other).Cost()
         && (CountEdits(script).Cost() == CountEdits(other).Cost() ==> NotBehind(script, other))
  }

  /** There is at most one such script, so its counts are determined. */
  lemma FirstCheapestIsUnique(a: seq<Edit>, b: seq<Edit>, r: seq<string>, h: seq<string>)
    requires IsFirstCheapest(a, r, h) && IsFirstCheapest(b, r, h)
    ensures a == b
  {
    NotBehindBoth(a, b);
  }

  lemma {:induction false} NotBehindBoth(a: seq<Edit>, b: seq<Edit>)
    requires NotBehind(a, b) && NotBehind(b, a)
    ensures a == b
    decreases |a|
  {
    if a != [] && b != [] {
      var c, d := a[..|a| - 1], b[..|b| - 1];
      assert a == c + [a[|a| - 1]] && b == d + [b[|b| - 1]];
      if NotBehind(c, d) && NotBehind(d, c) {
        NotBehindBoth(c, d);
      }
    }
  }

  /** The walk finds the first of the cheapest scripts. */
  lemma {:induction false} AlignmentIsFirst(other: seq<Edit>, r: seq<string>, h: seq<string>, i: nat, j: nat)
    requires i <= |r| && j <= |h|
    requires Turns(other, r[..i], h[..j]) && CountEdits(other).Cost() == Cell(r, h, i, j)
    ensures NotBehind(Alignment(r, h, i, j), other)
    decreases |other|
  {
    if other != [] {
      var front, last := other[..|other| - 1], other[|other| - 1];
      LastBranchInserts(r, h, i, j);
      var step := Branch(r, h, i, j);
      var mine := EditOf(step, h, j);
      var script := Alignment(r, h, i, j);
      assert script == Alignment(r, h, BackI(step, i), BackJ(step, j)) + [mine];
      LastRanksLower(other, r, h, i, j);
      if Rank(mine) == Rank(last) {
        FrontIsCheapest(other, r, h, i, j);
        AlignmentIsFirst(front, r, h, BackI(step, i), BackJ(step, j));
        assert script[..|script| - 1] == Alignment(r, h, BackI(step, i), BackJ(step, j));
      }
    }
  }

  /** The front of a cheapest script is cheapest for what it turns into what. */
  lemma FrontIsCheapest(other: seq<Edit>, r: seq<string>, h: seq<string>, i: nat, j: nat)
    requires i <= |r| && j <= |h| && other != [] && (i > 0 || j > 0)
    requires Turns(other, r[..i], h[..j]) && CountEdits(other).Cost() == Cell(r, h, i, j)
    requires Branch(r, h, i, j).Inserted? ==> j > 0
    requires Rank(other[|other| - 1]) == Rank(EditOf(Branch(r, h, i, j), h, j))
    ensures var step, front := Branch(r, h, i, j), other[..|other| - 1];
      && other[|other| - 1] == EditOf(step, h, j)
      && Turns(front, r[..BackI(step, i)], h[..BackJ(step, j)])
      && CountEdits(front).Cost() == Cell(r, h, BackI(step, i), BackJ(step, j))
  {
    StepCost(r, h, i, j);
    hide Cell, Branch;
    assert i > 0 ==> r[..i][..i - 1] == r[..i - 1];
    assert j > 0 ==> h[..j][..j - 1] == h[..j - 1];
  }

  /** Where the walk has a choice, no cheapest script ends in an edit of lower rank. */
  lemma LastRanksLower(other: seq<Edit>, r: seq<string>, h: seq<string>, i: nat, j: nat)
    requires i <= |r| && j <= |h| && other != [] && (i > 0 || j > 0)
    requires Turns(other, r[..i], h[..j]) && CountEdits(other).Cost() == Cell(r, h, i, j)
    requires Branch(r, h, i, j).Inserted? ==> j > 0
    ensures Rank(EditOf(Branch(r, h, i, j), h, j)) <= Rank(other[|other| - 1])
  {
    hide Cell, Branch;
    var front, last := other[..|other| - 1], other[|other| - 1];
    assert i > 0 ==> r[..i][..i - 1] == r[..i - 1];
    assert j > 0 ==> h[..j][..j - 1] == h[..j - 1];
    if last.Keep? {
      KeepIsFree(r, h, i, j);
    } else if last.Substitute? {
      NoScriptIsCheaper(front, r, h, i - 1, j - 1);
      ReplacedOrBefore(r, h, i, j);
    } else if last.Delete? {
      NoScriptIsCheaper(front, r, h, i - 1, j);
      DeletedOrBefore(r, h, i, j);
    }
  }

  lemma ReplacedOrBefore(r: seq<string>, h: seq<string>, i: nat, j: nat)
    requires 0 < i <= |r| && 0 < j <= |h| && Cell(r, h, i - 1, j - 1) < Cell(r, h, i, j)
    ensures Branch(r, h, i, j).Match? || Branch(r, h, i, j).Replaced?
  {
    NeighboursAreClose(r, h, i, j);
    hide Cell;
  }

  lemma DeletedOrBefore(r: seq<string>, h: seq<string>, i: nat, j: nat)
    requires 0 < i <= |r| && j <= |h| && Cell(r, h, i - 1, j) < Cell(r, h, i, j)
    ensures !Branch(r, h, i, j).Inserted?
  {
    NeighboursAreClose(r, h, i, j);
    hide Cell;
  }

  lemma KeepIsFree(r: seq<string>, h: seq<string>, i: nat, j: nat)
    requires 0 < i <= |r| && 0 < j <= |h| && r[i - 1] == h[j - 1]
    ensures Branch(r, h, i, j).Match?
  {
  }

  /** What is scored is the first of the cheapest scripts there are. */
  lemma ScoreIsOfTheFirst(r: seq<string>, h: seq<string>)
    ensures exists script :: IsFirstCheapest(script, r, h) && CountEdits(script) == Score(r, h)
  {
    var script := Alignment(r, h, |r|, |h|);
    AlignmentFits(r, h, |r|, |h|);
    assert r[..|r|] == r && h[..|h|] == h;
    forall other | Turns(other, r, h)
      ensures CountEdits(script).Cost() <= CountEdits(other).Cost()
      ensures CountEdits(script).Cost() == CountEdits(other).Cost() ==> NotBehind(script, other)
    {
      NoScriptIsCheaper(other, r, h, |r|, |h|);
      if CountEdits(script).Cost() == CountEdits(other).Cost() {
        AlignmentIsFirst(other, r, h, |r|, |h|);
      }
    }
    assert IsFirstCheapest(script, r, h);
  }

  // ----- The method -----

  datatype Rating = EmptyReference | Rating(rate: real, substitutions: nat, deletions: nat, insertions: nat)

  /** The counts are those of the first of the cheapest edit scripts. */
  ghost predicate TalliesFirst(substitutions: nat, deletions: nat, insertions: nat, r: seq<string>, h: seq<string>) {
    exists script :: IsFirstCheapest(script, r, h) &&
      var c := CountEdits(script);
      c.substitutions == substitutions && c.deletions == deletions && c.insertions == insertions
  }

  /** `word_error_rate`. */
  method WordErrorRate(reference: seq<string>, hypothesis: seq<string>) returns (rating: Rating)
    ensures rating.EmptyReference? <==> reference == []
    ensures reference != [] ==>
      && TalliesFirst(rating.substitutions, rating.deletions, rating.insertions, reference, hypothesis)
      && rating.rate
           == (rating.substitutions + rating.deletions + rating.insertions) as real / |reference| as real
    ensures reference != [] ==>
      var c := Score(reference, hypothesis);
      rating.substitutions == c.substitutions && rating.deletions == c.deletions && rating.insertions == c.insertions
  {
    hide Score, TalliesFirst;
    if reference == [] {
      return EmptyReference;
    }
    var distance := FillTable(reference, hypothesis);
    var substitutions, deletions, insertions := WalkBack(reference, hypothesis, distance);
    rating := Rating((substitutions + deletions + insertions) as real / |reference| as real,
                     substitutions, deletions, insertions);
  }

  ghost predicate HasBorders(distance: array2<nat>)
    reads distance
  {
    && distance.Length0 > 0 && distance.Length1 > 0
    && (forall i | 0 <= i < distance.Length0 :: distance[i, 0] == i)
    && (forall j | 0 <= j < distance.Length1 :: distance[0, j] == j)
  }

  ghost predicate HasRows(distance: array2<nat>, r: seq<string>, h: seq<string>, rows: nat)
    reads distance
  {
    && distance.Length0 == |r| + 1 && distance.Length1 == |h| + 1 && rows <= distance.Length0
    && forall i, j | 0 <= i < rows && 0 <= j < distance.Length1 :: distance[i, j] == Cell(r, h, i, j)
  }

  method FillTable(reference: seq<string>, hypothesis: seq<string>) returns (distance: array2<nat>)
    ensures fresh(distance)
    ensures HasRows(distance, reference, hypothesis, |reference| + 1)
  {
    var rows, cols := |reference| + 1, |hypothesis| + 1;
    distance := new nat[rows, cols]((i, j) => 0);
    for i := 0 to rows
      invariant forall k | 0 <= k < i :: distance[k, 0] == k
    {
      distance[i, 0] := i;
    }
    for j := 0 to cols
      invariant forall k | 1 <= k < rows :: distance[k, 0] == k
      invariant forall k | 0 <= k < j :: distance[0, k] == k
    {
      distance[0, j] := j;
    }
    for i := 1 to rows
      invariant HasBorders(distance) && HasRows(distance, reference, hypothesis, i)
    {
      FillRow(reference, hypothesis, distance, i);
    }
  }

  /** The inner loop: one row, from the row above and from left to right. */
  method FillRow(reference: seq<string>, hypothesis: seq<string>, distance: array2<nat>, i: nat)
    requires 1 <= i <= |reference|
    requires HasBorders(distance) && HasRows(distance, reference, hypothesis, i)
    modifies distance
    ensures HasBorders(distance) && HasRows(distance, reference, hypothesis, i + 1)
  {
    hide Cell;
    CellAt(reference, hypothesis, i, 0);
    for j := 1 to |hypothesis| + 1
      invariant HasBorders(distance) && HasRows(distance, reference, hypothesis, i)
      invariant forall b | 0 <= b < j :: distance[i, b] == Cell(reference, hypothesis, i, b)
    {
      CellAt(reference, hypothesis, i, j);
      if reference[i - 1] == hypothesis[j - 1] {
        distance[i, j] := distance[i - 1, j - 1];
      } else {
        distance[i, j] := 1 + Min(distance[i - 1, j - 1], Min(distance[i - 1, j], distance[i, j - 1]));
      }
    }
  }

  lemma CellAt(r: seq<string>, h: seq<string>, i: nat, j: nat)
    requires 1 <= i <= |r| && j <= |h|
    ensures j == 0 ==> Cell(r, h, i, j) == i
    ensures j > 0 && r[i - 1] == h[j - 1] ==> Cell(r, h, i, j) == Cell(r, h, i - 1, j - 1)
    ensures j > 0 && r[i - 1] != h[j - 1] ==>
      Cell(r, h, i, j)
        == 1 + Min(Cell(r, h, i - 1, j - 1), Min(Cell(r, h, i - 1, j), Cell(r, h, i, j - 1)))
  {
  }

  /** The walk from the corner to the origin, reading the table and never leaving it. */
  method WalkBack(reference: seq<string>, hypothesis: seq<string>, distance: array2<nat>)
    returns (substitutions: nat, deletions: nat, insertions: nat)
    requires HasRows(distance, reference, hypothesis, |reference| + 1)
    ensures TalliesFirst(substitutions, deletions, insertions, reference, hypothesis)
    ensures var c := Score(reference, hypothesis);
      substitutions == c.substitutions && deletions == c.deletions && insertions == c.insertions
  {
    hide Cell, Alignment, CountEdits, IsFirstCheapest;
    ScoreIsOfTheFirst(reference, hypothesis);
    substitutions, deletions, insertions := 0, 0, 0;
    var i, j := |reference|, |hypothesis|;
    ghost var total := Score(reference, hypothesis);
    while i > 0 || j > 0
      invariant 0 <= i <= |reference| && 0 <= j <= |hypothesis|
      invariant var rest := CountEdits(Alignment(reference, hypothesis, i, j));
        && substitutions + rest.substitutions == total.substitutions
        && deletions + rest.deletions == total.deletions
        && insertions + rest.insertions == total.insertions
      decreases i + j
    {
      LastBranchInserts(reference, hypothesis, i, j);
      LastEdit(reference, hypothesis, i, j);
      if i > 0 && j > 0 && reference[i - 1] == hypothesis[j - 1] && distance[i, j] == distance[i - 1, j - 1] {
        i, j := i - 1, j - 1;
      } else if i > 0 && j > 0 && distance[i, j] == distance[i - 1, j - 1] + 1 {
        substitutions := substitutions + 1;
        i, j := i - 1, j - 1;
      } else if i > 0 && distance[i, j] == distance[i - 1, j] + 1 {
        deletions := deletions + 1;
        i := i - 1;
      } else {
        insertions := insertions + 1;
        j := j - 1;
      }
    }
    NothingLeft(reference, hypothesis);
  }

  lemma NothingLeft(r: seq<string>, h: seq<string>)
    ensures CountEdits(Alignment(r, h, 0, 0)) == Counts(0, 0, 0, 0)
  {
  }

  lemma LastEdit(r: seq<string>, h: seq<string>, i: nat, j: nat)
    requires i <= |r| && j <= |h| && (i > 0 || j > 0)
    requires Branch(r, h, i, j).Inserted? ==> j > 0
    ensures var step := Branch(r, h, i, j);
      CountEdits(Alignment(r, h, i, j))
        == CountOne(CountEdits(Alignment(r, h, BackI(step, i), BackJ(step, j))), EditOf(step, h, j))
  {
    var step := Branch(r, h, i, j);
    var front := Alignment(r, h, BackI(step, i), BackJ(step, j));
    assert (front + [EditOf(step, h, j)])[..|front|] == front;
  }
}
