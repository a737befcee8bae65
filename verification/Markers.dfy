/** Managed markers: the hidden first line that says which manifest record owns a GitHub
    issue, its parser, and the reservation of its token for the renderer alone. */
module Markers {
  import opened Wrappers
  import opened Text

  const TOKEN := "tam-forge-key"
  const LEAD := "<!-- "
  const OPENING := LEAD + TOKEN + ": "
  const CLOSING := " -->"

  /** What the body of an issue says about its owner. */
  datatype Ownership = Unmanaged | Managed(key: string) | Malformed

  function MarkerLine(key: string): string {
    OPENING + key + CLOSING
  }

  /** The shape `[A-Z][A-Z0-9-]*` a marker can carry. */
  predicate IsMarkerKey(key: string) {
    && key != []
    && 'A' <= key[0] <= 'Z'
    && forall i | 0 <= i < |key| :: 'A' <= key[i] <= 'Z' || IsDigit(key[i]) || key[i] == '-'
  }

  /** The characters `str.splitlines` breaks lines at. */
  predicate IsLineBreak(c: char) {
    c in "\n\r\U{0B}\U{0C}\U{1C}\U{1D}\U{1E}\U{85}\U{2028}\U{2029}"
  }

  function FirstLine(s: string): string {
    if s == [] || IsLineBreak(s[0]) then "" else [s[0]] + FirstLine(s[1..])
  }

  function MatchMarker(line: string): Option<string> {
    var end := |line| - |CLOSING|;
    if && |OPENING| <= end
       && OPENING <= line
       && line[end..] == CLOSING
       && IsMarkerKey(line[|OPENING|..end])
    then Some(line[|OPENING|..end])
    else None
  }

  /** `managed_key_from_issue`: one exact marker on the first line and no other mention of
      the token, or nothing at all; everything between is an error. */
  function OwnerOf(body: string): Ownership {
    if !Contains(Lower(body), TOKEN) then Unmanaged
    else
      match MatchMarker(FirstLine(body))
      case None => Malformed
      case Some(key) => if Count(Lower(body), TOKEN) == 1 then Managed(key) else Malformed
  }

  /** Text that may appear in a manifest: it does not hold the reserved token in any case. */
  predicate Clean(s: string) {
    !Contains(Lower(s), TOKEN)
  }

  /** A character no token holds and lower-casing leaves alone. */
  predicate IsSeparator(c: char) {
    c in " \n`"
  }

  lemma SeparatorStands(c: char)
    requires IsSeparator(c)
    ensures c !in TOKEN && Lower([c]) == [c]
  {
  }

  lemma CleanAcross(a: string, c: char, b: string)
    requires Clean(a) && Clean(b) && IsSeparator(c)
    ensures Clean(a + [c] + b)
  {
    hide Contains, Lower, IsSeparator;
    LowerConcat(a + [c], b);
    LowerConcat(a, [c]);
    SeparatorStands(c);
    ContainsAcross(Lower(a), c, Lower(b), TOKEN);
  }

  /** The token has hyphens, so text without hyphens is free of it. */
  lemma CleanWithoutHyphen(s: string)
    requires '-' !in s
    ensures Clean(s)
  {
    LowerKeepsHyphenOut(s);
    ContainsNeeds(Lower(s), TOKEN, 3);
  }

  lemma {:induction false} CleanJoin(parts: seq<string>, sep: string)
    requires sep == "\n" || sep == ", "
    requires forall i | 0 <= i < |parts| :: Clean(parts[i])
    ensures Clean(Join(parts, sep))
  {
    if |parts| == 0 {
      CleanWithoutHyphen("");
    } else if |parts| > 1 {
      var front, last := Join(parts[..|parts| - 1], sep), parts[|parts| - 1];
      CleanJoin(parts[..|parts| - 1], sep);
      if sep == "\n" {
        CleanAcross(front, '\n', last);
        assert Join(parts, sep) == front + ['\n'] + last;
      } else {
        var comma := front + ",";
        LowerConcat(front, ",");
        CommaIsClean(front);
        assert Join(parts, sep) == comma + [' '] + last;
        CleanAcross(comma, ' ', last);
      }
    }
  }

  lemma CommaIsClean(front: string)
    requires Clean(front)
    ensures Clean(front + ",")
  {
    LowerConcat(front, ",");
    assert Lower(",") == ",";
    CleanWithoutHyphen("");
    assert Lower(front) + [','] + Lower("") == Lower(front + ",");
    ContainsAcross(Lower(front), ',', Lower(""), TOKEN);
  }

  // ----- Recognising a rendered body -----

  lemma {:induction false} FirstLineStops(line: string, rest: string)
    requires forall i | 0 <= i < |line| :: !IsLineBreak(line[i])
    ensures FirstLine(line + "\n" + rest) == line
  {
    var s := line + "\n" + rest;
    if line == [] {
      assert s[0] == '\n';
    } else {
      FirstLineStops(line[1..], rest);
      assert s[1..] == line[1..] + "\n" + rest;
    }
  }

  lemma MarkerLineParses(key: string)
    requires IsMarkerKey(key)
    ensures MatchMarker(MarkerLine(key)) == Some(key)
    ensures forall i | 0 <= i < |MarkerLine(key)| :: !IsLineBreak(MarkerLine(key)[i])
  {
    var line := MarkerLine(key);
    assert line[|OPENING|..|line| - |CLOSING|] == key;
    assert line[|line| - |CLOSING|..] == CLOSING;
    forall i | 0 <= i < |line|
      ensures !IsLineBreak(line[i])
    {
      if i < |OPENING| {
        assert line[i] == OPENING[i];
      } else if i < |OPENING| + |key| {
        assert line[i] == key[i - |OPENING|];
      } else {
        assert line[i] == CLOSING[i - |OPENING| - |key|];
      }
    }
  }

  /** A body that opens with a marker line and is clean otherwise is owned by that key. */
  lemma MarkedBodyIsOwned(key: string, rest: string)
    requires IsMarkerKey(key) && Clean(key) && Clean(rest)
    ensures OwnerOf(MarkerLine(key) + "\n" + rest) == Managed(key)
  {
    hide Clean, Lower, Count, FirstLine, MatchMarker, IsMarkerKey, IsLineBreak, Contains;
    var tail := ": " + key + CLOSING + "\n" + rest;
    MarkerLineParses(key);
    FirstLineStops(MarkerLine(key), rest);
    TailIsClean(key, rest, tail);
    LowerOfOpening();
    LowerOfTail(LEAD, TOKEN, tail);
    CountOneAhead(LEAD, TOKEN, Lower(tail));
    Reassociate(LEAD, TOKEN, ": ", key, CLOSING, "\n", rest);
  }

  lemma Reassociate(a: string, b: string, c: string, d: string, e: string, f: string, g: string)
    ensures (a + b + c) + d + e + f + g == a + (b + (c + d + e + f + g))
  {
  }

  lemma LowerOfOpening()
    ensures Lower(LEAD) == LEAD && Lower(TOKEN) == TOKEN
  {
    LowerIsIdentity(LEAD);
    LowerIsIdentity(TOKEN);
  }

  lemma TailIsClean(key: string, rest: string, tail: string)
    requires Clean(key) && Clean(rest) && tail == ": " + key + CLOSING + "\n" + rest
    ensures Clean(tail)
  {
    CleanWithoutHyphen(":");
    CleanAcross(":", ' ', key);
    ShortIsClean("-->");
    CleanAcross(":" + [' '] + key, ' ', "-->");
    CleanAcross(":" + [' '] + key + [' '] + "-->", '\n', rest);
    assert tail == ":" + [' '] + key + [' '] + "-->" + ['\n'] + rest;
  }

  /** Text shorter than the token has no room for it. */
  lemma ShortIsClean(s: string)
    requires |s| < |TOKEN| && '\U{0130}' !in s
    ensures Clean(s)
  {
    LowerKeepsLength(s);
  }

  /** The body opens with this line, up to a line break or its end. */
  predicate OpensWith(body: string, line: string) {
    line <= body && (|line| < |body| ==> IsLineBreak(body[|line|]))
  }

  lemma {:induction false} FirstLineIsExact(body: string, line: string)
    requires forall i | 0 <= i < |line| :: !IsLineBreak(line[i])
    ensures FirstLine(body) == line <==> OpensWith(body, line)
  {
    if body != [] && line != [] {
      FirstLineIsExact(body[1..], line[1..]);
      assert body == [body[0]] + body[1..] && line == [line[0]] + line[1..];
    }
  }

  /** The token stands in one place and no other. */
  predicate HoldsOnce(text: string) {
    exists i | 0 <= i <= |text| - |TOKEN| ::
      OccursAt(text, TOKEN, i) && forall j | 0 <= j <= |text| - |TOKEN| :: OccursAt(text, TOKEN, j) ==> j == i
  }

  lemma TokenNeverOverlaps()
    ensures NeverOverlaps(TOKEN)
  {
    forall d | 0 < d < |TOKEN|
      ensures TOKEN[d..] != TOKEN[..|TOKEN| - d]
    {
      assert TOKEN[d..][|TOKEN| - d - 1] == 'y';
    }
  }

  lemma CountedOnce(text: string)
    ensures Count(text, TOKEN) == 1 <==> HoldsOnce(text)
  {
    TokenNeverOverlaps();
    CountIsPositions(text, TOKEN);
    hide OccursAt, Count;
    var places := Positions(text, TOKEN);
    if |places| == 1 {
      var i := OnlyElement(places);
      assert OccursAt(text, TOKEN, i);
      assert forall j: nat | j <= |text| - |TOKEN| && OccursAt(text, TOKEN, j) :: j in places;
    }
    if HoldsOnce(text) {
      var i: int :| 0 <= i <= |text| - |TOKEN| && OccursAt(text, TOKEN, i)
        && forall j | 0 <= j <= |text| - |TOKEN| :: OccursAt(text, TOKEN, j) ==> j == i;
      assert places == {i};
    }
  }

  lemma OnlyElement(s: set<nat>) returns (x: nat)
    requires |s| == 1
    ensures s == {x}
  {
    x :| x in s;
    assert |s - {x}| == 0;
    assert s == (s - {x}) + {x};
  }

  /** The parser owns up to nothing else: a recognised body opens with exactly that marker
      line and holds the token in no other place, in any letter case; a body without the token
      is nobody's; the rest is refused. */
  lemma OwnerIsExact(body: string)
    ensures forall key :: OwnerOf(body) == Managed(key) <==>
      OpensWith(body, "<!-- tam-forge-key: " + key + " -->") && IsMarkerKey(key) && HoldsOnce(Lower(body))
    ensures OwnerOf(body).Unmanaged? <==> Clean(body)
  {
    hide Lower, Count, FirstLine, IsMarkerKey, HoldsOnce, OwnerOf, OpensWith, MatchMarker, Clean;
    CountedOnce(Lower(body));
    OwnedByCount(body, "");
    forall key
      ensures OwnerOf(body) == Managed(key) <==>
        OpensWith(body, "<!-- tam-forge-key: " + key + " -->") && IsMarkerKey(key) && HoldsOnce(Lower(body))
    {
      OwnedByCount(body, key);
      assert MarkerLine(key) == "<!-- tam-forge-key: " + key + " -->";
      if IsMarkerKey(key) {
        MarkerLineParses(key);
        FirstLineIsExact(body, MarkerLine(key));
      }
    }
  }

  lemma OwnedByCount(body: string, key: string)
    ensures OwnerOf(body) == Managed(key) <==>
      FirstLine(body) == MarkerLine(key) && IsMarkerKey(key) && Count(Lower(body), TOKEN) == 1
    ensures OwnerOf(body).Unmanaged? <==> Clean(body)
  {
    var line := FirstLine(body);
    if IsMarkerKey(key) {
      MarkerLineParses(key);
    }
    if MatchMarker(line).Some? {
      var end := |line| - |CLOSING|;
      assert line == line[..|OPENING|] + line[|OPENING|..end] + line[end..];
      assert line == MarkerLine(MatchMarker(line).value);
    }
    if Clean(body) {
      CountZero(Lower(body), TOKEN);
    }
  }
}
