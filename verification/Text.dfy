/** Strings as the Python programs use them: lower-casing, substring search and counting,
    decimal rendering, joining and splitting. */
module Text {

  /** `str.lower()` of one character. Besides the ASCII letters, only the Kelvin sign and
      the dotted capital I lower to text that holds an ASCII character; every other
      character is left as it is, because nothing here looks at it. */
  function LowerChar(c: char): (r: string)
  {
    if 'A' <= c <= 'Z' then [(c as int + 32) as char]
    else if c == '\U{212A}' then "k"
    else if c == '\U{0130}' then "i\U{0307}"
    else [c]
  }

  function Lower(s: string): string {
    if s == [] then [] else LowerChar(s[0]) + Lower(s[1..])
  }

  function UpperChar(c: char): char {
    if 'a' <= c <= 'z' then (c as int - 32) as char else c
  }

  /** `str.upper()` of text whose letters are ASCII, as colours are. */
  function Upper(s: string): string {
    seq(|s|, i requires 0 <= i < |s| => UpperChar(s[i]))
  }

  /** Upper-case hexadecimal digits, any number of them. */
  predicate IsUpperHex(s: string) {
    forall i | 0 <= i < |s| :: IsDigit(s[i]) || 'A' <= s[i] <= 'F'
  }

  lemma {:induction false} UpperUndoesLower(s: string)
    requires IsUpperHex(s)
    ensures Upper(Lower(s)) == s
  {
    if s != [] {
      UpperUndoesLower(s[1..]);
      assert Upper(Lower(s)) == [UpperChar(LowerChar(s[0])[0])] + Upper(Lower(s[1..]));
    }
  }

  lemma {:induction false} LowerConcat(a: string, b: string)
    ensures Lower(a + b) == Lower(a) + Lower(b)
  {
    hide LowerChar;
    if a == [] {
      assert a + b == b;
    } else {
      LowerConcat(a[1..], b);
      assert (a + b)[1..] == a[1..] + b;
      var first, others := LowerChar(a[0]), Lower(a[1..]);
      assert first + (others + Lower(b)) == (first + others) + Lower(b);
    }
  }

  lemma {:induction false} LowerIsIdentity(s: string)
    requires forall i | 0 <= i < |s| :: LowerChar(s[i]) == [s[i]]
    ensures Lower(s) == s
  {
    if s != [] {
      LowerIsIdentity(s[1..]);
    }
  }

  /** Only the dotted capital I gets longer. */
  lemma {:induction false} LowerKeepsLength(s: string)
    requires '\U{0130}' !in s
    ensures |Lower(s)| == |s|
  {
    if s != [] {
      LowerKeepsLength(s[1..]);
      assert s[0] in s;
    }
  }

  lemma LowerOfTail(a: string, b: string, c: string)
    requires Lower(a) == a && Lower(b) == b
    ensures Lower(a + (b + c)) == a + (b + Lower(c))
  {
    LowerConcat(a, b + c);
    LowerConcat(b, c);
  }

  /** A hyphen in the lower-cased text was a hyphen in the text. */
  lemma {:induction false} LowerKeepsHyphenOut(s: string)
    requires '-' !in s
    ensures '-' !in Lower(s)
  {
    if s != [] {
      LowerKeepsHyphenOut(s[1..]);
      assert '-' !in LowerChar(s[0]) by {
        assert s[0] in s;
      }
    }
  }

  // ----- Substrings -----

  /** `t in s`. */
  predicate Contains(s: string, t: string) {
    exists i | 0 <= i <= |s| - |t| :: OccursAt(s, t, i)
  }

  predicate OccursAt(s: string, t: string, i: int)
    requires 0 <= i <= |s| - |t|
  {
    s[i..i + |t|] == t
  }

  /** `s.count(t)`: occurrences counted from the left without overlap. */
  function Count(s: string, t: string): nat
    requires t != []
  {
    if |s| < |t| then 0
    else if t <= s then 1 + Count(s[|t|..], t)
    else Count(s[1..], t)
  }

  lemma {:induction false} CountZero(s: string, t: string)
    requires t != [] && !Contains(s, t)
    ensures Count(s, t) == 0
  {
    if |s| >= |t| {
      assert !OccursAt(s, t, 0);
      assert s[0..|t|] == s[..|t|];
      forall i | 0 <= i <= |s[1..]| - |t|
        ensures !OccursAt(s[1..], t, i)
      {
        assert !OccursAt(s, t, i + 1);
        assert s[1..][i..i + |t|] == s[i + 1..i + 1 + |t|];
      }
      CountZero(s[1..], t);
    }
  }

  /** No proper end of `t` is a beginning of it, so occurrences never overlap. */
  predicate NeverOverlaps(t: string) {
    forall d | 0 < d < |t| :: t[d..] != t[..|t| - d]
  }

  /** Where `t` stands in `s`. */
  function Positions(s: string, t: string): set<nat> {
    set i: nat | i <= |s| - |t| && OccursAt(s, t, i)
  }

  lemma {:induction false} CountIsPositions(s: string, t: string)
    requires t != [] && NeverOverlaps(t)
    ensures Count(s, t) == |Positions(s, t)|
  {
    if |s| < |t| {
      assert Positions(s, t) == {};
    } else if t <= s {
      CountIsPositions(s[|t|..], t);
      hide Positions, NeverOverlaps;
      AtTheStart(s, t);
      ShiftedBy(Positions(s[|t|..], t), Positions(s, t) - {0}, |t|);
    } else {
      CountIsPositions(s[1..], t);
      hide Positions, NeverOverlaps;
      NotAtTheStart(s, t);
      ShiftedBy(Positions(s[1..], t), Positions(s, t), 1);
    }
  }

  lemma AtTheStart(s: string, t: string)
    requires t != [] && NeverOverlaps(t) && t <= s
    ensures 0 in Positions(s, t)
    ensures forall i: nat :: i in Positions(s, t) - {0} <==> i >= |t| && i - |t| in Positions(s[|t|..], t)
  {
    assert s[0..|t|] == t;
    forall i: nat
      ensures i in Positions(s, t) - {0} <==> i >= |t| && i - |t| in Positions(s[|t|..], t)
    {
      if |t| <= i <= |s| - |t| {
        assert s[|t|..][i - |t|..i] == s[i..i + |t|];
      } else if 0 < i <= |s| - |t| {
        assert s[i..|t|] == t[i..];
        assert s[i..i + |t|][..|t| - i] == s[i..|t|];
      }
    }
  }

  lemma NotAtTheStart(s: string, t: string)
    requires t != [] && !(t <= s) && |t| <= |s|
    ensures forall i: nat :: i in Positions(s, t) <==> i >= 1 && i - 1 in Positions(s[1..], t)
  {
    assert s[0..|t|] == s[..|t|];
    assert !OccursAt(s, t, 0);
    forall i: nat
      ensures i in Positions(s, t) <==> i >= 1 && i - 1 in Positions(s[1..], t)
    {
      if 1 <= i <= |s| - |t| {
        assert s[1..][i - 1..i - 1 + |t|] == s[i..i + |t|];
      }
    }
  }

  lemma {:induction false} ShiftedBy(a: set<nat>, b: set<nat>, d: nat)
    requires forall i: nat :: i in b <==> i >= d && i - d in a
    ensures |a| == |b|
  {
    if a == {} {
      assert b == {};
    } else {
      var x :| x in a;
      assert x + d in b;
      ShiftedBy(a - {x}, b - {x + d}, d);
    }
  }

  /** Characters that `t` does not start with can be skipped. */
  lemma {:induction false} CountSkip(lead: string, s: string, t: string)
    requires t != [] && t[0] !in lead
    ensures Count(lead + s, t) == Count(s, t)
  {
    if lead == [] {
      assert lead + s == s;
    } else {
      CountSkip(lead[1..], s, t);
      assert (lead + s)[1..] == lead[1..] + s;
      assert (lead + s)[0] == lead[0];
      assert |s| < |t| ==> Count(s, t) == 0;
    }
  }

  lemma CountOneAhead(lead: string, t: string, tail: string)
    requires t != [] && t[0] !in lead && !Contains(tail, t)
    ensures Count(lead + (t + tail), t) == 1
    ensures Contains(lead + (t + tail), t)
  {
    CountSkip(lead, t + tail, t);
    assert t <= t + tail && (t + tail)[|t|..] == tail;
    CountZero(tail, t);
    var s := lead + (t + tail);
    assert s[|lead|..|lead| + |t|] == t;
    assert OccursAt(s, t, |lead|);
  }

  /** No occurrence spans a character that `t` does not hold. */
  lemma ContainsAcross(a: string, c: char, b: string, t: string)
    requires t != [] && c !in t
    requires !Contains(a, t) && !Contains(b, t)
    ensures !Contains(a + [c] + b, t)
  {
    var s := a + [c] + b;
    forall i | 0 <= i <= |s| - |t|
      ensures !OccursAt(s, t, i)
    {
      if i + |t| <= |a| {
        assert !OccursAt(a, t, i);
        assert a[i..i + |t|] == s[i..i + |t|];
      } else if i > |a| {
        assert !OccursAt(b, t, i - |a| - 1);
        assert b[i - |a| - 1..i - |a| - 1 + |t|] == s[i..i + |t|];
      } else {
        assert s[i..i + |t|][|a| - i] == c;
      }
    }
  }

  /** Text without one of the characters of `t` does not hold `t`. */
  lemma ContainsNeeds(s: string, t: string, k: nat)
    requires k < |t| && t[k] !in s
    ensures !Contains(s, t)
  {
    forall i | 0 <= i <= |s| - |t|
      ensures !OccursAt(s, t, i)
    {
      assert s[i..i + |t|][k] == s[i + k];
    }
  }

  // ----- Decimal rendering -----

  predicate IsDigit(c: char) {
    '0' <= c <= '9'
  }

  function DigitChar(d: nat): (c: char)
    requires d < 10
    ensures IsDigit(c) && DigitValue(c) == d
  {
    ('0' as int + d) as char
  }

  function DigitValue(c: char): (d: nat)
    requires IsDigit(c)
    ensures d < 10
  {
    c as int - '0' as int
  }

  predicate AllDigits(s: string) {
    forall i | 0 <= i < |s| :: IsDigit(s[i])
  }

  /** `str(n)`. */
  function Decimal(n: nat): (s: string)
    ensures s != [] && AllDigits(s) && DecimalValue(s) == n
  {
    if n < 10 then [DigitChar(n)]
    else
      var front := Decimal(n / 10);
      assert (front + [DigitChar(n % 10)])[..|front|] == front;
      front + [DigitChar(n % 10)]
  }

  /** `int(s)` of a run of digits; leading zeros do not matter. */
  function DecimalValue(s: string): nat
    requires AllDigits(s)
  {
    if s == [] then 0
    else 10 * DecimalValue(s[..|s| - 1]) + DigitValue(s[|s| - 1])
  }

  // ----- Joining -----

  /** `sep.join(parts)`. */
  function Join(parts: seq<string>, sep: string): string {
    if parts == [] then ""
    else if |parts| == 1 then parts[0]
    else Join(parts[..|parts| - 1], sep) + sep + parts[|parts| - 1]
  }
}
