/** Word lists for scoring: lower case, no punctuation, numbers up to a hundred spelled out. */
module Normalise {
  import opened Wrappers
  import opened Text

  // ----- Splitting -----

  /** The characters `str.split` takes for white space. */
  predicate IsSpace(c: char) {
    || '\t' <= c <= '\r'
    || '\U{1C}' <= c <= ' '
    || c == '\U{85}' || c == '\U{A0}' || c == '\U{1680}'
    || '\U{2000}' <= c <= '\U{200A}'
    || c == '\U{2028}' || c == '\U{2029}' || c == '\U{202F}' || c == '\U{205F}' || c == '\U{3000}'
  }

  predicate IsSolid(s: string) {
    forall i | 0 <= i < |s| :: !IsSpace(s[i])
  }

  function FirstRun(s: string): (run: string)
    ensures run <= s && IsSolid(run)
    ensures s != [] && !IsSpace(s[0]) ==> run != []
    ensures |run| < |s| ==> IsSpace(s[|run|])
  {
    if s == [] || IsSpace(s[0]) then "" else [s[0]] + FirstRun(s[1..])
  }

  /** `s.split()` */
  function Split(s: string): seq<string>
    decreases |s|
  {
    if s == [] then []
    else if IsSpace(s[0]) then Split(s[1..])
    else [FirstRun(s)] + Split(s[|FirstRun(s)|..])
  }

  lemma {:induction false} FirstRunIsExact(run: string, rest: string)
    requires IsSolid(run) && (rest == [] || IsSpace(rest[0]))
    ensures FirstRun(run + rest) == run
  {
    if run == [] {
      assert run + rest == rest;
    } else {
      FirstRunIsExact(run[1..], rest);
      assert (run + rest)[1..] == run[1..] + rest;
    }
  }

  lemma {:induction false} SplitAtSpace(a: string, c: char, b: string)
    requires IsSpace(c)
    ensures Split(a + [c] + b) == Split(a) + Split(b)
    decreases |a|
  {
    var s := a + [c] + b;
    if a == [] {
      assert s[1..] == b;
    } else if IsSpace(a[0]) {
      assert s[1..] == a[1..] + [c] + b;
      SplitAtSpace(a[1..], c, b);
    } else {
      var run := FirstRun(a);
      assert a == run + a[|run|..];
      assert s == run + (a[|run|..] + [c] + b);
      FirstRunIsExact(run, a[|run|..] + [c] + b);
      assert s[|run|..] == a[|run|..] + [c] + b;
      SplitAtSpace(a[|run|..], c, b);
      assert Split(s) == [run] + (Split(a[|run|..]) + Split(b));
    }
  }

  lemma SplitAcross(a: string, b: string)
    ensures Split(a + " " + b) == Split(a) + Split(b)
  {
    SplitAtSpace(a, ' ', b);
  }

  lemma SplitOne(word: string)
    requires word != [] && IsSolid(word)
    ensures Split(word) == [word]
  {
    FirstRunIsExact(word, "");
    assert word + "" == word;
  }

  /** Joining words with spaces and splitting again gives the words. */
  lemma {:induction false} SplitUndoesJoin(words: seq<string>)
    requires forall i | 0 <= i < |words| :: words[i] != [] && IsSolid(words[i])
    ensures Split(Join(words, " ")) == words
  {
    if words != [] {
      var n := |words| - 1;
      SplitOne(words[n]);
      if n > 0 {
        SplitUndoesJoin(words[..n]);
        SplitAcross(Join(words[..n], " "), words[n]);
        assert words[..n] + [words[n]] == words;
      }
    }
  }

  lemma {:induction false} SplitGivesSolids(s: string)
    ensures forall i | 0 <= i < |Split(s)| :: Split(s)[i] != [] && IsSolid(Split(s)[i])
    ensures forall i | 0 <= i < |Split(s)| :: forall c | c in Split(s)[i] :: c in s
    decreases |s|
  {
    if s != [] {
      if IsSpace(s[0]) {
        SplitGivesSolids(s[1..]);
      } else {
        SplitGivesSolids(s[|FirstRun(s)|..]);
      }
    }
  }

  // ----- Numbers in words -----

  const ONES := ["zero", "one", "two", "three", "four", "five", "six", "seven", "eight", "nine", "ten",
                 "eleven", "twelve", "thirteen", "fourteen", "fifteen", "sixteen", "seventeen",
                 "eighteen", "nineteen"]
  const TENS := ["zero", "ten", "twenty", "thirty", "forty", "fifty", "sixty", "seventy", "eighty", "ninety"]

  function One(n: nat): string
    requires n < 20
  {
    ONES[n]
  }

  function Ten(n: nat): string
    requires n < 10
  {
    TENS[n]
  }

  function Spell(n: nat): string {
    if n < 20 then One(n)
    else if n < 100 then
      if n % 10 == 0 then Ten(n / 10) else Ten(n / 10) + " " + One(n % 10)
    else "one hundred"
  }

  predicate IsLetters(s: string) {
    s != [] && forall i | 0 <= i < |s| :: 'a' <= s[i] <= 'z'
  }

  lemma OnesAreLetters(n: nat)
    requires n < 20
    ensures IsLetters(One(n))
  {
  }

  lemma TensAreLetters(n: nat)
    requires n < 10
    ensures IsLetters(Ten(n))
  {
  }

  lemma TwoWords(a: string, b: string)
    requires IsLetters(a) && IsLetters(b)
    ensures Split(a + " " + b) == [a, b]
    ensures Join([a, b], " ") == a + " " + b
  {
    SplitAcross(a, b);
    SplitOne(a);
    SplitOne(b);
    assert [a, b][..1] == [a];
  }

  /** Spelled numbers are one or two words of letters. */
  lemma SpellingIsLetters(n: nat)
    ensures forall i | 0 <= i < |Split(Spell(n))| :: IsLetters(Split(Spell(n))[i])
    ensures Join(Split(Spell(n)), " ") == Spell(n)
  {
    hide IsSpace, One, Ten;
    if n < 20 {
      OnesAreLetters(n);
      OneWord(One(n));
    } else if n < 100 {
      TensAreLetters(n / 10);
      OnesAreLetters(n % 10);
      if n % 10 == 0 {
        OneWord(Ten(n / 10));
      } else {
        TwoWords(Ten(n / 10), One(n % 10));
      }
    } else {
      TwoWords("one", "hundred");
      assert "one" + " " + "hundred" == "one hundred";
    }
  }

  lemma OneWord(a: string)
    requires IsLetters(a)
    ensures Split(a) == [a] && Join([a], " ") == a
  {
    SplitOne(a);
  }

  // ----- Normalising -----

  predicate IsWordChar(c: char) {
    'a' <= c <= 'z' || IsDigit(c)
  }

  /** `re.sub(r"[^a-z0-9\s]", " ", s)` */
  function Blank(s: string): string {
    seq(|s|, i requires 0 <= i < |s| => if IsWordChar(s[i]) || IsSpace(s[i]) then s[i] else ' ')
  }

  predicate IsSpellable(token: string) {
    token != [] && AllDigits(token) && DecimalValue(token) <= 100
  }

  function Expand(token: string): seq<string> {
    if IsSpellable(token) then Split(Spell(DecimalValue(token))) else [token]
  }

  function ExpandAll(tokens: seq<string>): seq<string> {
    if tokens == [] then []
    else ExpandAll(tokens[..|tokens| - 1]) + Expand(tokens[|tokens| - 1])
  }

  function Words(text: string): seq<string> {
    ExpandAll(Split(Blank(Lower(text))))
  }

  /** `normalise` */
  method NormaliseText(text: string) returns (words: seq<string>)
    ensures words == Words(text)
  {
    hide Expand;
    var tokens := Split(Blank(Lower(text)));
    words := [];
    for i := 0 to |tokens|
      invariant words == ExpandAll(tokens[..i])
    {
      assert tokens[..i + 1][..i] == tokens[..i];
      words := words + Expand(tokens[i]);
    }
    assert tokens[..|tokens|] == tokens;
  }

  /** A word normalising leaves alone. */
  predicate IsStable(word: string) {
    && word != []
    && (forall i | 0 <= i < |word| :: IsWordChar(word[i]))
    && !IsSpellable(word)
  }

  predicate AllStable(words: seq<string>) {
    forall i | 0 <= i < |words| :: IsStable(words[i])
  }

  lemma LettersAreStable(word: string)
    requires IsLetters(word)
    ensures IsStable(word)
  {
    assert !IsDigit(word[0]);
  }

  lemma ExpandIsStable(token: string)
    requires token != [] && forall i | 0 <= i < |token| :: IsWordChar(token[i])
    ensures AllStable(Expand(token))
  {
    hide Spell;
    if IsSpellable(token) {
      SpellingIsLetters(DecimalValue(token));
      forall i | 0 <= i < |Expand(token)|
        ensures IsStable(Expand(token)[i])
      {
        LettersAreStable(Expand(token)[i]);
      }
    }
  }

  lemma {:induction false} ExpandAllIsStable(tokens: seq<string>)
    requires forall t | 0 <= t < |tokens| ::
      tokens[t] != [] && forall i | 0 <= i < |tokens[t]| :: IsWordChar(tokens[t][i])
    ensures AllStable(ExpandAll(tokens))
  {
    hide Expand, IsStable;
    if tokens != [] {
      ExpandAllIsStable(tokens[..|tokens| - 1]);
      ExpandIsStable(tokens[|tokens| - 1]);
    }
  }

  lemma BlankTokens(s: string)
    ensures forall t | 0 <= t < |Split(Blank(s))| ::
      Split(Blank(s))[t] != [] && forall i | 0 <= i < |Split(Blank(s))[t]| :: IsWordChar(Split(Blank(s))[t][i])
  {
    var tokens := Split(Blank(s));
    SplitGivesSolids(Blank(s));
    forall t, i | 0 <= t < |tokens| && 0 <= i < |tokens[t]|
      ensures IsWordChar(tokens[t][i])
    {
      assert tokens[t][i] in Blank(s);
      assert !IsSpace(tokens[t][i]);
    }
  }

  /** Every word a text normalises to is one normalising leaves alone. */
  lemma WordsAreStable(text: string)
    ensures AllStable(Words(text))
  {
    BlankTokens(Lower(text));
    ExpandAllIsStable(Split(Blank(Lower(text))));
  }

  lemma {:induction false} StableExpands(words: seq<string>)
    requires AllStable(words)
    ensures ExpandAll(words) == words
  {
    hide IsSpellable;
    if words != [] {
      var n := |words| - 1;
      StableExpands(words[..n]);
      assert IsStable(words[n]);
      assert words == words[..n] + [words[n]];
    }
  }

  /** Text of word characters and plain spaces is not changed by lower-casing or blanking. */
  predicate IsPlain(s: string) {
    forall i | 0 <= i < |s| :: IsWordChar(s[i]) || s[i] == ' '
  }

  lemma {:induction false} JoinIsPlain(words: seq<string>)
    requires AllStable(words)
    ensures IsPlain(Join(words, " "))
  {
    if |words| > 1 {
      JoinIsPlain(words[..|words| - 1]);
    }
  }

  lemma PlainStays(s: string)
    requires IsPlain(s)
    ensures Blank(Lower(s)) == s
  {
    LowerIsIdentity(s);
  }

  lemma WordCharsAreSolid(word: string)
    requires forall i | 0 <= i < |word| :: IsWordChar(word[i])
    ensures IsSolid(word)
  {
  }

  /** Stable words, joined with spaces, normalise to themselves. */
  lemma StableRoundTrip(words: seq<string>)
    requires AllStable(words)
    ensures Split(Join(words, " ")) == words
    ensures Words(Join(words, " ")) == words
  {
    hide IsSpellable, IsSpace, IsWordChar;
    forall i | 0 <= i < |words|
      ensures words[i] != [] && IsSolid(words[i])
    {
      WordCharsAreSolid(words[i]);
    }
    SplitUndoesJoin(words);
    JoinIsPlain(words);
    PlainStays(Join(words, " "));
    StableExpands(words);
  }

  /** Normalising twice is normalising once, and a stored critical term splits back into the
      very words it was normalised to. */
  lemma NormalisingIsIdempotent(text: string)
    ensures Words(Join(Words(text), " ")) == Words(text)
    ensures Split(Join(Words(text), " ")) == Words(text)
  {
    WordsAreStable(text);
    StableRoundTrip(Words(text));
  }

  /** Digits and words compare equal: any way of writing a number up to a hundred in digits,
      leading zeros included, normalises to what its spelling normalises to. */
  lemma DigitsEqualWords(digits: string)
    requires IsSpellable(digits)
    ensures Words(digits) == Words(Spell(DecimalValue(digits)))
  {
    hide Spell;
    var spelled := Spell(DecimalValue(digits));
    SpellingIsLetters(DecimalValue(digits));
    var words := Split(spelled);
    forall i | 0 <= i < |words|
      ensures IsStable(words[i])
    {
      LettersAreStable(words[i]);
    }
    StableRoundTrip(words);
    PlainStays(digits);
    WordCharsAreSolid(digits);
    SplitOne(digits);
    assert [digits][..0] == [];
    assert ExpandAll([digits]) == Expand(digits);
  }

  // ----- What a text normalises to -----

  /** Characters that lower-case to letters or digits. */
  predicate IsWordy(c: char) {
    IsWordChar(c) || 'A' <= c <= 'Z' || c == '\U{212A}' || c == '\U{0130}'
  }

  lemma {:induction false} ExpandAllConcat(a: seq<string>, b: seq<string>)
    ensures ExpandAll(a + b) == ExpandAll(a) + ExpandAll(b)
  {
    hide Expand;
    if b == [] {
      assert a + b == a;
    } else {
      var n := |b| - 1;
      ExpandAllConcat(a, b[..n]);
      assert (a + b)[..|a| + n] == a + b[..n] && (a + b)[|a| + n] == b[n];
    }
  }

  /** Any other character only separates: punctuation and white space leave no word behind. */
  lemma WordsBreak(a: string, c: char, b: string)
    requires !IsWordy(c)
    ensures Words(a + [c] + b) == Words(a) + Words(b)
  {
    LowerConcat(a + [c], b);
    LowerConcat(a, [c]);
    LowerLeaves(c);
    hide Lower, Split, ExpandAll, Blank, IsWordy;
    var d := BlankAround(Lower(a), c, Lower(b));
    SplitAtSpace(Blank(Lower(a)), d, Blank(Lower(b)));
    ExpandAllConcat(Split(Blank(Lower(a))), Split(Blank(Lower(b))));
  }

  lemma LowerLeaves(c: char)
    requires !IsWordy(c)
    ensures Lower([c]) == [c] && !IsWordChar(c)
  {
    assert [c][1..] == [];
  }

  lemma BlankAround(x: string, c: char, y: string) returns (d: char)
    requires !IsWordChar(c)
    ensures IsSpace(d) && Blank(x + [c] + y) == Blank(x) + [d] + Blank(y)
  {
    d := if IsSpace(c) then c else ' ';
    hide IsSpace, IsWordChar;
    assert IsSpace(d) by {
      SpaceIsSpace();
    }
  }

  lemma SpaceIsSpace()
    ensures IsSpace(' ')
  {
  }

  /** A run of letters and digits that is not a small number is one word, in lower case. */
  lemma WordsOfRun(run: string, lowered: string)
    requires run != "" && |lowered| == |run|
    requires forall i | 0 <= i < |run| ::
      (IsWordChar(run[i]) && lowered[i] == run[i])
      || ('A' <= run[i] <= 'Z' && lowered[i] as int == run[i] as int + 32)
    requires !(AllDigits(run) && DecimalValue(run) <= 100)
    ensures Words(run) == [lowered]
  {
    hide Split, ExpandAll, Blank, Lower, IsSpellable, DecimalValue;
    LowerOfRun(run, lowered);
    RunIsStable(run, lowered);
    StableAlone(lowered);
  }

  lemma RunIsStable(run: string, lowered: string)
    requires run != "" && |lowered| == |run|
    requires forall i | 0 <= i < |run| ::
      (IsWordChar(run[i]) && lowered[i] == run[i])
      || ('A' <= run[i] <= 'Z' && lowered[i] as int == run[i] as int + 32)
    requires !(AllDigits(run) && DecimalValue(run) <= 100)
    ensures IsStable(lowered)
  {
    hide DecimalValue;
    if AllDigits(lowered) {
      forall i | 0 <= i < |run|
        ensures run[i] == lowered[i]
      {
        assert IsDigit(lowered[i]);
      }
      assert run == lowered;
    }
  }

  lemma StableAlone(word: string)
    requires IsStable(word)
    ensures ExpandAll(Split(Blank(word))) == [word]
  {
    WordCharsAreSolid(word);
    SplitOne(word);
    assert Blank(word) == word;
    hide Split, Blank, IsStable, IsSpellable;
    StableExpands([word]) by {
      assert IsStable(word);
    }
  }

  lemma {:induction false} LowerOfRun(run: string, lowered: string)
    requires |lowered| == |run|
    requires forall i | 0 <= i < |run| ::
      (IsWordChar(run[i]) && lowered[i] == run[i])
      || ('A' <= run[i] <= 'Z' && lowered[i] as int == run[i] as int + 32)
    ensures Lower(run) == lowered
  {
    if run != "" {
      LowerOfRun(run[1..], lowered[1..]);
      assert LowerChar(run[0]) == [lowered[0]];
    }
  }

  // ----- Reading spelled numbers -----

  /** What a number word means, as one learns it. */
  function ValueOf(word: string): Option<nat> {
    match word
    case "zero" => Some(0)
    case "one" => Some(1)
    case "two" => Some(2)
    case "three" => Some(3)
    case "four" => Some(4)
    case "five" => Some(5)
    case "six" => Some(6)
    case "seven" => Some(7)
    case "eight" => Some(8)
    case "nine" => Some(9)
    case "ten" => Some(10)
    case "eleven" => Some(11)
    case "twelve" => Some(12)
    case "thirteen" => Some(13)
    case "fourteen" => Some(14)
    case "fifteen" => Some(15)
    case "sixteen" => Some(16)
    case "seventeen" => Some(17)
    case "eighteen" => Some(18)
    case "nineteen" => Some(19)
    case "twenty" => Some(20)
    case "thirty" => Some(30)
    case "forty" => Some(40)
    case "fifty" => Some(50)
    case "sixty" => Some(60)
    case "seventy" => Some(70)
    case "eighty" => Some(80)
    case "ninety" => Some(90)
    case _ => None
  }

  lemma OnesMean(n: nat)
    requires n < 20
    ensures ValueOf(One(n)) == Some(n)
  {
  }

  lemma TensMean(n: nat)
    requires 0 < n < 10
    ensures ValueOf(Ten(n)) == Some(10 * n)
  {
  }

  /** The value of a number written in one or two words. */
  function ReadNumber(words: seq<string>): Option<nat> {
    if |words| == 1 then ValueOf(words[0])
    else if words == ["one", "hundred"] then Some(100)
    else if |words| == 2 && ValueOf(words[0]).Some? && ValueOf(words[1]).Some? then
      Some(ValueOf(words[0]).value + ValueOf(words[1]).value)
    else None
  }

  /** Every number up to a hundred is spelled as a reader would read it. */
  lemma SpellingReadsBack(n: nat)
    requires n <= 100
    ensures ReadNumber(Split(Spell(n))) == Some(n)
  {
    hide Spell, ReadNumber, Split;
    if n < 20 {
      OnesRead(n);
    } else if n < 100 {
      TensRead(n);
    } else {
      HundredReads();
    }
  }

  lemma OnesRead(n: nat)
    requires n < 20
    ensures ReadNumber(Split(Spell(n))) == Some(n)
  {
    OnesMean(n);
    OnesAreLetters(n);
    OneWord(One(n));
    hide ValueOf, Split, IsLetters, One;
  }

  lemma TensRead(n: nat)
    requires 20 <= n < 100
    ensures ReadNumber(Split(Spell(n))) == Some(n)
  {
    hide *;
    SpelledTens(n);
    var t, o := n / 10, n % 10;
    if o == 0 {
      TenReads(t);
    } else {
      TenAndOneRead(t, o);
    }
  }

  lemma TenReads(t: nat)
    requires 0 < t < 10
    ensures ReadNumber(Split(Ten(t))) == Some(10 * t)
  {
    TensMean(t);
    TensAreLetters(t);
    hide One, Ten, ValueOf, Split, IsLetters, ReadNumber;
    OneWord(Ten(t));
    ReadsOne(Ten(t));
  }

  lemma TenAndOneRead(t: nat, o: nat)
    requires 0 < t < 10 && o < 10
    ensures ReadNumber(Split(Ten(t) + " " + One(o))) == Some(10 * t + o)
  {
    TensMean(t);
    TensAreLetters(t);
    OnesMean(o);
    OnesAreLetters(o);
    hide One, Ten, ValueOf, Split, IsLetters, ReadNumber, Join;
    TwoWords(Ten(t), One(o));
    ReadsTwo(Ten(t), One(o));
  }

  lemma SpelledTens(n: nat)
    requires 20 <= n < 100
    ensures Spell(n) == if n % 10 == 0 then Ten(n / 10) else Ten(n / 10) + " " + One(n % 10)
  {
    hide One, Ten;
  }

  lemma ReadsOne(word: string)
    ensures ReadNumber([word]) == ValueOf(word)
  {
  }

  lemma ReadsTwo(a: string, b: string)
    requires ValueOf(a).Some? && ValueOf(b).Some?
    ensures ReadNumber([a, b]) == Some(ValueOf(a).value + ValueOf(b).value)
  {
    assert ValueOf("hundred") == None;
    hide ValueOf;
    assert [a, b][1] != "hundred";
  }

  lemma HundredReads()
    ensures ReadNumber(Split(Spell(100))) == Some(100)
  {
    hide ValueOf;
    TwoWords("one", "hundred");
    assert "one" + " " + "hundred" == "one hundred";
    hide Split;
  }
}
