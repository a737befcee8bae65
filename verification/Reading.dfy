/** Reading a rendered body: every value, list and link of a record can be found in it again,
    under its own label or heading, by a reader that knows only the text a person sees. */
module Reading {
  import opened Wrappers
  import opened Text
  import opened Markers
  import opened Catalog
  import opened Rendering

  // ----- A reader of bodies -----

  /** The value of the first line with this label. */
  function Field(lines: seq<string>, name: string): Option<string> {
    if lines == [] then None
    else if name <= lines[0] then Some(lines[0][|name|..])
    else Field(lines[1..], name)
  }

  /** The marked lines at the start of a list of lines, without their mark. */
  function Run(lines: seq<string>, mark: string): seq<string> {
    if lines == [] || !(mark <= lines[0]) then []
    else [lines[0][|mark|..]] + Run(lines[1..], mark)
  }

  /** The marked lines right under the first line that is this heading. */
  function Items(lines: seq<string>, heading: string, mark: string): seq<string> {
    if lines == [] then []
    else if lines[0] == heading then Run(lines[1..], mark)
    else Items(lines[1..], heading, mark)
  }

  /** The second-level headings, in order. */
  function Headings(lines: seq<string>): seq<string> {
    if lines == [] then []
    else HeadingOf(lines[0]) + Headings(lines[1..])
  }

  function HeadingOf(line: string): seq<string> {
    if "## " <= line then [line[3..]] else []
  }

  datatype Link = Link(number: Option<nat>, key: string)

  /** The link a key should have. */
  function LinkTo(key: string, numbers: Numbers): Link {
    Link(if key in numbers then Some(numbers[key]) else None, key)
  }

  const DASH := " — "

  function Digits(text: string): (d: string)
    ensures AllDigits(d) && d <= text
    ensures |d| < |text| ==> !IsDigit(text[|d|])
  {
    if text == "" || !IsDigit(text[0]) then "" else [text[0]] + Digits(text[1..])
  }

  /** How much of a text is the number before a key: `#`, digits and a dash, or nothing. */
  function NumberLength(text: string): (n: nat)
    ensures n <= |text|
  {
    if text == "" || text[0] != '#' then 0
    else
      var d := Digits(text[1..]);
      if d != "" && DASH <= text[1 + |d|..] then 1 + |d| + |DASH| else 0
  }

  function NumberOf(text: string): Option<nat> {
    if NumberLength(text) == 0 then None else Some(DecimalValue(Digits(text[1..])))
  }

  function ReadLink(text: string): Link {
    Link(NumberOf(text), text[NumberLength(text)..])
  }

  function Word(text: string): (w: string)
    ensures w <= text
  {
    if text == "" || text[0] == ' ' then "" else [text[0]] + Word(text[1..])
  }

  /** A link, a space, and a title. */
  function ReadListed(text: string): (Link, string) {
    var rest := text[NumberLength(text)..];
    var key := Word(rest);
    (Link(NumberOf(text), key), if |key| < |rest| then rest[|key| + 1..] else "")
  }

  function BeforeComma(text: string): (w: string)
    ensures w <= text && ',' !in w
    ensures |w| < |text| ==> text[|w|] == ','
  {
    if text == "" || text[0] == ',' then "" else [text[0]] + BeforeComma(text[1..])
  }

  /** The parts of a list with a comma and a space between them. */
  function Parts(text: string): seq<string>
    decreases |text|
  {
    var first := BeforeComma(text);
    if |first| + 2 > |text| then [first] else [first] + Parts(text[|first| + 2..])
  }

  function ReadLinks(text: string): seq<Link> {
    if text == "None" then []
    else
      var parts := Parts(text);
      seq(|parts|, i requires 0 <= i < |parts| => ReadLink(parts[i]))
  }

  // ----- Reading links -----

  lemma {:induction false} DigitsOf(number: string, rest: string)
    requires AllDigits(number) && (rest == "" || !IsDigit(rest[0]))
    ensures Digits(number + rest) == number
  {
    if number != [] {
      DigitsOf(number[1..], rest);
      assert (number + rest)[1..] == number[1..] + rest;
    } else {
      assert number + rest == rest;
    }
  }

  lemma NumberedReads(number: string, rest: string)
    requires AllDigits(number) && number != ""
    ensures var text := "#" + (number + (DASH + rest));
      && NumberLength(text) == 1 + |number| + |DASH|
      && NumberOf(text) == Some(DecimalValue(number))
      && text[NumberLength(text)..] == rest
  {
    var behind := DASH + rest;
    assert !IsDigit(behind[0]);
    DigitsOf(number, behind);
    assert behind[|DASH|..] == rest;
    NumberAhead("#" + (number + behind), number, behind);
  }

  lemma NumberAhead(text: string, number: string, behind: string)
    requires text == "#" + (number + behind)
    requires number != "" && Digits(number + behind) == number && DASH <= behind
    ensures NumberLength(text) == 1 + |number| + |DASH|
    ensures NumberOf(text) == Some(DecimalValue(number))
    ensures text[NumberLength(text)..] == behind[|DASH|..]
  {
    hide Digits, DecimalValue, DASH;
    assert text[1..] == number + behind;
    assert text[1 + |number|..] == behind;
    assert text[1 + |number| + |DASH|..] == behind[|DASH|..];
  }

  /** A link is read back as the number and the key it was made of. */
  lemma ReferenceReads(key: string, numbers: Numbers, rest: string)
    requires key != [] && key[0] != '#'
    ensures var text := Reference(key, numbers) + rest;
      && NumberOf(text) == LinkTo(key, numbers).number
      && text[NumberLength(text)..] == key + rest
  {
    if key in numbers {
      var number := Decimal(numbers[key]);
      NumberedReads(number, key + rest);
      hide NumberLength, NumberOf, Decimal, DecimalValue;
      ReferenceParts(number, key, rest);
    }
  }

  lemma ReferenceParts(number: string, key: string, rest: string)
    ensures "#" + number + DASH + key + rest == "#" + (number + (DASH + (key + rest)))
  {
    hide DASH;
  }

  lemma LinkReads(key: string, numbers: Numbers)
    requires key != [] && key[0] != '#'
    ensures ReadLink(Reference(key, numbers)) == LinkTo(key, numbers)
  {
    ReferenceReads(key, numbers, "");
    assert Reference(key, numbers) + "" == Reference(key, numbers) && key + "" == key;
  }

  lemma {:induction false} WordOf(word: string, rest: string)
    requires ' ' !in word && (rest == "" || rest[0] == ' ')
    ensures Word(word + rest) == word
  {
    if word != [] {
      WordOf(word[1..], rest);
      assert (word + rest)[1..] == word[1..] + rest;
    } else {
      assert word + rest == rest;
    }
  }

  lemma ListedReads(key: string, numbers: Numbers, title: string)
    requires key != [] && key[0] != '#' && ' ' !in key
    ensures ReadListed(Reference(key, numbers) + " " + title) == (LinkTo(key, numbers), title)
  {
    hide Reference, NumberLength, NumberOf;
    var tail := " " + title;
    ReferenceReads(key, numbers, tail);
    WordOf(key, tail);
    assert Reference(key, numbers) + " " + title == Reference(key, numbers) + tail;
    assert (key + tail)[|key| + 1..] == title;
  }

  lemma {:induction false} BeforeCommaOf(first: string, rest: string)
    requires ',' !in first && (rest == "" || rest[0] == ',')
    ensures BeforeComma(first + rest) == first
  {
    if first != [] {
      BeforeCommaOf(first[1..], rest);
      assert (first + rest)[1..] == first[1..] + rest;
    } else {
      assert first + rest == rest;
    }
  }

  lemma {:induction false} PartsOf(parts: seq<string>)
    requires parts != [] && forall p <- parts :: ',' !in p && p != ""
    ensures Parts(Join(parts, ", ")) == parts
  {
    var first, rest := parts[0], parts[1..];
    assert parts == [first] + rest;
    if rest == [] {
      BeforeCommaOf(first, "");
      assert first + "" == first;
    } else {
      var behind := ", " + Join(rest, ", ");
      JoinHead(first, rest, ", ");
      assert Join(parts, ", ") == first + behind;
      BeforeCommaOf(first, behind);
      PartsOf(rest);
      assert rest[0] in rest;
      assert (first + behind)[|first| + 2..] == Join(rest, ", ");
    }
  }

  /** What a key can look like. */
  predicate IsPlainKey(key: string) {
    key != [] && 'A' <= key[0] <= 'Z' && ' ' !in key && ',' !in key && key[0] != 'N'
  }

  lemma KeysArePlain(key: string)
    requires IsEpicKey(key) || IsChildKey(key)
    ensures IsPlainKey(key)
  {
    KeysFitMarkers(key);
  }

  lemma ReferenceHasNoComma(key: string, numbers: Numbers)
    requires IsPlainKey(key)
    ensures ',' !in Reference(key, numbers) && Reference(key, numbers) != "" && Reference(key, numbers)[0] != 'N'
  {
    if key in numbers {
      var number := Decimal(numbers[key]);
      assert forall i | 0 <= i < |number| :: IsDigit(number[i]);
      assert ',' !in number;
    }
  }

  lemma LinksRead(keys: seq<string>, numbers: Numbers)
    requires forall k <- keys :: IsPlainKey(k)
    ensures ReadLinks(if keys == [] then "None" else Join(References(keys, numbers), ", "))
      == seq(|keys|, i requires 0 <= i < |keys| => LinkTo(keys[i], numbers))
  {
    hide Reference, ReadLink;
    var parts := References(keys, numbers);
    forall i | 0 <= i < |keys|
      ensures ',' !in parts[i] && parts[i] != "" && parts[i][0] != 'N'
      ensures ReadLink(parts[i]) == LinkTo(keys[i], numbers)
    {
      assert keys[i] in keys;
      ReferenceHasNoComma(keys[i], numbers);
      LinkReads(keys[i], numbers);
    }
    if keys != [] {
      PartsOf(parts);
      NotNone(parts);
    }
  }

  lemma NotNone(parts: seq<string>)
    requires parts != [] && parts[0] != "" && parts[0][0] != 'N'
    ensures Join(parts, ", ") != "None"
  {
    if |parts| > 1 {
      JoinHead(parts[0], parts[1..], ", ");
      assert parts == [parts[0]] + parts[1..];
      assert Join(parts, ", ")[0] == parts[0][0];
    }
  }
}
