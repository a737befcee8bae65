/** Scoring passages, adding them up, deciding, and the gates a report has to pass. */
module Report {
  import opened Wrappers
  import opened Text
  import opened EditDistance
  import opened Normalise

  // ----- Critical terms -----

  predicate PhraseAt(tokens: seq<string>, phrase: seq<string>, start: int)
    requires 0 <= start <= |tokens| - |phrase|
  {
    tokens[start..start + |phrase|] == phrase
  }

  /** `_contains_phrase` */
  predicate ContainsPhrase(tokens: seq<string>, phrase: seq<string>) {
    phrase != [] && exists start | 0 <= start <= |tokens| - |phrase| :: PhraseAt(tokens, phrase, start)
  }

  /** How many of the terms occur in every one of the word lists. */
  function CountTerms(terms: seq<string>, lists: seq<seq<string>>): nat {
    if terms == [] then 0
    else
      var phrase := Split(terms[|terms| - 1]);
      var one := if forall i | 0 <= i < |lists| :: ContainsPhrase(lists[i], phrase) then 1 else 0;
      CountTerms(terms[..|terms| - 1], lists) + one
  }

  /** `critical_term_recall`: expected terms occur in the reference, found ones in both. */
  function Expected(reference: seq<string>, terms: seq<string>): nat {
    CountTerms(terms, [reference])
  }

  function Found(reference: seq<string>, hypothesis: seq<string>, terms: seq<string>): nat {
    CountTerms(terms, [reference, hypothesis])
  }

  function Recall(found: nat, expected: nat): real {
    if expected == 0 then 1.0 else found as real / expected as real
  }

  /** Never more found than expected; all found exactly when every expected term occurs in the
      hypothesis. */
  lemma {:induction false} FoundIsBounded(reference: seq<string>, hypothesis: seq<string>, terms: seq<string>)
    ensures Found(reference, hypothesis, terms) <= Expected(reference, terms)
    ensures Found(reference, hypothesis, terms) == Expected(reference, terms) <==>
      forall i | 0 <= i < |terms| && ContainsPhrase(reference, Split(terms[i])) ::
        ContainsPhrase(hypothesis, Split(terms[i]))
  {
    if terms != [] {
      var n := |terms| - 1;
      FoundIsBounded(reference, hypothesis, terms[..n]);
      assert forall i | 0 <= i < n :: terms[..n][i] == terms[i];
      var phrase := Split(terms[n]);
      assert [reference][0] == reference;
      assert [reference, hypothesis][0] == reference && [reference, hypothesis][1] == hypothesis;
      assert (forall i | 0 <= i < 1 :: ContainsPhrase([reference][i], phrase)) <==> ContainsPhrase(reference, phrase);
    }
  }

  /** A term stored from raw text is expected exactly when the words of that raw text occur in
      the reference as a phrase. */
  lemma StoredTermIsItsWords(raw: string, tokens: seq<string>)
    ensures ContainsPhrase(tokens, Split(Join(Words(raw), " "))) <==> ContainsPhrase(tokens, Words(raw))
  {
    NormalisingIsIdempotent(raw);
  }

  /** A phrase is contained when the words around it can be named. */
  lemma PhraseIsThere(tokens: seq<string>, phrase: seq<string>)
    ensures ContainsPhrase(tokens, phrase) <==>
      phrase != [] && exists before, after :: tokens == before + phrase + after
  {
    if ContainsPhrase(tokens, phrase) {
      var start :| 0 <= start <= |tokens| - |phrase| && PhraseAt(tokens, phrase, start);
      assert tokens == tokens[..start] + phrase + tokens[start + |phrase|..];
    }
    if phrase != [] && exists before, after :: tokens == before + phrase + after {
      var before, after :| tokens == before + phrase + after;
      assert PhraseAt(tokens, phrase, |before|);
    }
  }

  function TermsIn(terms: seq<string>, lists: seq<seq<string>>): set<nat> {
    set i: nat | i < |terms| && forall l | 0 <= l < |lists| :: ContainsPhrase(lists[l], Split(terms[i]))
  }

  /** The counts are of terms: each is counted once, where all the lists contain its words. */
  lemma {:induction false} CountIsOfTerms(terms: seq<string>, lists: seq<seq<string>>)
    ensures CountTerms(terms, lists) == |TermsIn(terms, lists)|
  {
    hide ContainsPhrase, Split;
    if terms != [] {
      var n := |terms| - 1;
      CountIsOfTerms(terms[..n], lists);
      if forall l | 0 <= l < |lists| :: ContainsPhrase(lists[l], Split(terms[n])) {
        assert TermsIn(terms, lists) == TermsIn(terms[..n], lists) + {n};
      } else {
        assert TermsIn(terms, lists) == TermsIn(terms[..n], lists);
      }
    } else {
      assert TermsIn(terms, lists) == {};
    }
  }

  // ----- One passage -----

  datatype Pin = Pin(filename: string, sha256: string, bytes: nat)

  /** One result file: the passage it names and what the runner measured. */
  datatype PassageRun = PassageRun(
    passage: string, transcript: string, filename: string, sha256: string,
    audioSeconds: real, transcriptionSeconds: real, peakResidentBytes: nat)

  datatype Totals = Totals(
    words: nat, counts: Counts, expected: nat, found: nat,
    audioSeconds: real, transcriptionSeconds: real, peakResidentBytes: nat, passages: set<string>)

  datatype ReportError =
    | NoResults
    | UnknownPassage(passage: string)
    | PinMismatch(passage: string)
    | EmptyReference(passage: string)
    | DifferentPassages

  type Script = map<string, string>

  function NoTotals(): Totals {
    Totals(0, Counts(0, 0, 0, 0), 0, 0, 0.0, 0.0, 0, {})
  }

  function AddCounts(a: Counts, b: Counts): Counts {
    Counts(a.kept + b.kept, a.substitutions + b.substitutions, a.deletions + b.deletions,
           a.insertions + b.insertions)
  }

  /** Why a result file is refused, if it is. */
  function Refusal(run: PassageRun, script: Script, pin: Pin): Option<ReportError> {
    if run.passage !in script then Some(UnknownPassage(run.passage))
    else if run.filename != pin.filename || run.sha256 != pin.sha256 then Some(PinMismatch(run.passage))
    else if Words(script[run.passage]) == [] then Some(ReportError.EmptyReference(run.passage))
    else None
  }

  function AddRun(t: Totals, run: PassageRun, script: Script, terms: seq<string>): Totals
    requires run.passage in script
  {
    var reference, hypothesis := Words(script[run.passage]), Words(run.transcript);
    Totals(
      t.words + |reference|,
      AddCounts(t.counts, Score(reference, hypothesis)),
      t.expected + Expected(reference, terms),
      t.found + Found(reference, hypothesis, terms),
      t.audioSeconds + run.audioSeconds,
      t.transcriptionSeconds + run.transcriptionSeconds,
      if run.peakResidentBytes > t.peakResidentBytes then run.peakResidentBytes else t.peakResidentBytes,
      t.passages + {run.passage})
  }

  function Total(runs: seq<PassageRun>, script: Script, pin: Pin, terms: seq<string>): Result<Totals, ReportError> {
    if runs == [] then Success(NoTotals())
    else
      var t :- Total(runs[..|runs| - 1], script, pin, terms);
      var run := runs[|runs| - 1];
      match Refusal(run, script, pin)
      case Some(e) => Failure(e)
      case None => Success(AddRun(t, run, script, terms))
  }

  // ----- One model -----

  datatype ModelResult = ModelResult(
    pin: Pin, wordErrorRate: real, substitutions: nat, deletions: nat, insertions: nat,
    recall: real, expected: nat, found: nat,
    audioSeconds: real, transcriptionSeconds: real, peakResidentBytes: nat)

  function ModelOf(t: Totals, pin: Pin): ModelResult
    requires t.words > 0
  {
    ModelResult(pin, t.counts.Cost() as real / t.words as real,
      t.counts.substitutions, t.counts.deletions, t.counts.insertions,
      Recall(t.found, t.expected), t.expected, t.found,
      t.audioSeconds, t.transcriptionSeconds, t.peakResidentBytes)
  }

  /** `_aggregate_model_results`: the sums, or the first reason to refuse. The source's last
      check, that some reference word was seen, can never fail here and is asserted instead. */
  method Aggregate(runs: seq<PassageRun>, script: Script, pin: Pin, terms: seq<string>)
    returns (r: Result<(ModelResult, set<string>), ReportError>)
    ensures runs == [] ==> r == Failure(NoResults)
    ensures runs != [] ==>
      match Total(runs, script, pin, terms)
      case Failure(e) => r == Failure(e)
      case Success(t) => t.words > 0 && r == Success((ModelOf(t, pin), t.passages))
  {
    hide Words, Score, Expected, Found;
    if runs == [] {
      return Failure(NoResults);
    }
    var t := NoTotals();
    for i := 0 to |runs|
      invariant Total(runs[..i], script, pin, terms) == Success(t)
      invariant i > 0 ==> t.words > 0
    {
      assert runs[..i + 1][..i] == runs[..i];
      var refusal := Refusal(runs[i], script, pin);
      if refusal.Some? {
        TotalStops(runs, i + 1, script, pin, terms);
        return Failure(refusal.value);
      }
      t := AddRun(t, runs[i], script, terms);
    }
    assert runs[..|runs|] == runs;
    r := Success((ModelOf(t, pin), t.passages));
  }

  lemma {:induction false} TotalStops(runs: seq<PassageRun>, i: nat, script: Script, pin: Pin, terms: seq<string>)
    requires i <= |runs| && Total(runs[..i], script, pin, terms).Failure?
    ensures Total(runs, script, pin, terms) == Total(runs[..i], script, pin, terms)
    decreases |runs|
  {
    if i < |runs| {
      var front := runs[..|runs| - 1];
      assert front[..i] == runs[..i];
      TotalStops(front, i, script, pin, terms);
    } else {
      assert runs[..i] == runs;
    }
  }

  // ----- What the sums mean -----

  /** The word error rate of one passage, and its length. */
  function PassageRate(run: PassageRun, script: Script): real
    requires run.passage in script && Words(script[run.passage]) != []
  {
    var reference := Words(script[run.passage]);
    Score(reference, Words(run.transcript)).Cost() as real / |reference| as real
  }

  predicate AllScored(runs: seq<PassageRun>, script: Script) {
    forall i | 0 <= i < |runs| :: runs[i].passage in script && Words(script[runs[i].passage]) != []
  }

  /** A passage's rate, weighted by its length. */
  function Weighted(run: PassageRun, script: Script): real
    requires run.passage in script && Words(script[run.passage]) != []
  {
    PassageRate(run, script) * |Words(script[run.passage])| as real
  }

  function WeightedRates(runs: seq<PassageRun>, script: Script): real
    requires AllScored(runs, script)
  {
    if runs == [] then 0.0
    else WeightedRates(runs[..|runs| - 1], script) + Weighted(runs[|runs| - 1], script)
  }

  function HypothesisWords(runs: seq<PassageRun>): nat {
    if runs == [] then 0
    else HypothesisWords(runs[..|runs| - 1]) + |Words(runs[|runs| - 1].transcript)|
  }

  function ReferenceWords(runs: seq<PassageRun>, script: Script): nat
    requires AllScored(runs, script)
  {
    if runs == [] then 0
    else ReferenceWords(runs[..|runs| - 1], script) + |Words(script[runs[|runs| - 1].passage])|
  }

  /** Sums over passages keep what holds of each: insertions less deletions is the difference
      in words, kept, substituted and deleted words are all the reference words, and no more
      terms are found than expected. */
  lemma {:induction false} TotalsAddUp(runs: seq<PassageRun>, script: Script, pin: Pin, terms: seq<string>)
    requires Total(runs, script, pin, terms).Success?
    ensures AllScored(runs, script)
    ensures var t := Total(runs, script, pin, terms).value;
      && t.words == ReferenceWords(runs, script)
      && t.counts.insertions - t.counts.deletions == HypothesisWords(runs) - t.words
      && t.counts.kept + t.counts.substitutions + t.counts.deletions == t.words
      && t.found <= t.expected
      && |runs| <= t.words
      && t.passages == (set i | 0 <= i < |runs| :: runs[i].passage)
  {
    hide Words, Score, Expected, Found;
    if runs != [] {
      var n := |runs| - 1;
      var front, run := runs[..n], runs[n];
      TotalsAddUp(front, script, pin, terms);
      ScoreTallies(Words(script[run.passage]), Words(run.transcript));
      FoundIsBounded(Words(script[run.passage]), Words(run.transcript), terms);
      assert forall i | 0 <= i < n :: front[i] == runs[i];
    }
  }

  lemma ScoreTallies(reference: seq<string>, hypothesis: seq<string>)
    ensures var c := Score(reference, hypothesis);
      && c.insertions - c.deletions == |hypothesis| - |reference|
      && c.kept + c.substitutions + c.deletions == |reference|
  {
    hide IsDistance, Turns;
    ScoreIsOptimal(reference, hypothesis);
  }

  predicate IsAccepted(run: PassageRun, script: Script, pin: Pin) {
    && run.passage in script && Words(script[run.passage]) != []
    && run.filename == pin.filename && run.sha256 == pin.sha256
  }

  predicate AllAccepted(runs: seq<PassageRun>, script: Script, pin: Pin) {
    forall i | 0 <= i < |runs| :: IsAccepted(runs[i], script, pin)
  }

  lemma AcceptedFront(runs: seq<PassageRun>, script: Script, pin: Pin)
    requires runs != []
    ensures AllAccepted(runs, script, pin) <==>
      AllAccepted(runs[..|runs| - 1], script, pin) && IsAccepted(runs[|runs| - 1], script, pin)
  {
    hide IsAccepted;
  }

  /** Result files are accepted exactly when each names a passage of the script, with words in
      it, and carries the file name and the digest of the pinned model. */
  lemma {:induction false} AcceptedRuns(runs: seq<PassageRun>, script: Script, pin: Pin, terms: seq<string>)
    ensures Total(runs, script, pin, terms).Success? <==> AllAccepted(runs, script, pin)
  {
    if runs != [] {
      hide Total, AllAccepted, IsAccepted;
      AcceptedRuns(runs[..|runs| - 1], script, pin, terms);
      AcceptedFront(runs, script, pin);
      OneMoreRun(runs, script, pin, terms);
    }
  }

  lemma OneMoreRun(runs: seq<PassageRun>, script: Script, pin: Pin, terms: seq<string>)
    requires runs != []
    ensures Total(runs, script, pin, terms).Success? <==>
      && Total(runs[..|runs| - 1], script, pin, terms).Success?
      && IsAccepted(runs[|runs| - 1], script, pin)
  {
    hide Words, AddRun;
  }

  /** Over the result files, the sum of a figure of each reference and its transcript. */
  function SumOf(runs: seq<PassageRun>, script: Script, figure: (seq<string>, seq<string>) -> nat): nat
    requires AllScored(runs, script)
  {
    if runs == [] then 0
    else
      var n := |runs| - 1;
      SumOf(runs[..n], script, figure) + figure(Words(script[runs[n].passage]), Words(runs[n].transcript))
  }

  predicate AreSums(t: Totals, runs: seq<PassageRun>, script: Script, terms: seq<string>)
    requires AllScored(runs, script)
  {
    && t.counts.substitutions == SumOf(runs, script, (r, h) => Score(r, h).substitutions)
    && t.counts.deletions == SumOf(runs, script, (r, h) => Score(r, h).deletions)
    && t.counts.insertions == SumOf(runs, script, (r, h) => Score(r, h).insertions)
    && t.expected == SumOf(runs, script, (r, h) => |TermsIn(terms, [r])|)
    && t.found == SumOf(runs, script, (r, h) => |TermsIn(terms, [r, h])|)
  }

  /** Each count of a model is the sum of that count over its passages; expected terms are those of
      a passage's reference, found ones those of its reference and its transcript. */
  lemma {:induction false} TotalsAreSums(runs: seq<PassageRun>, script: Script, pin: Pin, terms: seq<string>)
    requires Total(runs, script, pin, terms).Success?
    ensures AllScored(runs, script) && AreSums(Total(runs, script, pin, terms).value, runs, script, terms)
  {
    hide Words, AddRun, AreSums;
    TotalsAddUp(runs, script, pin, terms);
    if runs == [] {
      NothingSums(script, terms);
    } else {
      var n := |runs| - 1;
      TotalsAreSums(runs[..n], script, pin, terms);
      OneMoreSums(Total(runs[..n], script, pin, terms).value, runs, script, terms);
    }
  }

  lemma NothingSums(script: Script, terms: seq<string>)
    ensures AreSums(NoTotals(), [], script, terms)
  {
    hide Score, TermsIn;
  }

  lemma OneMoreSums(t: Totals, runs: seq<PassageRun>, script: Script, terms: seq<string>)
    requires runs != [] && AllScored(runs, script) && AllScored(runs[..|runs| - 1], script)
    requires AreSums(t, runs[..|runs| - 1], script, terms)
    ensures AreSums(AddRun(t, runs[|runs| - 1], script, terms), runs, script, terms)
  {
    hide Words, Score, TermsIn, CountTerms;
    var n := |runs| - 1;
    CountIsOfTerms(terms, [Words(script[runs[n].passage])]);
    CountIsOfTerms(terms, [Words(script[runs[n].passage]), Words(runs[n].transcript)]);
  }

  function AudioOf(runs: seq<PassageRun>): real {
    if runs == [] then 0.0 else AudioOf(runs[..|runs| - 1]) + runs[|runs| - 1].audioSeconds
  }

  function TranscriptionOf(runs: seq<PassageRun>): real {
    if runs == [] then 0.0 else TranscriptionOf(runs[..|runs| - 1]) + runs[|runs| - 1].transcriptionSeconds
  }

  /** The seconds are summed and of the peaks the greatest is kept. */
  lemma {:induction false} TotalsMeasure(runs: seq<PassageRun>, script: Script, pin: Pin, terms: seq<string>)
    requires Total(runs, script, pin, terms).Success?
    ensures var t := Total(runs, script, pin, terms).value;
      && t.audioSeconds == AudioOf(runs)
      && t.transcriptionSeconds == TranscriptionOf(runs)
      && (forall run <- runs :: run.peakResidentBytes <= t.peakResidentBytes)
      && (t.peakResidentBytes == 0 || exists run <- runs :: run.peakResidentBytes == t.peakResidentBytes)
  {
    hide Words, Score, Expected, Found;
    if runs != [] {
      var n := |runs| - 1;
      TotalsMeasure(runs[..n], script, pin, terms);
      assert runs == runs[..n] + [runs[n]];
    }
  }

  /** Figures of so many reference and hypothesis words, and of so many seconds. */
  predicate AddsUp(f: ModelResult, reference: nat, hypothesis: nat, audio: real, transcription: real) {
    && f.insertions - f.deletions == hypothesis - reference
    && f.substitutions + f.deletions <= reference
    && f.wordErrorRate * reference as real == (f.substitutions + f.deletions + f.insertions) as real
    && f.recall * f.expected as real == f.found as real
    && (f.expected == 0 ==> f.recall == 1.0)
    && f.audioSeconds == audio && f.transcriptionSeconds == transcription
  }

  /** The figures reported for a model: each error count, the rate and the recall are those of
      all passages together. */
  lemma FiguresAddUp(runs: seq<PassageRun>, script: Script, pin: Pin, terms: seq<string>)
    requires runs != [] && Total(runs, script, pin, terms).Success?
    ensures AllScored(runs, script)
    ensures var t := Total(runs, script, pin, terms).value;
      && t.words > 0
      && ModelOf(t, pin).pin == pin
      && AddsUp(ModelOf(t, pin), ReferenceWords(runs, script), HypothesisWords(runs), AudioOf(runs),
                TranscriptionOf(runs))
  {
    TotalsAddUp(runs, script, pin, terms);
    TotalsMeasure(runs, script, pin, terms);
    hide Total, Words, ModelOf, HypothesisWords, ReferenceWords, AudioOf, TranscriptionOf, AddsUp;
    FiguresOfTotals(Total(runs, script, pin, terms).value, pin, HypothesisWords(runs));
  }

  lemma FiguresOfTotals(t: Totals, pin: Pin, hypothesis: nat)
    requires t.words > 0 && t.found <= t.expected
    requires t.counts.insertions - t.counts.deletions == hypothesis - t.words
    requires t.counts.substitutions + t.counts.deletions <= t.words
    ensures ModelOf(t, pin).pin == pin
    ensures AddsUp(ModelOf(t, pin), t.words, hypothesis, t.audioSeconds, t.transcriptionSeconds)
  {
    Undivide(t.counts.Cost() as real, t.words as real);
    if t.expected > 0 {
      Undivide(t.found as real, t.expected as real);
    }
  }
  /** The rate of a model is the mean of its passage rates, weighted by their lengths. */
  lemma {:induction false} RateIsWeightedMean(runs: seq<PassageRun>, script: Script, pin: Pin, terms: seq<string>)
    requires Total(runs, script, pin, terms).Success?
    ensures AllScored(runs, script)
    ensures Total(runs, script, pin, terms).value.counts.Cost() as real == WeightedRates(runs, script)
    ensures runs != [] ==>
      && Total(runs, script, pin, terms).value.words > 0
      && ModelOf(Total(runs, script, pin, terms).value, pin).wordErrorRate
           == WeightedRates(runs, script) / ReferenceWords(runs, script) as real
  {
    hide Words, Score, Expected, Found, Weighted;
    TotalsAddUp(runs, script, pin, terms);
    if runs != [] {
      RateIsWeightedMean(runs[..|runs| - 1], script, pin, terms);
      WeightedIsCost(runs[|runs| - 1], script);
    }
  }

  lemma WeightedIsCost(run: PassageRun, script: Script)
    requires run.passage in script && Words(script[run.passage]) != []
    ensures Weighted(run, script)
         == Score(Words(script[run.passage]), Words(run.transcript)).Cost() as real
  {
    hide Words, Score;
    Undivide(Score(Words(script[run.passage]), Words(run.transcript)).Cost() as real,
             |Words(script[run.passage])| as real);
  }

  lemma Undivide(a: real, b: real)
    requires b != 0.0
    ensures a / b * b == a
  {
  }

  // ----- Deciding -----

  const MARGIN := 0.02

  datatype Rule = ByErrorRate | ByTerms | BySubstitutions | BaseStays

  function Decide(base: ModelResult, candidate: ModelResult): Rule {
    if base.wordErrorRate - candidate.wordErrorRate >= MARGIN then ByErrorRate
    else if candidate.found > base.found then ByTerms
    else if candidate.substitutions < base.substitutions then BySubstitutions
    else BaseStays
  }

  predicate ChoosesCandidate(rule: Rule) {
    !rule.BaseStays?
  }

  // Where one model is the better of two, on each measure the rules look at.

  predicate BetterByMargin(a: ModelResult, b: ModelResult) {
    a.wordErrorRate <= b.wordErrorRate - 0.02
  }

  predicate FindsMore(a: ModelResult, b: ModelResult) {
    a.found > b.found
  }

  predicate SubstitutesLess(a: ModelResult, b: ModelResult) {
    a.substitutions < b.substitutions
  }

  predicate BetterSomewhere(a: ModelResult, b: ModelResult) {
    BetterByMargin(a, b) || FindsMore(a, b) || SubstitutesLess(a, b)
  }

  /** The rule is consistent, so that at most one of two models wins whichever is called the
      candidate, if and only if one of them is better than the other on no measure. */
  lemma BothCanWinExactly(a: ModelResult, b: ModelResult)
    ensures !(ChoosesCandidate(Decide(a, b)) && ChoosesCandidate(Decide(b, a))) <==>
      !BetterSomewhere(a, b) || !BetterSomewhere(b, a)
  {
  }

  /** The decision names the first measure on which the candidate is better, and the base stays
      exactly when it is better on none. */
  lemma DecisionNamesTheFirst(base: ModelResult, candidate: ModelResult)
    ensures match Decide(base, candidate)
      case ByErrorRate => BetterByMargin(candidate, base)
      case ByTerms => FindsMore(candidate, base) && !BetterByMargin(candidate, base)
      case BySubstitutions =>
        SubstitutesLess(candidate, base) && !BetterByMargin(candidate, base) && !FindsMore(candidate, base)
      case BaseStays => !BetterSomewhere(candidate, base)
  {
  }

  /** Inside the margin, as on a practical tie of the rates, the candidate is chosen exactly
      when it finds one term more or substitutes one word less. */
  lemma ChosenInsideTheMargin(base: ModelResult, candidate: ModelResult)
    requires !BetterByMargin(candidate, base)
    ensures ChoosesCandidate(Decide(base, candidate)) <==>
      candidate.found >= base.found + 1 || candidate.substitutions <= base.substitutions - 1
  {
  }

  const SPOKEN := ["a", "b"]
  const MISHEARD := ["c", "b"]

  /** Both can win: two runs over one passage of two words, the first with one word replaced,
      the second with both words missing. Each model passes the schema and the term counts,
      and each is chosen over the other, whatever the pins and the terms. */
  lemma BothCanWin(passage: string, firstPin: Pin, secondPin: Pin, terms: seq<string>)
    returns (script: Script, first: PassageRun, second: PassageRun)
    requires firstPin.bytes > 0 && secondPin.bytes > 0
    ensures Total([first], script, firstPin, terms).Success? && Total([second], script, secondPin, terms).Success?
    ensures var t, u := Total([first], script, firstPin, terms).value, Total([second], script, secondPin, terms).value;
      && t.words == u.words == 2 && t.passages == u.passages
      && var a, b := ModelOf(t, firstPin), ModelOf(u, secondPin);
         && ModelInBounds(a) && ModelInBounds(b)
         && a.found <= a.expected && b.found <= b.expected
         && ChoosesCandidate(Decide(a, b)) && ChoosesCandidate(Decide(b, a))
  {
    hide Words, Score, Expected, Found, Recall, Join, AllStable, Split;
    WordsStand();
    StableRoundTrip(SPOKEN);
    StableRoundTrip(MISHEARD);
    StableRoundTrip([]);
    script := map[passage := Join(SPOKEN, " ")];
    first := PassageRun(passage, Join(MISHEARD, " "), firstPin.filename, firstPin.sha256, 1.0, 1.0, 1);
    second := PassageRun(passage, Join([], " "), secondPin.filename, secondPin.sha256, 1.0, 1.0, 1);
    OneReplaced("a", "c", "b");
    BothMissing("a", "b");
    OneRun(first, script, firstPin, terms);
    OneRun(second, script, secondPin, terms);
    RatesInBounds(Total([first], script, firstPin, terms).value, firstPin);
    RatesInBounds(Total([second], script, secondPin, terms).value, secondPin);
  }

  lemma OneRun(run: PassageRun, script: Script, pin: Pin, terms: seq<string>)
    requires Refusal(run, script, pin).None?
    ensures Total([run], script, pin, terms) == Success(AddRun(NoTotals(), run, script, terms))
    ensures var t := AddRun(NoTotals(), run, script, terms); t.found <= t.expected
  {
    hide Words, Score, Expected, Found;
    assert [run][..0] == [];
    assert Total([], script, pin, terms) == Success(NoTotals());
    FoundIsBounded(Words(script[run.passage]), Words(run.transcript), terms);
  }

  lemma WordsStand()
    ensures AllStable(SPOKEN) && AllStable(MISHEARD) && AllStable([])
  {
    LetterStands("a");
    LetterStands("b");
    LetterStands("c");
    hide IsStable;
  }

  lemma LetterStands(word: string)
    requires |word| == 1 && 'a' <= word[0] <= 'z'
    ensures IsStable(word)
  {
    LettersAreStable(word);
  }

  lemma OneReplaced(x: string, z: string, y: string)
    requires x != z
    ensures Score([x, y], [z, y]) == Counts(1, 1, 0, 0)
  {
    var r, h := [x, y], [z, y];
    AlignmentFits(r, h, 2, 2);
    assert Cell(r, h, 1, 1) == 1;
  }

  lemma BothMissing(x: string, y: string)
    ensures Score([x, y], []) == Counts(0, 0, 2, 0)
  {
    AlignmentFits([x, y], [], 2, 0);
  }

  // ----- The report and its gates -----

  datatype BenchmarkReport = BenchmarkReport(
    base: ModelResult, candidate: ModelResult, passages: nat, rule: Rule)

  /** The numeric bounds of the report schema. */
  predicate ModelInBounds(r: ModelResult) {
    && r.pin.bytes > 0
    && r.wordErrorRate >= 0.0
    && 0.0 <= r.recall <= 1.0
    && r.audioSeconds > 0.0
    && r.transcriptionSeconds > 0.0
    && r.peakResidentBytes > 0
  }

  predicate SchemaHolds(r: BenchmarkReport) {
    ModelInBounds(r.base) && ModelInBounds(r.candidate) && 1 <= r.passages <= 6
  }

  predicate PinsHold(r: BenchmarkReport, basePin: Pin, candidatePin: Pin) {
    r.base.pin == basePin && r.candidate.pin == candidatePin
  }

  predicate TermCountsHold(r: BenchmarkReport) {
    r.base.found <= r.base.expected && r.candidate.found <= r.candidate.expected
  }

  predicate DecisionHolds(r: BenchmarkReport) {
    r.rule == Decide(r.base, r.candidate)
  }

  predicate Validates(r: BenchmarkReport, basePin: Pin, candidatePin: Pin) {
    SchemaHolds(r) && PinsHold(r, basePin, candidatePin) && TermCountsHold(r) && DecisionHolds(r)
  }

  /** `build_report_from_runs` */
  method BuildReport(base: seq<PassageRun>, candidate: seq<PassageRun>, script: Script,
                     basePin: Pin, candidatePin: Pin, terms: seq<string>)
    returns (r: Result<BenchmarkReport, ReportError>)
    requires basePin.bytes > 0 && candidatePin.bytes > 0
    ensures r.Success? <==>
      && base != [] && candidate != []
      && Total(base, script, basePin, terms).Success?
      && Total(candidate, script, candidatePin, terms).Success?
      && Total(base, script, basePin, terms).value.passages
           == Total(candidate, script, candidatePin, terms).value.passages
    ensures r.Success? ==>
      var b, c := Total(base, script, basePin, terms).value, Total(candidate, script, candidatePin, terms).value;
      && b.words > 0 && c.words > 0
      && r.value.base == ModelOf(b, basePin)
      && r.value.candidate == ModelOf(c, candidatePin)
    ensures r.Success? ==>
      && PinsHold(r.value, basePin, candidatePin)
      && TermCountsHold(r.value)
      && DecisionHolds(r.value)
      && r.value.passages == |Total(base, script, basePin, terms).value.passages|
      && (Validates(r.value, basePin, candidatePin) <==>
            && r.value.passages <= 6
            && Measured(r.value.base) && Measured(r.value.candidate))
  {
    hide Words, Score, Total;
    var b := Aggregate(base, script, basePin, terms);
    if b.Failure? {
      return Failure(b.error);
    }
    var c := Aggregate(candidate, script, candidatePin, terms);
    if c.Failure? {
      return Failure(c.error);
    }
    TotalsAddUp(base, script, basePin, terms);
    TotalsAddUp(candidate, script, candidatePin, terms);
    if b.value.1 != c.value.1 {
      return Failure(DifferentPassages);
    }
    var report := BenchmarkReport(b.value.0, c.value.0, |b.value.1|, Decide(b.value.0, c.value.0));
    assert base[0].passage in b.value.1;
    RatesInBounds(Total(base, script, basePin, terms).value, basePin);
    RatesInBounds(Total(candidate, script, candidatePin, terms).value, candidatePin);
    r := Success(report);
  }

  /** What the runner has to have measured for the schema to accept a model's figures. */
  predicate Measured(r: ModelResult) {
    r.audioSeconds > 0.0 && r.transcriptionSeconds > 0.0 && r.peakResidentBytes > 0
  }

  lemma RatesInBounds(t: Totals, pin: Pin)
    requires t.words > 0 && t.found <= t.expected && pin.bytes > 0
    ensures ModelInBounds(ModelOf(t, pin)) <==> Measured(ModelOf(t, pin))
  {
    if t.expected > 0 {
      assert t.found as real <= t.expected as real;
    }
  }
}
