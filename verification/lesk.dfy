/**
  Simplified Lesk (code.py, simplified_lesk): score every candidate sense of
  a word by the overlap of its glossary with the tokenized sentence, and keep
  the first sense that reaches the highest score. The running maximum starts
  at 0 and is replaced only by a strictly higher score, so ties go to the
  earlier sense, and when every score is 0 the first sense is chosen.
 */
module Lesk {

  import opened Glossary
  import opened Overlap

  /** The score of one sense: the overlap count of its glossary against the context. */
  function LeskScore(tokenize: string -> seq<Token>, context: seq<Token>): Sense -> nat
  {
    s => ComputeOverlap(GetGlossary(tokenize, s), context).count
  }

  /**
    A sense's score counts exactly the distinct context tokens that occur in
    its definition or in one of its examples, so it never exceeds the number
    of distinct tokens of the context.
   */
  lemma LeskScoreCounts(tokenize: string -> seq<Token>, context: seq<Token>, s: Sense)
    ensures var r := ComputeOverlap(GetGlossary(tokenize, s), context);
            && LeskScore(tokenize, context)(s) == |r.words|
            && (forall t :: t in r.words <==>
                  t in context &&
                  (t in tokenize(s.definition) || exists i :: 0 <= i < |s.examples| && t in tokenize(s.examples[i])))
    ensures LeskScore(tokenize, context)(s) <= |TokenSet(context)|
  {
  }

  /** The score of every candidate sense, in candidate order. */
  function Scores(score: Sense -> nat, senses: seq<Sense>): seq<nat>
  {
    seq(|senses|, i requires 0 <= i < |senses| => score(senses[i]))
  }

  /** Among the first `n` scores, `k` holds the highest one and no earlier score equals it. */
  ghost predicate FirstArgmaxOfPrefix(scores: seq<nat>, n: nat, k: nat)
  {
    && k < n <= |scores|
    && (forall j :: 0 <= j < n ==> scores[j] <= scores[k])
    && (forall j :: 0 <= j < k ==> scores[j] < scores[k])
  }

  ghost predicate IsFirstArgmax(scores: seq<nat>, k: nat)
  {
    FirstArgmaxOfPrefix(scores, |scores|, k)
  }

  /** There is only one first position of the maximum, so the choice is determined by the scores. */
  lemma FirstArgmaxUnique(scores: seq<nat>, a: nat, b: nat)
    requires IsFirstArgmax(scores, a) && IsFirstArgmax(scores, b)
    ensures a == b
  {
    assert scores[a] == scores[b];
  }

  /**
    Reference definition of the choice, scanning the scores from the last one
    back: the best of a longer list is the new last score if it beats the best
    of the shorter list, and the best of the shorter list otherwise.
   */
  function BestIndex(scores: seq<nat>): (k: nat)
    requires |scores| > 0
    ensures IsFirstArgmax(scores, k)
    decreases |scores|
  {
    if |scores| == 1 then 0
    else
      var prefix := scores[..|scores| - 1];
      var b := BestIndex(prefix);
      assert forall j :: 0 <= j < |prefix| ==> prefix[j] == scores[j];
      if scores[|scores| - 1] > scores[b] then |scores| - 1 else b
  }

  /**
    What the first position of the maximum guarantees about the choice: it is
    the reference choice, it is 0 when every score is 0, and a score strictly
    above all others is the one chosen.
   */
  lemma FirstArgmaxFacts(scores: seq<nat>, k: nat)
    requires IsFirstArgmax(scores, k)
    ensures k == BestIndex(scores)
    ensures (forall j :: 0 <= j < |scores| ==> scores[j] == 0) ==> k == 0
    ensures forall m :: 0 <= m < |scores| && (forall j :: 0 <= j < |scores| && j != m ==> scores[j] < scores[m])
              ==> k == m
  {
  }

  /**
    The for-loop of simplified_lesk over senses already retrieved, with the
    per-sense score (glossary, then overlap with the context) given as
    `score`. `index` is the position of the returned sense; the source keeps
    only the sense itself.
   */
  method SelectSense(senses: seq<Sense>, score: Sense -> nat) returns (best: Sense, index: nat)
    requires |senses| > 0
    ensures index < |senses| && best == senses[index]
    ensures best in senses
    ensures IsFirstArgmax(Scores(score, senses), index)
    ensures index == BestIndex(Scores(score, senses))
    ensures (forall j :: 0 <= j < |senses| ==> score(senses[j]) == 0) ==> best == senses[0]
  {
    ghost var scores := Scores(score, senses);
    best, index := senses[0], 0;
    var maxOverlap: nat := 0;
    var i := 0;
    while i < |senses|
      invariant 0 <= i <= |senses|
      invariant index < |senses| && best == senses[index]
      invariant i == 0 ==> index == 0 && maxOverlap == 0
      invariant i > 0 ==> FirstArgmaxOfPrefix(scores, i, index) && maxOverlap == scores[index]
    {
      var overlapCount := score(senses[i]);
      assert overlapCount == scores[i];
      if overlapCount > maxOverlap {
        maxOverlap := overlapCount;
        best, index := senses[i], i;
      }
      i := i + 1;
    }
    assert forall j :: 0 <= j < |senses| ==> scores[j] == score(senses[j]);
    FirstArgmaxFacts(scores, index);
  }

  /** Why no sense could be chosen. */
  datatype LeskError = NoSenses(word: string)

  datatype Result<T> = Success(value: T) | Failure(error: LeskError)

  /**
    simplified_lesk: look up the senses of `word`, tokenize the sentence with
    the same tokenizer the glossaries use, and select. A word with no senses
    makes the source fail reading the first candidate; here that is `NoSenses`.
   */
  method SimplifiedLesk(lexicon: string -> seq<Sense>, tokenize: string -> seq<Token>, word: string, sentence: string)
    returns (r: Result<Sense>)
    ensures r.Failure? <==> lexicon(word) == []
    ensures r.Failure? ==> r.error == NoSenses(word)
    ensures r.Success? ==> r.value in lexicon(word)
    ensures r.Success? ==>
              r.value == lexicon(word)[BestIndex(Scores(LeskScore(tokenize, tokenize(sentence)), lexicon(word)))]
    ensures r.Success? ==>
              (forall s :: s in lexicon(word) ==> LeskScore(tokenize, tokenize(sentence))(s) == 0) ==>
              r.value == lexicon(word)[0]
  {
    var senses := lexicon(word);
    if |senses| == 0 {
      return Failure(NoSenses(word));
    }
    var context := tokenize(sentence);
    var best, _ := SelectSense(senses, LeskScore(tokenize, context));
    r := Success(best);
  }
}
