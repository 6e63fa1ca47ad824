/**
  Overlap scoring between a sense's glossary and the context (code.py,
  compute_overlap): the words the two token lists share, and how many there
  are. Tokens are compared by exact identity, and a token listed twice counts once.
 */
module Overlap {

  import opened Glossary

  /** The distinct tokens of a token list (Python's set(...)). */
  function TokenSet(ts: seq<Token>): set<Token>
  {
    set t | t in ts
  }

  /** A list has at least as many entries as it has distinct tokens. */
  lemma {:induction false} TokenSetBound(ts: seq<Token>)
    ensures |TokenSet(ts)| <= |ts|
  {
    if ts != [] {
      TokenSetBound(ts[1..]);
      assert TokenSet(ts) == {ts[0]} + TokenSet(ts[1..]);
    }
  }

  /** The pair compute_overlap returns: the overlap count and the overlapping words. */
  datatype OverlapResult = OverlapResult(count: nat, words: set<Token>)

  lemma IntersectionBound(a: set<Token>, b: set<Token>)
    ensures |a * b| <= |a| && |a * b| <= |b|
  {
    assert a == (a * b) + (a - b);
    assert b == (a * b) + (b - a);
  }

  /**
    compute_overlap: the shared tokens, and a count that is the size of that
    same set; neither side's repeated tokens can raise the count.
   */
  function ComputeOverlap(glossary: seq<Token>, sentence: seq<Token>): (r: OverlapResult)
    ensures forall t :: t in r.words <==> t in glossary && t in sentence
    ensures r.count == |r.words|
    ensures r.count <= |TokenSet(glossary)| && r.count <= |TokenSet(sentence)|
  {
    IntersectionBound(TokenSet(glossary), TokenSet(sentence));
    var count := |TokenSet(glossary) * TokenSet(sentence)|;
    var words := TokenSet(glossary) * TokenSet(sentence);
    OverlapResult(count, words)
  }

  /** The count never exceeds the length of either token list. */
  lemma OverlapBound(glossary: seq<Token>, sentence: seq<Token>)
    ensures ComputeOverlap(glossary, sentence).count <= |glossary|
    ensures ComputeOverlap(glossary, sentence).count <= |sentence|
  {
    TokenSetBound(glossary);
    TokenSetBound(sentence);
  }

  /** The result depends only on which tokens occur, not on their order or repetition. */
  lemma OverlapDependsOnlyOnOccurrence(g1: seq<Token>, g2: seq<Token>, c1: seq<Token>, c2: seq<Token>)
    requires forall t :: t in g1 <==> t in g2
    requires forall t :: t in c1 <==> t in c2
    ensures ComputeOverlap(g1, c1) == ComputeOverlap(g2, c2)
  {
    assert TokenSet(g1) == TokenSet(g2);
    assert TokenSet(c1) == TokenSet(c2);
  }

  /** A token already in the glossary, appended again, leaves the result unchanged. */
  lemma OverlapIgnoresDuplicates(glossary: seq<Token>, sentence: seq<Token>, t: Token)
    requires t in glossary
    ensures ComputeOverlap(glossary + [t], sentence) == ComputeOverlap(glossary, sentence)
  {
    OverlapDependsOnlyOnOccurrence(glossary + [t], glossary, sentence, sentence);
  }

  /** The overlap is the same whichever list is taken as the glossary. */
  lemma OverlapSymmetric(a: seq<Token>, b: seq<Token>)
    ensures ComputeOverlap(a, b) == ComputeOverlap(b, a)
  {
    assert TokenSet(a) * TokenSet(b) == TokenSet(b) * TokenSet(a);
  }
}
