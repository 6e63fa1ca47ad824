/**
  The glossary of a word sense: the token stream of its definition followed by
  the token streams of its usage examples, in example order (code.py,
  get_glossary). The lexical database and the tokenizer are outside the model:
  a sense carries its definition and examples as text, and the tokenizer is a
  function given by the caller, the same one that tokenizes the context.
 */
module Glossary {

  type Token = string

  /** One meaning of a word, as the lexical database catalogues it. */
  datatype Sense = Sense(name: string, definition: string, examples: seq<string>)

  /** Sum of the lengths of the token lists in `parts`. */
  function TotalLength(parts: seq<seq<Token>>): nat
  {
    if parts == [] then 0 else |parts[0]| + TotalLength(parts[1..])
  }

  /** Flattening of a list of token lists into one list (itertools.chain). */
  function Chain(parts: seq<seq<Token>>): (r: seq<Token>)
    ensures |r| == TotalLength(parts)
    ensures forall t :: t in r <==> exists i :: 0 <= i < |parts| && t in parts[i]
  {
    if parts == [] then []
    else
      var rest := Chain(parts[1..]);
      assert forall t :: t in rest <==> exists i :: 1 <= i < |parts| && t in parts[i] by {
        forall t | t in rest ensures exists i :: 1 <= i < |parts| && t in parts[i] {
          var i :| 0 <= i < |parts[1..]| && t in parts[1..][i];
          assert t in parts[i + 1];
        }
        forall t | exists i :: 1 <= i < |parts| && t in parts[i] ensures t in rest {
          var i :| 1 <= i < |parts| && t in parts[i];
          assert parts[1..][i - 1] == parts[i];
        }
      }
      parts[0] + rest
  }

  lemma {:induction false} ChainAppend(a: seq<seq<Token>>, b: seq<seq<Token>>)
    ensures Chain(a + b) == Chain(a) + Chain(b)
  {
    if a == [] {
      assert a + b == b;
    } else {
      assert (a + b)[0] == a[0];
      assert (a + b)[1..] == a[1..] + b;
      ChainAppend(a[1..], b);
    }
  }

  /** Chaining keeps every part, in order: part `i` sits right after the parts before it. */
  lemma ChainSlice(parts: seq<seq<Token>>, i: nat)
    requires i < |parts|
    ensures TotalLength(parts[..i]) + |parts[i]| <= |Chain(parts)|
    ensures Chain(parts)[TotalLength(parts[..i]) .. TotalLength(parts[..i]) + |parts[i]|] == parts[i]
  {
    var before, after := parts[..i], parts[i + 1..];
    assert parts == before + [parts[i]] + after;
    ChainAppend(before + [parts[i]], after);
    ChainAppend(before, [parts[i]]);
    assert Chain([parts[i]]) == parts[i] + Chain([]);
    assert Chain(parts) == Chain(before) + parts[i] + Chain(after);
  }

  /** The token list of every example, in example order. */
  function ExampleTokens(tokenize: string -> seq<Token>, examples: seq<string>): (r: seq<seq<Token>>)
    ensures |r| == |examples|
    ensures forall i :: 0 <= i < |examples| ==> r[i] == tokenize(examples[i])
  {
    seq(|examples|, i requires 0 <= i < |examples| => tokenize(examples[i]))
  }

  /** The lists that get_glossary collects before merging them: definition first, then each example. */
  function Parts(tokenize: string -> seq<Token>, s: Sense): seq<seq<Token>>
  {
    [tokenize(s.definition)] + ExampleTokens(tokenize, s.examples)
  }

  /** get_glossary: the definition's tokens followed by every example's tokens. No deduplication. */
  function GetGlossary(tokenize: string -> seq<Token>, s: Sense): (g: seq<Token>)
    ensures |g| == |tokenize(s.definition)| + TotalLength(ExampleTokens(tokenize, s.examples))
    ensures |tokenize(s.definition)| <= |g| && g[..|tokenize(s.definition)|] == tokenize(s.definition)
    ensures forall t :: t in g <==>
              t in tokenize(s.definition) || exists i :: 0 <= i < |s.examples| && t in tokenize(s.examples[i])
  {
    var parts := Parts(tokenize, s);
    var g := Chain(parts);
    ChainSlice(parts, 0);
    assert parts[..0] == [];
    forall t ensures t in g <==>
             t in tokenize(s.definition) || exists i :: 0 <= i < |s.examples| && t in tokenize(s.examples[i])
    {
      if t in g {
        var i :| 0 <= i < |parts| && t in parts[i];
        if i > 0 {
          assert parts[i] == tokenize(s.examples[i - 1]);
        }
      }
      if exists i :: 0 <= i < |s.examples| && t in tokenize(s.examples[i]) {
        var i :| 0 <= i < |s.examples| && t in tokenize(s.examples[i]);
        assert parts[i + 1] == tokenize(s.examples[i]);
      }
      if t in tokenize(s.definition) {
        assert t in parts[0];
      }
    }
    g
  }

  /** Example `i` contributes its tokens, unchanged, at the offset after the definition and the earlier examples. */
  lemma GlossaryExample(tokenize: string -> seq<Token>, s: Sense, i: nat)
    requires i < |s.examples|
    ensures var off := |tokenize(s.definition)| + TotalLength(ExampleTokens(tokenize, s.examples)[..i]);
            off + |tokenize(s.examples[i])| <= |GetGlossary(tokenize, s)| &&
            GetGlossary(tokenize, s)[off .. off + |tokenize(s.examples[i])|] == tokenize(s.examples[i])
  {
    var parts := Parts(tokenize, s);
    var ex := ExampleTokens(tokenize, s.examples);
    ChainSlice(parts, i + 1);
    assert parts[..i + 1] == [tokenize(s.definition)] + ex[..i];
    ChainAppend([tokenize(s.definition)], ex[..i]);
    assert Chain([tokenize(s.definition)]) == tokenize(s.definition) + Chain([]);
  }

  /** Adding one more example to a sense appends exactly that example's tokens to its glossary. */
  lemma GlossaryAddExample(tokenize: string -> seq<Token>, s: Sense, e: string)
    ensures GetGlossary(tokenize, s.(examples := s.examples + [e]))
         == GetGlossary(tokenize, s) + tokenize(e)
  {
    var s' := s.(examples := s.examples + [e]);
    assert Parts(tokenize, s') == Parts(tokenize, s) + [tokenize(e)];
    ChainAppend(Parts(tokenize, s), [tokenize(e)]);
    assert Chain([tokenize(e)]) == tokenize(e) + Chain([]);
  }
}
