# Simplified Lesk word-sense disambiguation, modelled in Dafny

The modelled program picks the intended meaning (sense) of a word in a
sentence with the Simplified Lesk heuristic. Each candidate sense has a
definition and usage examples. Its glossary is the token stream of the
definition followed by the token streams of the examples. A sense scores the
number of distinct tokens its glossary shares with the tokenized sentence.
The first sense with the highest score wins. A later sense replaces the
current best only when it scores strictly more than the running maximum,
which starts at 0. So ties go to the earlier sense, and when every sense
scores 0 the first sense is returned.

Files and modules:

- `glossary.dfy`, module `Glossary`: tokens, senses, flattening a list of
  token lists (`Chain`), and `GetGlossary`.
- `overlap.dfy`, module `Overlap`: the distinct-token set and
  `ComputeOverlap`.
- `lesk.dfy`, module `Lesk`: per-sense scores, the first-maximum choice
  (`IsFirstArgmax`, with `BestIndex` as an independent reference definition),
  the selection loop `SelectSense`, and the entry point `SimplifiedLesk`.

The lexical database and the tokenizer are parameters. A `Sense` carries its
name, definition text and example texts. `SimplifiedLesk` takes the word →
senses lookup as a function `lexicon`. It takes the tokenizer as a function
`tokenize`, and that same function tokenizes both the glossaries and the
sentence. In `SelectSense` the per-sense score is an argument `score`.
`SimplifiedLesk` passes `LeskScore(tokenize, context)`, which is the glossary
of the sense (code.py:69) scored by `ComputeOverlap` against the context
(code.py:72). Keeping the score abstract inside the loop proof keeps the loop
proof independent of how glossaries are built.

A word with no senses makes the source fail with an index error when it reads
the first candidate (code.py:60). The model returns `Failure(NoSenses(word))`
instead. `SelectSense`, like the loop itself, requires a non-empty list.

## Model

| member | source | states |
|---|---|---|
| Glossary.Chain | code.py:34-35 | merging the collected token lists gives a list whose length is the sum of their lengths, and a token occurs in it exactly when it occurs in one of the lists |
| Glossary.ChainAppend | code.py:34-35 | merging two groups of lists one after the other is the same as merging each group and concatenating the results |
| Glossary.ChainSlice | code.py:34-35 | every collected list appears unchanged in the merged list, at the offset given by the total length of the lists before it |
| Glossary.GetGlossary | code.py:17-36 | the glossary starts with the definition's tokens, its length is the definition's length plus every example's length, and it holds exactly the tokens of the definition and of the examples |
| Glossary.GlossaryExample | code.py:29-35 | example i's tokens sit unchanged right after the definition's tokens and the tokens of examples 0..i-1 |
| Glossary.GlossaryAddExample | code.py:29-35 | adding one more example to a sense appends exactly that example's tokens to its glossary |
| Overlap.TokenSetBound | code.py:47 | a token list has at least as many entries as distinct tokens |
| Overlap.ComputeOverlap | code.py:44-49 | the overlap words are exactly the tokens present in both lists, the count is the size of that set, and the count is at most the number of distinct tokens on either side |
| Overlap.OverlapBound | code.py:47 | the count never exceeds the length of either token list |
| Overlap.OverlapDependsOnlyOnOccurrence | code.py:47-48 | two glossaries with the same tokens, scored against two contexts with the same tokens, give the same count and words, whatever the order or repetition |
| Overlap.OverlapIgnoresDuplicates | code.py:47-48 | repeating a token that the glossary already holds changes neither the count nor the words |
| Overlap.OverlapSymmetric | code.py:47-48 | swapping glossary and sentence gives the same result |
| Lesk.LeskScoreCounts | code.py:69-72 | a sense's score is the number of distinct context tokens that occur in its definition or in one of its examples, and is at most the number of distinct context tokens |
| Lesk.FirstArgmaxUnique | code.py:78-80 | at most one position is both a maximum and earlier than every other maximum, so the scores alone decide the choice |
| Lesk.BestIndex | code.py:66-80 | the reference choice, built by extending the list one score at a time, is the first position of the maximum score |
| Lesk.FirstArgmaxFacts | code.py:60-80 | the first position of the maximum is the reference choice, is position 0 when every score is 0, and is the unique strict maximum when there is one |
| Lesk.SelectSense | code.py:60-82 | the loop returns a sense of the list, at the first position of the maximum score (the position the reference choice picks), and returns the first sense when every score is 0 |
| Lesk.SimplifiedLesk | code.py:56-82 | it fails exactly when the word has no senses; otherwise it returns one of the word's senses, the one at the first position of the maximum overlap between glossary and tokenized sentence, and the first sense when no sense overlaps the sentence at all |

## Left out

- Lexical database access (`wn.synsets`, `wn.synset(...).definition()`, `.examples()`, code.py:20, 23, 59): an external database. The model takes the senses with their definitions and examples as data and the word lookup as the `lexicon` argument.
- Looking a sense up again by its name (`wn.synset(senses[i].name())`, code.py:20, 23, 69): the model assumes the name leads back to the same sense and passes the sense itself.
- Tokenization (`word_tokenize`, code.py:28, 32, 64): a natural-language library. It is the `tokenize` argument, shared by glossary and context.
- The per-sense diagnostic lines and the final report (`print`, code.py:65, 75, 90-91) and the `__main__` driver with its fixed "bank" sentence (code.py:85-91): console I/O, and the expected outcome depends on the database's contents. The overlap words are computed by `ComputeOverlap`, but only the count takes part in the selection.
- Lesk.SelectSense: it takes the per-sense score as an argument and does not call the glossary and overlap functions inline as the loop body at code.py:69-72 does. `SimplifiedLesk` supplies exactly that composition as `LeskScore`.
