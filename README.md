# BasicTokenizer, modelled in Dafny

This project models the word-level tokenizer of `Building-Our-First-Tokenizer-from-Scratch.py`.
It covers four parts:

- **Vocabulary construction.** The script splits a corpus, keeps the distinct tokens in sorted
  order, appends the markers `<|endoftext|>` and `<|unk|>`, and numbers them with `enumerate`.
- **`BasicTokenizer.__init__`.** It keeps that token-to-id dictionary, derives the id-to-token
  dictionary, and looks up the optional id of `<|unk|>`.
- **`_tokenize`.** It splits text at the pattern `([,.:;?_!"'()]|--|\s)` and keeps each match as
  a piece. It then strips every piece and drops the empty ones.
- **`encode` and `decode`.** `encode` gives per token its id, else the unknown id, else nothing.
  `decode` skips unknown ids and joins the tokens with a space before every token that is not
  made only of punctuation, except at the start.

Modules, one per component:

- `Text`: the whitespace class (every character Python counts as whitespace, including the
  separators U+001C to U+001F and the Unicode spaces), `str.strip()`, concatenation.
- `Segmenter`: `re.split` with the default pattern, written as a left-to-right scan over the
  characters, then the strip-and-filter comprehension.
- `Vocabulary`: Python's string order, `sorted(list(set(...)))`, the `enumerate` dictionary,
  the inverse dictionary, `dict.get` for the unknown id.
- `Encoder` and `Decoder`: the functions that specify `encode` and `decode`, with their lemmas.
- `Tokenizer`: the class `BasicTokenizer`. Its fields are constants, because `__init__` assigns
  them once and nothing changes them afterwards. `Encode` and `Decode` are methods with the
  source's loops, proved equal to the `Encoder` and `Decoder` functions.

Three details of the split pattern and the vocabulary script:

- The pattern's `\s` matches one whitespace character, not a run. A run gives empty pieces
  between its characters, which the filter drops, so the tokens are the same.
- Single punctuation is listed before `--` in the alternation. The two never match at the same
  place, so the order does not matter.
- A corpus containing `<|unk|>` or `<|endoftext|>` lists that marker twice in `all_tokens`. The
  dictionary keeps the later position, so the ids are no longer contiguous. Distinct tokens
  still get distinct ids (`Vocabulary.Enumerate`, `Vocabulary.EnumerateInjective`).

## Model

| member | source | states |
|---|---|---|
| `Text.StripSpec` | Building-Our-First-Tokenizer-from-Scratch.py:41 | `strip()` returns the middle of the string once a whitespace prefix and a whitespace suffix are cut off, and the result neither starts nor ends with whitespace |
| `Text.StripStartSpec` | Building-Our-First-Tokenizer-from-Scratch.py:41 | stripping on the left removes exactly a whitespace prefix and stops at the first other character |
| `Text.StripEndSpec` | Building-Our-First-Tokenizer-from-Scratch.py:41 | stripping on the right removes exactly a whitespace suffix and stops at the last other character |
| `Segmenter.DelimiterLength` | Building-Our-First-Tokenizer-from-Scratch.py:25 | the pattern matches two characters exactly at `--`, one character exactly at a punctuation or whitespace character, and nothing else (a lone `-` does not match) |
| `Segmenter.DelimiterLengthAppend` | Building-Our-First-Tokenizer-from-Scratch.py:25 | what follows a text changes the match at its start only when a `-` ends the text and another `-` follows |
| `Segmenter.SplitConcatNoMatch` | Building-Our-First-Tokenizer-from-Scratch.py:40 | where nothing matches, the scan moves one character into the open stretch and loses nothing |
| `Segmenter.SplitConcatMatch` | Building-Our-First-Tokenizer-from-Scratch.py:40 | where a match starts, the open stretch and the match become two pieces and the rest is scanned afresh, losing nothing |
| `Segmenter.SplitConcat` | Building-Our-First-Tokenizer-from-Scratch.py:40 | `re.split` with a capturing group loses nothing: its pieces joined in order give back the input |
| `Segmenter.SplitPieces` | Building-Our-First-Tokenizer-from-Scratch.py:40 | every piece of the split is a match (`--`, one punctuation or one whitespace character) or a stretch with no whitespace, no punctuation and no `--` |
| `Segmenter.SplitAtDelimiterFrom` | Building-Our-First-Tokenizer-from-Scratch.py:40 | with any stretch left open before it, the scan of `a + d + b` for a delimiter `d` is the scan of `a`, then `d` as a piece of its own, then the scan of `b` started afresh (a `--` right after a `-` is excluded) |
| `Segmenter.DelimiterAhead` | Building-Our-First-Tokenizer-from-Scratch.py:40 | a delimiter later in the text does not change the match at its start, unless it is `--` right after a `-` |
| `Segmenter.SplitOfSpan` | Building-Our-First-Tokenizer-from-Scratch.py:40 | a stretch without delimiters is never cut |
| `Segmenter.SplitAtDelimiter` | Building-Our-First-Tokenizer-from-Scratch.py:40 | a delimiter closes the piece before it, is a piece of its own, and the split starts afresh after it |
| `Segmenter.CleanAtDelimiter` | Building-Our-First-Tokenizer-from-Scratch.py:41 | around a delimiter piece, the strip-and-filter comprehension keeps the pieces before, the delimiter unless it is whitespace, and the pieces after |
| `Segmenter.StripPiece` | Building-Our-First-Tokenizer-from-Scratch.py:41 | stripping a piece of the split deletes exactly its whitespace, and what is left, if anything, is a token |
| `Segmenter.CleanAppend` | Building-Our-First-Tokenizer-from-Scratch.py:41 | the strip-and-filter comprehension works piece by piece over a concatenation |
| `Segmenter.CleanSingle` | Building-Our-First-Tokenizer-from-Scratch.py:41 | one piece gives its stripped form, or nothing when that is empty |
| `Segmenter.CleanConcat` | Building-Our-First-Tokenizer-from-Scratch.py:41 | over the pieces of the split, the comprehension keeps exactly the non-whitespace characters in order |
| `Segmenter.CleanTokens` | Building-Our-First-Tokenizer-from-Scratch.py:41 | over the pieces of the split, the comprehension yields only tokens |
| `Segmenter.Tokenize` | Building-Our-First-Tokenizer-from-Scratch.py:38-41 | every token is `--`, one punctuation character, or a non-empty stretch without whitespace, punctuation or `--`; the tokens joined in order are the input with its whitespace removed |
| `Segmenter.TokensAreNonEmptyWithoutWhitespace` | Building-Our-First-Tokenizer-from-Scratch.py:41 | no token is empty and none holds whitespace |
| `Segmenter.TokenizeSpan` | Building-Our-First-Tokenizer-from-Scratch.py:40-41 | a text without delimiters is one token, or none when it is empty |
| `Segmenter.TokenizeAtDelimiter` | Building-Our-First-Tokenizer-from-Scratch.py:40-41 | at every delimiter the text before and the text after tokenize independently; between them `--` and each punctuation character are a token of their own, and whitespace leaves none (a `--` right after a `-` is excluded, since the match starts one character earlier there) |
| `Segmenter.TokenizeEmpty` | Building-Our-First-Tokenizer-from-Scratch.py:40-41 | empty input gives no tokens |
| `Segmenter.DoubleDashDelimiter` | Building-Our-First-Tokenizer-from-Scratch.py:25 | `--` is a match of the pattern and is not whitespace, so it survives the filter |
| `Segmenter.DashWord` | Building-Our-First-Tokenizer-from-Scratch.py:25 | a lone `-` does not match, so a dash in front of a word is part of the stretch |
| `Segmenter.TokenizeDoubleDash` | Building-Our-First-Tokenizer-from-Scratch.py:40-41 | `--` between two words is one token: `x--y` gives `[x, "--", y]` |
| `Segmenter.TokenizeTripleDash` | Building-Our-First-Tokenizer-from-Scratch.py:40-41 | of `---` the first two dashes make `--` and the third stays attached: `x---y` gives `[x, "--", "-y"]` |
| `Segmenter.TokenizeWordThen` | Building-Our-First-Tokenizer-from-Scratch.py:40-41 | a word followed by a one-character delimiter gives the word, then the delimiter unless it is whitespace, then the tokens of the rest |
| `Segmenter.TokenizeWordQuestion` | Building-Our-First-Tokenizer-from-Scratch.py:40-41 | a word and `?` give `[w, "?"]` |
| `Segmenter.TokenizeWordSpace` | Building-Our-First-Tokenizer-from-Scratch.py:40-41 | a word and a space give the word and then the tokens of the rest: the space leaves no token |
| `Segmenter.TokenizeLeadingSpace` | Building-Our-First-Tokenizer-from-Scratch.py:40-41 | a leading space leaves no token: ` x` tokenizes like `x` |
| `Segmenter.TokenizeWordComma` | Building-Our-First-Tokenizer-from-Scratch.py:40-41 | a word, a comma and a space give the word and `,`, then the tokens of the rest |
| `Segmenter.TokenizeTwoWords` | Building-Our-First-Tokenizer-from-Scratch.py:40-41 | `w3 w4?` gives `[w3, w4, "?"]` |
| `Segmenter.TokenizeThreeWords` | Building-Our-First-Tokenizer-from-Scratch.py:40-41 | `w2 w3 w4?` gives `[w2, w3, w4, "?"]` |
| `Segmenter.TokenizeQuestion` | Building-Our-First-Tokenizer-from-Scratch.py:40-41 | for any four words, `w1, w2 w3 w4?` gives `[w1, ",", w2, w3, w4, "?"]` |
| `Segmenter.SampleWords` | Building-Our-First-Tokenizer-from-Scratch.py:86 | the words of the sample question contain no whitespace, punctuation or `--` |
| `Segmenter.TokenizeSampleQuestion` | Building-Our-First-Tokenizer-from-Scratch.py:86-90 | `Hello, how are you?` gives `["Hello", ",", "how", "are", "you", "?"]` |
| `Segmenter.TokenizeSeparator` | Building-Our-First-Tokenizer-from-Scratch.py:40-41 | whitespace is Python's whitespace, not only ASCII's: `a`, U+001C, `b` gives `["a", "b"]` |
| `Segmenter.TokenizeSampleDashes` | Building-Our-First-Tokenizer-from-Scratch.py:40-41 | `a--b` gives `["a", "--", "b"]` and `a---b` gives `["a", "--", "-b"]` |
| `Vocabulary.BelowIrreflexive` | Building-Our-First-Tokenizer-from-Scratch.py:12 | no string sorts before itself |
| `Vocabulary.BelowTransitive` | Building-Our-First-Tokenizer-from-Scratch.py:12 | the string order is transitive |
| `Vocabulary.BelowTotal` | Building-Our-First-Tokenizer-from-Scratch.py:12 | of two different strings one sorts before the other |
| `Vocabulary.BelowAsymmetric` | Building-Our-First-Tokenizer-from-Scratch.py:12 | two strings never sort before each other |
| `Vocabulary.InsertSpec` | Building-Our-First-Tokenizer-from-Scratch.py:12 | inserting into a strictly sorted list keeps it strictly sorted and adds exactly the new token |
| `Vocabulary.SortedUnique` | Building-Our-First-Tokenizer-from-Scratch.py:12 | `sorted(list(set(tokens)))` is strictly increasing (so without repetitions) and holds exactly the tokens of the input |
| `Vocabulary.StrictlySortedUnique` | Building-Our-First-Tokenizer-from-Scratch.py:12 | two strictly sorted lists with the same elements are equal, so the order in which the set hands out its tokens does not matter |
| `Vocabulary.TailMember` | Building-Our-First-Tokenizer-from-Scratch.py:12 | two strictly sorted lists with the same elements and the same head have the same elements after the head |
| `Vocabulary.EnumerationSnoc` | Building-Our-First-Tokenizer-from-Scratch.py:15 | listing one more token sets its entry to the new last position and keeps the numbering exact: keys are the listed tokens, each at a position where it stands, the last one |
| `Vocabulary.Enumerate` | Building-Our-First-Tokenizer-from-Scratch.py:15 | the dictionary holds exactly the listed tokens; each maps to a position where it stands, and to the last such position |
| `Vocabulary.EnumerateInjective` | Building-Our-First-Tokenizer-from-Scratch.py:15 | the dictionary built by `enumerate` gives distinct tokens distinct ids |
| `Vocabulary.EnumerateDistinct` | Building-Our-First-Tokenizer-from-Scratch.py:15 | in a list without repetitions every token's id is its position |
| `Vocabulary.EnumerateLastTwo` | Building-Our-First-Tokenizer-from-Scratch.py:13-15 | two different tokens at the end of the list keep their own positions, whatever came before them |
| `Vocabulary.Invert` | Building-Our-First-Tokenizer-from-Scratch.py:31 | the id-to-token dictionary is the exact inverse: `index_token[token_index[t]] == t` for every key, and its keys are exactly the ids |
| `Vocabulary.BuildVocabKeys` | Building-Our-First-Tokenizer-from-Scratch.py:12-15 | the built vocabulary holds exactly the corpus tokens and the two markers; `<|endoftext|>` and `<|unk|>` take the last two ids, so the unknown id is defined and is the last id |
| `Vocabulary.AllTokensDistinct` | Building-Our-First-Tokenizer-from-Scratch.py:12-13 | without a marker in the corpus, `all_tokens` has no repetitions |
| `Vocabulary.BuildVocabRanks` | Building-Our-First-Tokenizer-from-Scratch.py:12-15 | without a marker in the corpus, every corpus token's id is its rank in sorted order |
| `Encoder.EncodeTokens` | Building-Our-First-Tokenizer-from-Scratch.py:46-53 | the output is never longer than the token list, and exactly as long when an unknown id is defined |
| `Encoder.EncodeAppend` | Building-Our-First-Tokenizer-from-Scratch.py:47-53 | encoding works token by token: the ids of a concatenation are the concatenated ids |
| `Encoder.EncodeCons` | Building-Our-First-Tokenizer-from-Scratch.py:47-52 | the first token is encoded first, whatever follows it |
| `Encoder.EncodeSnoc` | Building-Our-First-Tokenizer-from-Scratch.py:47-52 | one more token appends its id, or the unknown id, or nothing, to the ids so far |
| `Encoder.EncodeWithUnknown` | Building-Our-First-Tokenizer-from-Scratch.py:48-51 | with an unknown id, position `i` holds the id of token `i` if it is in the vocabulary and the unknown id otherwise |
| `Encoder.EncodeWithoutUnknown` | Building-Our-First-Tokenizer-from-Scratch.py:48-52 | without an unknown id, out-of-vocabulary tokens are dropped and the output is the ids of the known tokens, in order |
| `Encoder.EncodeDropShortens` | Building-Our-First-Tokenizer-from-Scratch.py:50-52 | without an unknown id, one out-of-vocabulary token makes the output strictly shorter than the token list, and this is not an error |
| `Encoder.EncodeAllKnown` | Building-Our-First-Tokenizer-from-Scratch.py:48-49 | when every token is in the vocabulary, token `i` becomes `token_index[tokens[i]]`, with or without an unknown id |
| `Encoder.EncodeUnknownExample` | Building-Our-First-Tokenizer-from-Scratch.py:50-51 | with `<|unk|>` at 99 and no `zzz`, `["zzz"]` encodes to `[99]` |
| `Decoder.Resolve` | Building-Our-First-Tokenizer-from-Scratch.py:57 | resolving never gives more tokens than ids |
| `Decoder.ResolveAppend` | Building-Our-First-Tokenizer-from-Scratch.py:57 | ids resolve one by one: the tokens of a concatenation are the concatenated tokens |
| `Decoder.ResolveKnown` | Building-Our-First-Tokenizer-from-Scratch.py:57 | ids that are not keys of `index_token` are skipped; the tokens are those of the known ids, one each, in order |
| `Decoder.ResolveSkipExample` | Building-Our-First-Tokenizer-from-Scratch.py:57 | `[0, 9999]` with 9999 unknown resolves only id 0 |
| `Decoder.JoinEmpty` | Building-Our-First-Tokenizer-from-Scratch.py:58-67 | the output is empty exactly when every resolved token is empty |
| `Decoder.StepAppends` | Building-Our-First-Tokenizer-from-Scratch.py:61-67 | one turn of the loop appends the token behind no gap when it is punctuation only or the output is still empty, and behind one space otherwise |
| `Decoder.JoinSnoc` | Building-Our-First-Tokenizer-from-Scratch.py:59-67 | one more token is one more turn of the loop |
| `Decoder.JoinFrontEmpty` | Building-Our-First-Tokenizer-from-Scratch.py:65 | before the last turn the output is empty exactly when no earlier token holds text |
| `Decoder.StepGap` | Building-Our-First-Tokenizer-from-Scratch.py:59-67 | the last turn appends the last token's gap and the token |
| `Decoder.JoinSpaced` | Building-Our-First-Tokenizer-from-Scratch.py:58-69 | the output is the tokens in order, each preceded by one space when it is not punctuation only and some earlier token is non-empty, and by nothing otherwise |
| `Decoder.JoinStartsWithFirst` | Building-Our-First-Tokenizer-from-Scratch.py:64-67 | the output begins with the first token: the loop never adds a leading space |
| `Decoder.JoinLength` | Building-Our-First-Tokenizer-from-Scratch.py:59-67 | with non-empty tokens, the output is the tokens' total length plus one space for each later token that is not punctuation only |
| `Decoder.JoinFirst` | Building-Our-First-Tokenizer-from-Scratch.py:64-67 | a single token comes out unchanged |
| `Decoder.JoinWord` | Building-Our-First-Tokenizer-from-Scratch.py:64-67 | a word after non-empty output gets exactly one space in front of it |
| `Decoder.JoinTight` | Building-Our-First-Tokenizer-from-Scratch.py:61-62 | punctuation only is appended without a space |
| `Decoder.JoinQuestion` | Building-Our-First-Tokenizer-from-Scratch.py:59-67 | `[w1, ",", w2, w3, w4, "?"]` decodes to `w1, w2 w3 w4?` for words that are not punctuation |
| `Decoder.JoinSampleQuestion` | Building-Our-First-Tokenizer-from-Scratch.py:59-67 | `["Hello", ",", "how", "are", "you", "?"]` decodes to `Hello, how are you?` |
| `Tokenizer.BasicTokenizer.constructor` | Building-Our-First-Tokenizer-from-Scratch.py:22-36 | keeps the vocabulary, builds its exact inverse, and sets the unknown id exactly when `<|unk|>` is a key, to that key's id |
| `Tokenizer.BasicTokenizer.Encode` | Building-Our-First-Tokenizer-from-Scratch.py:43-53 | the loop appends exactly the ids `Encoder.EncodeTokens` gives for the tokens of the text, so at most one per token and exactly one per token when an unknown id is defined |
| `Tokenizer.BasicTokenizer.Decode` | Building-Our-First-Tokenizer-from-Scratch.py:55-69 | the loop builds exactly `Decoder.Join` of the resolved tokens |
| `Tokenizer.ResolveEncoded` | Building-Our-First-Tokenizer-from-Scratch.py:47-57 | when the vocabulary knows every token, the ids of `encode` resolve back to exactly those tokens |
| `Tokenizer.DecodeEncodedKnown` | Building-Our-First-Tokenizer-from-Scratch.py:43-69 | decoding the encoding of a text whose tokens are all known gives the text's tokens joined by the spacing rule, which need not be the text |
| `Tokenizer.SampleQuestionRoundTrip` | Building-Our-First-Tokenizer-from-Scratch.py:86-97 | `Hello, how are you?` survives encoding and decoding when all its tokens are in the vocabulary |

## Left out

- Printing and the demo driver at module level (lines 5, 17-18, 72-97) are I/O and sample data.
  Only the sample question's tokens and spacing are stated, as lemmas.
- The `rejoin_pattern` parameter and field (lines 26, 34) are stored but never used.
- The `split_pattern` parameter: only the default pattern is modelled, as an explicit scan.
  The `re` library is not modelled.
- Tokenizer.BasicTokenizer.constructor: requires a dictionary that gives distinct tokens
  distinct ids. For one that does not, Python keeps, per id, the token inserted last. That
  depends on dictionary insertion order, which a Dafny map does not have. Every vocabulary the
  script builds meets the requirement (`Vocabulary.EnumerateInjective`).
- The tokenizer holds the vocabulary as a value. Python holds a reference to the caller's
  dictionary, so later changes by the caller would show through; the source makes none.
- A general round trip from `encode` to `decode` is not stated, because the source does not
  promise one. Only `Tokenizer.DecodeEncodedKnown` and the sample question are stated.
