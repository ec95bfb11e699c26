/** `BasicTokenizer`: the vocabulary, with the inverse dictionary and the unknown id
    that `__init__` derives from it once; `encode` and `decode` loop over them and
    never change them. */
module Tokenizer {
  import opened Wrappers
  import Vocabulary
  import Segmenter
  import Encoder
  import Decoder

  class BasicTokenizer {
    const tokenIndex: map<string, int>
    const indexToken: map<int, string>
    const unknownId: Option<int>

    ghost predicate Valid() {
      Vocabulary.IsInverse(tokenIndex, indexToken) && unknownId == Vocabulary.UnknownId(tokenIndex)
    }

    /** `__init__` with the default split pattern. */
    constructor (tokenIndex: map<string, int>)
      requires Vocabulary.Injective(tokenIndex)
      ensures Valid()
      ensures this.tokenIndex == tokenIndex
      ensures forall t :: t in tokenIndex ==> indexToken[tokenIndex[t]] == t
      ensures indexToken.Keys == tokenIndex.Values
      ensures unknownId.Some? <==> Vocabulary.Unknown in tokenIndex
      ensures unknownId.Some? ==> unknownId.value == tokenIndex[Vocabulary.Unknown]
    {
      this.tokenIndex := tokenIndex;
      indexToken := Vocabulary.Invert(tokenIndex);
      unknownId := Vocabulary.UnknownId(tokenIndex);
    }

    /** `encode`: the ids of the tokens of `text`, never more of them than tokens, and
        exactly one per token when there is an unknown id. */
    method Encode(text: string) returns (ids: seq<int>)
      ensures ids == Encoder.EncodeTokens(tokenIndex, unknownId, Segmenter.Tokenize(text))
      ensures |ids| <= |Segmenter.Tokenize(text)|
      ensures unknownId.Some? ==> |ids| == |Segmenter.Tokenize(text)|
    {
      var tokens := Segmenter.Tokenize(text);
      ids := [];
      for i := 0 to |tokens|
        invariant ids == Encoder.EncodeTokens(tokenIndex, unknownId, tokens[..i])
      {
        var tok := tokens[i];
        ghost var before := ids;
        if tok in tokenIndex {
          ids := ids + [tokenIndex[tok]];
        } else if unknownId.Some? {
          ids := ids + [unknownId.value];
        }
        assert ids == before + Encoder.Emit(tokenIndex, unknownId, tok);
        assert tokens[..i + 1] == tokens[..i] + [tok];
        Encoder.EncodeSnoc(tokenIndex, unknownId, tokens[..i], tok);
      }
      assert tokens[..|tokens|] == tokens;
    }

    /** `decode`: the tokens of the known ids, joined by the spacing rule. */
    method Decode(ids: seq<int>) returns (output: string)
      ensures output == Decoder.Join(Decoder.Resolve(indexToken, ids))
    {
      var tokens := Decoder.Resolve(indexToken, ids);
      output := "";
      for i := 0 to |tokens|
        invariant output == Decoder.Join(tokens[..i])
      {
        var tok := tokens[i];
        if Decoder.IsAttachTight(tok) {
          output := output + tok;
        } else {
          if output != "" {
            output := output + " ";
          }
          output := output + tok;
        }
        assert tokens[..i + 1][..i] == tokens[..i];
      }
      assert tokens[..|tokens|] == tokens;
    }
  }

  /** When the vocabulary knows every token, the ids of `encode` resolve to exactly
      those tokens again, with or without an unknown id. */
  lemma {:induction false} ResolveEncoded(m: map<string, int>, inv: map<int, string>, unk: Option<int>, tokens: seq<string>)
    requires Vocabulary.IsInverse(m, inv)
    requires forall t :: t in tokens ==> t in m
    ensures Decoder.Resolve(inv, Encoder.EncodeTokens(m, unk, tokens)) == tokens
  {
    if tokens != [] {
      var ids := Encoder.EncodeTokens(m, unk, tokens);
      var rest := Encoder.EncodeTokens(m, unk, tokens[1..]);
      assert ids == [m[tokens[0]]] + rest;
      ResolveEncoded(m, inv, unk, tokens[1..]);
      Decoder.ResolveAppend(inv, [m[tokens[0]]], rest);
      assert [m[tokens[0]]][1..] == [];
      assert tokens == [tokens[0]] + tokens[1..];
    }
  }

  /** Decoding the encoding of a text whose tokens are all in the vocabulary gives the
      text's tokens joined by the spacing rule, which need not be the text itself. */
  lemma DecodeEncodedKnown(m: map<string, int>, inv: map<int, string>, unk: Option<int>, text: string)
    requires Vocabulary.IsInverse(m, inv)
    requires forall t :: t in Segmenter.Tokenize(text) ==> t in m
    ensures Decoder.Join(Decoder.Resolve(inv, Encoder.EncodeTokens(m, unk, Segmenter.Tokenize(text))))
         == Decoder.Join(Segmenter.Tokenize(text))
  {
    ResolveEncoded(m, inv, unk, Segmenter.Tokenize(text));
  }

  /** The sample question survives encoding and decoding when its tokens are all in
      the vocabulary. The sentence is the literal "Hello, how are you?", written in
      pieces so that the solver does not unfold the whole literal character by
      character. */
  lemma SampleQuestionRoundTrip(m: map<string, int>, inv: map<int, string>, unk: Option<int>)
    requires Vocabulary.IsInverse(m, inv)
    requires forall t :: t in ["Hello", ",", "how", "are", "you", "?"] ==> t in m
    ensures var text := "Hello" + ", " + "how" + " " + "are" + " " + "you" + "?";
            Decoder.Join(Decoder.Resolve(inv, Encoder.EncodeTokens(m, unk, Segmenter.Tokenize(text)))) == text
  {
    var text := "Hello" + ", " + "how" + " " + "are" + " " + "you" + "?";
    Segmenter.TokenizeSampleQuestion();
    Decoder.JoinSampleQuestion();
    DecodeEncodedKnown(m, inv, unk, text);
  }
}
