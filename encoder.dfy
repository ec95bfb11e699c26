/** What `BasicTokenizer.encode` computes from the tokens of its text: per token, its
    id if the vocabulary has it, else the unknown id if there is one, else nothing. */
module Encoder {
  import opened Wrappers
  import Vocabulary

  /** What the loop of `encode` appends for one token. */
  function Emit(m: map<string, int>, unk: Option<int>, t: string): seq<int> {
    if t in m then [m[t]] else if unk.Some? then [unk.value] else []
  }

  function EncodeTokens(m: map<string, int>, unk: Option<int>, tokens: seq<string>): (ids: seq<int>)
    ensures |ids| <= |tokens|
    ensures unk.Some? ==> |ids| == |tokens|
  {
    if tokens == [] then [] else Emit(m, unk, tokens[0]) + EncodeTokens(m, unk, tokens[1..])
  }

  /** The first token is encoded first, whatever follows it. */
  lemma EncodeCons(m: map<string, int>, unk: Option<int>, a: seq<string>, b: seq<string>)
    requires a != []
    ensures EncodeTokens(m, unk, a + b) == Emit(m, unk, a[0]) + EncodeTokens(m, unk, a[1..] + b)
  {
    assert (a + b)[0] == a[0];
    assert (a + b)[1..] == a[1..] + b;
  }

  /** Solver aid, no content about the tokenizer: concatenation is associative. */
  lemma AppendAssoc(x: seq<int>, y: seq<int>, z: seq<int>)
    ensures x + (y + z) == x + y + z
  {
  }

  /** Encoding works token by token: the ids of a concatenation are the concatenated ids. */
  lemma {:induction false} EncodeAppend(m: map<string, int>, unk: Option<int>, a: seq<string>, b: seq<string>)
    ensures EncodeTokens(m, unk, a + b) == EncodeTokens(m, unk, a) + EncodeTokens(m, unk, b)
  {
    if a == [] {
      assert a + b == b;
    } else {
      EncodeCons(m, unk, a, b);
      EncodeAppend(m, unk, a[1..], b);
      AppendAssoc(Emit(m, unk, a[0]), EncodeTokens(m, unk, a[1..]), EncodeTokens(m, unk, b));
    }
  }

  /** One more token appends what the loop of `encode` appends for it. */
  lemma EncodeSnoc(m: map<string, int>, unk: Option<int>, tokens: seq<string>, t: string)
    ensures EncodeTokens(m, unk, tokens + [t]) == EncodeTokens(m, unk, tokens) + Emit(m, unk, t)
  {
    EncodeAppend(m, unk, tokens, [t]);
    assert [t][1..] == [];
    assert Emit(m, unk, t) + [] == Emit(m, unk, t);
  }

  /** With an unknown id every token gives exactly one id, in order: its own id if it
      is in the vocabulary and the unknown id otherwise. */
  lemma {:induction false} EncodeWithUnknown(m: map<string, int>, unk: Option<int>, tokens: seq<string>)
    requires unk.Some?
    ensures var ids := EncodeTokens(m, unk, tokens);
            |ids| == |tokens| &&
            forall i :: 0 <= i < |tokens| ==>
              ids[i] == if tokens[i] in m then m[tokens[i]] else unk.value
  {
    if tokens != [] {
      EncodeWithUnknown(m, unk, tokens[1..]);
      var ids := EncodeTokens(m, unk, tokens);
      forall i | 0 < i < |tokens|
        ensures ids[i] == if tokens[i] in m then m[tokens[i]] else unk.value
      {
        assert tokens[1..][i - 1] == tokens[i];
      }
    }
  }

  /** The tokens the vocabulary knows, in their order. */
  function Known(m: map<string, int>, tokens: seq<string>): (known: seq<string>)
    ensures forall t :: t in known ==> t in m
  {
    if tokens == [] then []
    else (if tokens[0] in m then [tokens[0]] else []) + Known(m, tokens[1..])
  }

  /** Without an unknown id the unknown tokens are dropped: the result is the ids of the
      known tokens, in order. */
  lemma {:induction false} EncodeWithoutUnknown(m: map<string, int>, tokens: seq<string>)
    ensures var known := Known(m, tokens);
            EncodeTokens(m, None, tokens) == seq(|known|, i requires 0 <= i < |known| => m[known[i]])
  {
    if tokens != [] {
      EncodeWithoutUnknown(m, tokens[1..]);
      var known, rest := Known(m, tokens), Known(m, tokens[1..]);
      var ids := EncodeTokens(m, None, tokens);
      if tokens[0] in m {
        assert known == [tokens[0]] + rest;
        assert ids == [m[tokens[0]]] + EncodeTokens(m, None, tokens[1..]);
      } else {
        assert known == rest;
      }
    }
  }

  /** Without an unknown id an unknown token makes the result strictly shorter. */
  lemma {:induction false} EncodeDropShortens(m: map<string, int>, tokens: seq<string>, k: nat)
    requires k < |tokens| && tokens[k] !in m
    ensures |EncodeTokens(m, None, tokens)| < |tokens|
  {
    if k > 0 {
      assert tokens[1..][k - 1] == tokens[k];
      EncodeDropShortens(m, tokens[1..], k - 1);
    }
  }

  /** When the vocabulary knows every token, each token becomes its own id, whether or
      not there is an unknown id. */
  lemma {:induction false} EncodeAllKnown(m: map<string, int>, unk: Option<int>, tokens: seq<string>)
    requires forall t :: t in tokens ==> t in m
    ensures EncodeTokens(m, unk, tokens) == seq(|tokens|, i requires 0 <= i < |tokens| => m[tokens[i]])
  {
    if tokens != [] {
      EncodeAllKnown(m, unk, tokens[1..]);
    }
  }

  /** A vocabulary with `<|unk|>` at 99 and without `zzz` encodes `["zzz"]` as `[99]`. */
  lemma EncodeUnknownExample(m: map<string, int>)
    requires "<|unk|>" in m && m["<|unk|>"] == 99 && "zzz" !in m
    ensures EncodeTokens(m, Vocabulary.UnknownId(m), ["zzz"]) == [99]
  {
    assert ["zzz"][1..] == [];
  }
}
