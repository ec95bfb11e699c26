/** What `BasicTokenizer.decode` computes: the tokens of the ids the inverse
    dictionary knows, joined with one space before every token that is not made of
    punctuation only, except at the very start. */
module Decoder {
  import opened Text

  /** The list comprehension of `decode`: the token of every id that the inverse
      dictionary holds, in order; other ids are skipped. */
  function Resolve(inv: map<int, string>, ids: seq<int>): (tokens: seq<string>)
    ensures |tokens| <= |ids|
  {
    if ids == [] then []
    else (if ids[0] in inv then [inv[ids[0]]] else []) + Resolve(inv, ids[1..])
  }

  /** The ids the inverse dictionary knows, in their order. */
  function KnownIds(inv: map<int, string>, ids: seq<int>): (known: seq<int>)
    ensures forall i :: i in known ==> i in inv
  {
    if ids == [] then []
    else (if ids[0] in inv then [ids[0]] else []) + KnownIds(inv, ids[1..])
  }

  lemma {:induction false} ResolveAppend(inv: map<int, string>, a: seq<int>, b: seq<int>)
    ensures Resolve(inv, a + b) == Resolve(inv, a) + Resolve(inv, b)
  {
    if a == [] {
      assert a + b == b;
    } else {
      assert (a + b)[1..] == a[1..] + b;
      ResolveAppend(inv, a[1..], b);
    }
  }

  /** Unknown ids are skipped and never an error: the tokens are those of the known
      ids, one each, in order. */
  lemma {:induction false} ResolveKnown(inv: map<int, string>, ids: seq<int>)
    ensures var known := KnownIds(inv, ids);
            Resolve(inv, ids) == seq(|known|, k requires 0 <= k < |known| => inv[known[k]])
  {
    if ids != [] {
      ResolveKnown(inv, ids[1..]);
      var known, rest := KnownIds(inv, ids), KnownIds(inv, ids[1..]);
      if ids[0] in inv {
        assert known == [ids[0]] + rest;
      } else {
        assert known == rest;
      }
    }
  }

  /** `[0, 9999]` with 9999 unknown resolves only 0. */
  lemma ResolveSkipExample(inv: map<int, string>)
    requires 0 in inv && 9999 !in inv
    ensures Resolve(inv, [0, 9999]) == [inv[0]]
  {
    assert [0, 9999][1..] == [9999];
    assert [9999][1..] == [];
  }

  /** The characters of the decoder's punctuation class: those of the split pattern,
      the hyphen and the en dash. */
  predicate IsTightChar(c: char) {
    || c == ',' || c == '.' || c == ':' || c == ';' || c == '?' || c == '_'
    || c == '!' || c == '"' || c == '\'' || c == '(' || c == ')' || c == '-' || c == '–'
  }

  /** The full-match test of `decode`: the token is one or more characters of the
      decoder's punctuation class. */
  predicate IsAttachTight(tok: string) {
    tok != [] && forall i :: 0 <= i < |tok| ==> IsTightChar(tok[i])
  }

  /** One turn of the loop of `decode`. */
  function Step(output: string, tok: string): string {
    if IsAttachTight(tok) then output + tok
    else if output != [] then output + " " + tok
    else output + tok
  }

  /** The loop of `decode` over the resolved tokens. */
  function Join(tokens: seq<string>): string {
    if tokens == [] then [] else Step(Join(tokens[..|tokens| - 1]), tokens[|tokens| - 1])
  }

  /** Some token before position `i` is not empty. */
  predicate HasTextBefore(tokens: seq<string>, i: int) {
    exists j :: 0 <= j < i && j < |tokens| && tokens[j] != []
  }

  /** What the loop puts before the token at position `i`: one space when the token is
      not punctuation only and something non-empty came before it, otherwise nothing. */
  function Gap(tokens: seq<string>, i: int): string
    requires 0 <= i < |tokens|
  {
    if !IsAttachTight(tokens[i]) && HasTextBefore(tokens, i) then " " else ""
  }

  /** Every token with the gap in front of it. */
  function Spaced(tokens: seq<string>): (pieces: seq<string>)
    ensures |pieces| == |tokens|
  {
    seq(|tokens|, i requires 0 <= i < |tokens| => Gap(tokens, i) + tokens[i])
  }

  /** The output stays empty exactly as long as every token has been empty. */
  lemma {:induction false} JoinEmpty(tokens: seq<string>)
    ensures Join(tokens) == [] <==> !HasTextBefore(tokens, |tokens|)
  {
    if tokens != [] {
      var front := tokens[..|tokens| - 1];
      JoinEmpty(front);
      if HasTextBefore(front, |front|) {
        var j :| 0 <= j < |front| && front[j] != [];
        assert tokens[j] != [];
      }
      if HasTextBefore(tokens, |tokens|) {
        var j :| 0 <= j < |tokens| && tokens[j] != [];
        if j < |front| {
          assert front[j] != [];
        }
      }
    }
  }

  /** Dropping the last token does not change what came before an earlier position. */
  lemma HasTextBeforeFront(tokens: seq<string>, i: int)
    requires 0 <= i < |tokens|
    ensures HasTextBefore(tokens, i) == HasTextBefore(tokens[..|tokens| - 1], i)
  {
    var front := tokens[..|tokens| - 1];
    if HasTextBefore(tokens, i) {
      var j :| 0 <= j < i && j < |tokens| && tokens[j] != [];
      assert front[j] != [];
    }
    if HasTextBefore(front, i) {
      var j :| 0 <= j < i && j < |front| && front[j] != [];
      assert tokens[j] != [];
    }
  }

  /** Dropping the last token keeps the gaps of the tokens before it. */
  lemma SpacedFront(tokens: seq<string>)
    requires tokens != []
    ensures var n := |tokens|;
            Spaced(tokens) == Spaced(tokens[..n - 1]) + [Gap(tokens, n - 1) + tokens[n - 1]]
  {
    var n := |tokens|;
    var front := tokens[..n - 1];
    forall i | 0 <= i < n - 1
      ensures Gap(tokens, i) == Gap(front, i)
    {
      HasTextBeforeFront(tokens, i);
    }
  }

  /** Before the last turn of the loop the output is empty exactly when no token before
      the last one holds text. */
  lemma JoinFrontEmpty(tokens: seq<string>)
    requires tokens != []
    ensures Join(tokens[..|tokens| - 1]) == [] <==> !HasTextBefore(tokens, |tokens| - 1)
  {
    JoinEmpty(tokens[..|tokens| - 1]);
    HasTextBeforeFront(tokens, |tokens| - 1);
  }

  /** One turn of the loop appends the token behind the given gap: none when the token
      is punctuation only or the output is still empty, one space otherwise. */
  lemma StepAppends(output: string, tok: string, gap: string)
    requires IsAttachTight(tok) || output == [] ==> gap == ""
    requires !IsAttachTight(tok) && output != [] ==> gap == " "
    ensures Step(output, tok) == output + (gap + tok)
  {
    if gap == "" {
      assert gap + tok == tok;
    } else {
      assert output + " " + tok == output + (" " + tok);
    }
  }

  /** The last turn of the loop adds the last token's gap and the token. */
  lemma StepGap(tokens: seq<string>)
    requires tokens != []
    ensures var n := |tokens|;
            Join(tokens) == Join(tokens[..n - 1]) + (Gap(tokens, n - 1) + tokens[n - 1])
  {
    var n := |tokens|;
    JoinFrontEmpty(tokens);
    StepAppends(Join(tokens[..n - 1]), tokens[n - 1], Gap(tokens, n - 1));
  }

  /** The output is the tokens in order, each with its gap: a space only before a
      token that is not punctuation only and that follows some non-empty text. So the
      loop never adds a leading space and never a space before punctuation. */
  lemma {:induction false} JoinSpaced(tokens: seq<string>)
    ensures Join(tokens) == Concat(Spaced(tokens))
  {
    if tokens != [] {
      var n := |tokens|;
      var front := tokens[..n - 1];
      var last := Gap(tokens, n - 1) + tokens[n - 1];
      JoinSpaced(front);
      StepGap(tokens);
      SpacedFront(tokens);
      ConcatAppend(Spaced(front), [last]);
      ConcatSingle(last);
    }
  }

  /** The output begins with the first token: nothing is put in front of it. */
  lemma JoinStartsWithFirst(tokens: seq<string>)
    requires tokens != []
    ensures |tokens[0]| <= |Join(tokens)| && Join(tokens)[..|tokens[0]|] == tokens[0]
  {
    JoinSpaced(tokens);
    var pieces := Spaced(tokens);
    assert pieces[0] == tokens[0];
    assert pieces == [pieces[0]] + pieces[1..];
    ConcatAppend([pieces[0]], pieces[1..]);
    ConcatSingle(pieces[0]);
  }

  /** Without empty tokens, the output is as long as the tokens together plus one space
      for every token after the first that is not punctuation only. */
  lemma {:induction false} JoinLength(tokens: seq<string>)
    requires forall i :: 0 <= i < |tokens| ==> tokens[i] != []
    ensures |Join(tokens)| == |Concat(tokens)| + WordsAfterFirst(tokens)
  {
    if tokens != [] {
      var n := |tokens|;
      var front := tokens[..n - 1];
      JoinLength(front);
      JoinEmpty(front);
      if n > 1 {
        assert front[0] == tokens[0];
      }
      assert tokens == front + [tokens[n - 1]];
      ConcatAppend(front, [tokens[n - 1]]);
      ConcatSingle(tokens[n - 1]);
    }
  }

  /** How many tokens after the first are not punctuation only. */
  function WordsAfterFirst(tokens: seq<string>): nat {
    if |tokens| <= 1 then 0
    else WordsAfterFirst(tokens[..|tokens| - 1]) + (if IsAttachTight(tokens[|tokens| - 1]) then 0 else 1)
  }

  /** The loop handles one more token with one more step. */
  lemma JoinSnoc(tokens: seq<string>, tok: string)
    ensures Join(tokens + [tok]) == Step(Join(tokens), tok)
  {
    assert (tokens + [tok])[..|tokens|] == tokens;
  }

  /** A single token comes out as it is. */
  lemma JoinFirst(w: string)
    ensures Join([w]) == w
  {
    assert [w][..0] == [];
    assert [] + w == w;
  }

  /** A word after some output gets a space in front of it. */
  lemma JoinWord(tokens: seq<string>, w: string)
    requires Join(tokens) != [] && !IsAttachTight(w)
    ensures Join(tokens + [w]) == Join(tokens) + " " + w
  {
    JoinSnoc(tokens, w);
  }

  /** Punctuation is attached without a space. */
  lemma JoinTight(tokens: seq<string>, p: string)
    requires IsAttachTight(p)
    ensures Join(tokens + [p]) == Join(tokens) + p
  {
    JoinSnoc(tokens, p);
  }

  /** Solver aid, no content about the tokenizer: the token list of the sample
      question built one token at a time. */
  lemma QuestionTokens(w1: string, w2: string, w3: string, w4: string)
    ensures [w1] + [","] + [w2] + [w3] + [w4] + ["?"] == [w1, ",", w2, w3, w4, "?"]
  {
  }

  /** Solver aid, no content about the tokenizer: appending a comma and then a space
      appends ", ". */
  lemma CommaSpace(w: string)
    ensures w + "," + " " == w + ", "
  {
    assert ", " == "," + " ";
  }

  /** The tokens of the sample question come back with a space before every word but
      the first and none before the comma and the question mark. */
  lemma JoinQuestion(w1: string, w2: string, w3: string, w4: string)
    requires w1 != [] && !IsAttachTight(w1) && !IsAttachTight(w2)
    requires !IsAttachTight(w3) && !IsAttachTight(w4)
    ensures Join([w1, ",", w2, w3, w4, "?"]) == w1 + ", " + w2 + " " + w3 + " " + w4 + "?"
  {
    assert IsAttachTight(",") by { assert IsTightChar(","[0]); }
    assert IsAttachTight("?") by { assert IsTightChar("?"[0]); }
    JoinFirst(w1);
    JoinTight([w1], ",");
    JoinWord([w1] + [","], w2);
    JoinWord([w1] + [","] + [w2], w3);
    JoinWord([w1] + [","] + [w2] + [w3], w4);
    JoinTight([w1] + [","] + [w2] + [w3] + [w4], "?");
    QuestionTokens(w1, w2, w3, w4);
    CommaSpace(w1);
  }

  /** The tokens of the sample question decode to the sentence. The sentence is the
      literal "Hello, how are you?", written in pieces so that the solver does not
      unfold the whole literal character by character. */
  lemma JoinSampleQuestion()
    ensures Join(["Hello", ",", "how", "are", "you", "?"]) == "Hello" + ", " + "how" + " " + "are" + " " + "you" + "?"
  {
    assert !IsAttachTight("Hello") by { assert !IsTightChar("Hello"[0]); }
    assert !IsAttachTight("how") by { assert !IsTightChar("how"[0]); }
    assert !IsAttachTight("are") by { assert !IsTightChar("are"[0]); }
    assert !IsAttachTight("you") by { assert !IsTightChar("you"[0]); }
    JoinQuestion("Hello", "how", "are", "you");
  }
}
