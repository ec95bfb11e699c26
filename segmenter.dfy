/** The segmenter of `BasicTokenizer._tokenize` with its default split pattern
    (one punctuation character, a double dash or one whitespace character, each kept
    as a piece): `re.split` written out as a left-to-right scan,
    followed by stripping every piece and dropping the pieces left empty. */
module Segmenter {
  import opened Text

  /** The single characters of the split pattern's character class. */
  predicate IsPunctuation(c: char) {
    || c == ',' || c == '.' || c == ':' || c == ';' || c == '?' || c == '_'
    || c == '!' || c == '"' || c == '\'' || c == '(' || c == ')'
  }

  /** Length of the delimiter the split pattern matches at the start of `s`, 0 if none.
      The three alternatives cannot match at the same place, so their order is immaterial. */
  function DelimiterLength(s: string): (n: nat)
    ensures n <= |s| && n <= 2
    ensures n == 2 <==> |s| >= 2 && s[0] == '-' && s[1] == '-'
    ensures n == 1 <==> |s| >= 1 && (IsPunctuation(s[0]) || IsWhitespace(s[0]))
  {
    if s == [] then 0
    else if IsPunctuation(s[0]) then 1
    else if |s| >= 2 && s[0] == '-' && s[1] == '-' then 2
    else if IsWhitespace(s[0]) then 1
    else 0
  }

  /** A stretch of text between two delimiters: no whitespace, no punctuation
      character and no `--` inside. */
  predicate IsSpan(p: string) {
    && (forall i :: 0 <= i < |p| ==> !IsWhitespace(p[i]) && !IsPunctuation(p[i]))
    && (forall i :: 0 <= i < |p| - 1 ==> !(p[i] == '-' && p[i + 1] == '-'))
  }

  /** A text matched by the split pattern. */
  predicate IsDelimiter(p: string) {
    p == "--" || (|p| == 1 && (IsPunctuation(p[0]) || IsWhitespace(p[0])))
  }

  /** What the segmenter may return: `--`, one punctuation character, or a non-empty span. */
  predicate IsToken(t: string) {
    t == "--" || (|t| == 1 && IsPunctuation(t[0])) || (t != [] && IsSpan(t))
  }

  /** `re.split` with a capturing group: the text before each match, then the match
      itself, and finally the text after the last match. `span` is the part of the
      current stretch scanned so far. */
  function Split(s: string, span: string): (pieces: seq<string>)
    ensures |pieces| >= 1
    decreases |s|
  {
    if s == [] then [span]
    else
      var n := DelimiterLength(s);
      if n == 0 then Split(s[1..], span + [s[0]])
      else [span, s[..n]] + Split(s[n..], [])
  }

  /** The list comprehension of `_tokenize`: strip every piece, keep the non-empty ones. */
  function Clean(pieces: seq<string>): seq<string> {
    if pieces == [] then []
    else
      var p := Strip(pieces[0]);
      (if p != [] then [p] else []) + Clean(pieces[1..])
  }

  /** Solver aid, no content about the tokenizer: moving the first character of `s`
      onto the end of `span`. */
  lemma MoveFirst(span: string, s: string)
    requires s != []
    ensures span + [s[0]] + s[1..] == span + s
  {
  }

  /** Solver aid, no content about the tokenizer: cutting `s` at `n`. */
  lemma CutAt(span: string, s: string, n: nat)
    requires n <= |s|
    ensures span + s[..n] + s[n..] == span + s && [] + s[n..] == s[n..]
  {
    assert s[..n] + s[n..] == s;
  }

  /** The step of `SplitConcat` when `s` starts with no match. */
  lemma SplitConcatNoMatch(s: string, span: string)
    requires s != [] && DelimiterLength(s) == 0
    requires Concat(Split(s[1..], span + [s[0]])) == span + [s[0]] + s[1..]
    ensures Concat(Split(s, span)) == span + s
  {
    MoveFirst(span, s);
  }

  /** The step of `SplitConcat` when a match of length `n` starts `s`. */
  lemma SplitConcatMatch(s: string, span: string, n: nat)
    requires 0 < n <= |s| && DelimiterLength(s) == n
    requires Concat(Split(s[n..], [])) == [] + s[n..]
    ensures Concat(Split(s, span)) == span + s
  {
    var rest := Split(s[n..], []);
    assert Split(s, span) == [span, s[..n]] + rest;
    ConcatAppend([span, s[..n]], rest);
    ConcatPair(span, s[..n]);
    CutAt(span, s, n);
  }

  /** The scan loses nothing: the pieces joined again give back the input. */
  lemma {:induction false} SplitConcat(s: string, span: string)
    ensures Concat(Split(s, span)) == span + s
    decreases |s|
  {
    if s == [] {
      ConcatSingle(span);
    } else {
      var n := DelimiterLength(s);
      if n == 0 {
        SplitConcat(s[1..], span + [s[0]]);
        SplitConcatNoMatch(s, span);
      } else {
        SplitConcat(s[n..], []);
        SplitConcatMatch(s, span, n);
      }
    }
  }

  /** A piece of the scan: a span or a delimiter. */
  predicate IsPiece(p: string) {
    IsSpan(p) || IsDelimiter(p)
  }

  /** A span stays a span when a character that starts no match is added; and the
      longer span still cannot run into a `--`. */
  lemma SpanExtend(s: string, span: string)
    requires s != [] && DelimiterLength(s) == 0
    requires IsSpan(span)
    requires span != [] && span[|span| - 1] == '-' ==> s[0] != '-'
    ensures IsSpan(span + [s[0]])
    ensures s[0] == '-' && s[1..] != [] ==> s[1..][0] != '-'
  {
  }

  /** A closed span, a delimiter and then pieces give pieces. */
  lemma PiecesCons(span: string, d: string, rest: seq<string>)
    requires IsSpan(span) && IsDelimiter(d)
    requires forall p :: p in rest ==> IsPiece(p)
    ensures forall p :: p in [span, d] + rest ==> IsPiece(p)
  {
  }

  /** Every piece of the scan is a span or a delimiter. The second requirement says
      that the span cannot be extended into a `--`: a `-` ending it is never followed
      by another `-`, since the scan would have matched `--` there instead. */
  lemma {:induction false} SplitPieces(s: string, span: string)
    requires IsSpan(span)
    requires span != [] && span[|span| - 1] == '-' && s != [] ==> s[0] != '-'
    ensures forall p :: p in Split(s, span) ==> IsPiece(p)
    decreases |s|
  {
    if s == [] {
      assert Split(s, span) == [span];
    } else {
      var n := DelimiterLength(s);
      if n == 0 {
        SpanExtend(s, span);
        SplitPieces(s[1..], span + [s[0]]);
      } else {
        SplitPieces(s[n..], []);
        PiecesCons(span, s[..n], Split(s[n..], []));
      }
    }
  }

  /** Stripping a piece of the scan deletes its whitespace, and what is left,
      if anything, is a token. */
  lemma StripPiece(p: string)
    requires IsPiece(p)
    ensures Strip(p) == RemoveWhitespace(p)
    ensures Strip(p) != [] ==> IsToken(Strip(p))
  {
    if IsSpan(p) || p == "--" || IsPunctuation(p[0]) {
      assert NoWhitespace(p);
      StripOfClean(p);
      RemoveWhitespaceOfClean(p);
    } else {
      assert AllWhitespace(p);
      StripOfBlank(p);
      RemoveWhitespaceOfBlank(p);
    }
  }

  /** Cleaning the pieces of the scan keeps exactly their non-whitespace characters. */
  lemma {:induction false} CleanConcat(pieces: seq<string>)
    requires forall p :: p in pieces ==> IsPiece(p)
    ensures Concat(Clean(pieces)) == RemoveWhitespace(Concat(pieces))
  {
    if pieces != [] {
      var p, tail := pieces[0], pieces[1..];
      CleanConcat(tail);
      StripPiece(p);
      var head := if Strip(p) != [] then [Strip(p)] else [];
      assert Clean(pieces) == head + Clean(tail);
      RemoveWhitespaceAppend(p, Concat(tail));
      ConcatAppend(head, Clean(tail));
      if head != [] {
        ConcatSingle(Strip(p));
      }
    }
  }

  /** Cleaning the pieces of the scan leaves only tokens. */
  lemma {:induction false} CleanTokens(pieces: seq<string>)
    requires forall p :: p in pieces ==> IsPiece(p)
    ensures forall t :: t in Clean(pieces) ==> IsToken(t)
  {
    if pieces != [] {
      var p, tail := pieces[0], pieces[1..];
      CleanTokens(tail);
      StripPiece(p);
      var head := if Strip(p) != [] then [Strip(p)] else [];
      assert Clean(pieces) == head + Clean(tail);
    }
  }

  /** `BasicTokenizer._tokenize` (and the corpus split of the vocabulary script).
      Every token is `--`, a single punctuation character or a non-empty stretch
      without whitespace, punctuation or `--`; joined in order, the tokens give the
      input with its whitespace removed. */
  function Tokenize(text: string): (tokens: seq<string>)
    ensures forall t :: t in tokens ==> IsToken(t)
    ensures Concat(tokens) == RemoveWhitespace(text)
  {
    SplitPieces(text, []);
    SplitConcat(text, []);
    CleanConcat(Split(text, []));
    CleanTokens(Split(text, []));
    assert [] + text == text;
    Clean(Split(text, []))
  }

  /** No token is empty or holds whitespace. */
  lemma TokensAreNonEmptyWithoutWhitespace(text: string)
    ensures forall t :: t in Tokenize(text) ==> t != [] && NoWhitespace(t)
  {
  }

  lemma TokenizeEmpty()
    ensures Tokenize("") == []
  {
    assert Split("", []) == [[]];
    assert Strip([]) == [];
    assert Clean([[]]) == [];
  }

  predicate EndsWithDash(s: string) {
    s != [] && s[|s| - 1] == '-'
  }

  predicate StartsWithDash(s: string) {
    s != [] && s[0] == '-'
  }

  /** The pattern looks at most two characters ahead, so what follows `a` changes the
      match at its start only when a lone `-` ends `a` and another `-` begins `b`. */
  lemma DelimiterLengthAppend(a: string, b: string)
    requires a != [] && !(EndsWithDash(a) && StartsWithDash(b))
    ensures DelimiterLength(a + b) == DelimiterLength(a)
  {
    if |a| == 1 {
      assert (a + b)[0] == a[0];
    } else {
      assert (a + b)[0] == a[0] && (a + b)[1] == a[1];
    }
  }

  /** One step of the scan over `a + b` when `a` starts with no match. */
  lemma SplitAppendStep(a: string, b: string, span: string)
    requires a != [] && DelimiterLength(a + b) == 0
    ensures Split(a + b, span) == Split(a[1..] + b, span + [a[0]])
  {
    assert (a + b)[0] == a[0];
    assert (a + b)[1..] == a[1..] + b;
  }

  /** One step of the scan over `a + b` when a match of length `n` starts `a`. */
  lemma SplitAppendMatch(a: string, b: string, span: string, n: nat)
    requires 0 < n <= |a| && DelimiterLength(a + b) == n
    ensures Split(a + b, span) == [span, a[..n]] + Split(a[n..] + b, [])
  {
    assert (a + b)[n..] == a[n..] + b;
    assert (a + b)[..n] == a[..n];
  }

  /** A delimiter at the very start closes the open span and is a piece of its own. */
  lemma SplitDelimiterFirst(d: string, b: string, span: string)
    requires IsDelimiter(d)
    ensures Split(d + b, span) == [span, d] + Split(b, [])
  {
    assert (d + b)[0] == d[0];
    if d == "--" {
      assert (d + b)[1] == '-';
    }
    SplitAppendMatch(d, b, span, |d|);
    assert d[..|d|] == d && d[|d|..] + b == b;
  }

  /** The step of `SplitAtDelimiterFrom` when `a` starts with no match. */
  lemma SplitAtDelimiterNoMatch(a: string, rest: string, tail: seq<string>, span: string)
    requires a != [] && DelimiterLength(a) == 0 && DelimiterLength(a + rest) == 0
    requires Split(a[1..] + rest, span + [a[0]]) == Split(a[1..], span + [a[0]]) + tail
    ensures Split(a + rest, span) == Split(a, span) + tail
  {
    SplitAppendStep(a, rest, span);
  }

  /** The step of `SplitAtDelimiterFrom` when a match of length `n` starts `a`. */
  lemma SplitAtDelimiterMatch(a: string, rest: string, tail: seq<string>, span: string, n: nat)
    requires 0 < n <= |a| && DelimiterLength(a) == n && DelimiterLength(a + rest) == n
    requires Split(a[n..] + rest, []) == Split(a[n..], []) + tail
    ensures Split(a + rest, span) == Split(a, span) + tail
  {
    SplitAppendMatch(a, rest, span, n);
    assert Split(a, span) == [span, a[..n]] + Split(a[n..], []);
  }

  /** A delimiter after `a` does not change the match at the start of `a`, unless it
      is a `--` right after a `-`. */
  lemma DelimiterAhead(a: string, d: string, b: string)
    requires a != [] && IsDelimiter(d)
    requires d == "--" ==> !EndsWithDash(a)
    ensures DelimiterLength(a + (d + b)) == DelimiterLength(a)
  {
    assert (d + b)[0] == d[0];
    DelimiterLengthAppend(a, d + b);
  }

  /** A suffix ends with a dash only if the whole string does. */
  lemma EndsWithDashSuffix(a: string, k: nat)
    requires k <= |a|
    ensures EndsWithDash(a[k..]) ==> EndsWithDash(a)
  {
    if a[k..] != [] {
      assert a[k..][|a[k..]| - 1] == a[|a| - 1];
    }
  }

  /** The scan closes the open span at a delimiter, makes the delimiter a piece of
      its own and starts afresh after it. A `--` right after a `-` is excluded: the
      pattern matches one character earlier there. */
  lemma {:induction false} SplitAtDelimiterFrom(a: string, d: string, b: string, span: string)
    requires IsDelimiter(d)
    requires d == "--" ==> !EndsWithDash(a)
    ensures Split(a + (d + b), span) == Split(a, span) + ([d] + Split(b, []))
    decreases |a|
  {
    if a == [] {
      SplitDelimiterFirst(d, b, span);
      assert a + (d + b) == d + b;
    } else {
      var n := DelimiterLength(a);
      DelimiterAhead(a, d, b);
      if n == 0 {
        EndsWithDashSuffix(a, 1);
        SplitAtDelimiterFrom(a[1..], d, b, span + [a[0]]);
        SplitAtDelimiterNoMatch(a, d + b, [d] + Split(b, []), span);
      } else {
        EndsWithDashSuffix(a, n);
        SplitAtDelimiterFrom(a[n..], d, b, []);
        SplitAtDelimiterMatch(a, d + b, [d] + Split(b, []), span, n);
      }
    }
  }

  /** A span is never cut: it extends the open span to its end. */
  lemma {:induction false} SplitOfSpan(w: string, span: string)
    requires IsSpan(w)
    ensures Split(w, span) == [span + w]
    decreases |w|
  {
    if w == [] {
      assert span + w == span;
    } else {
      assert DelimiterLength(w) == 0;
      SplitOfSpan(w[1..], span + [w[0]]);
      assert span + [w[0]] + w[1..] == span + w;
    }
  }

  lemma {:induction false} CleanAppend(x: seq<string>, y: seq<string>)
    ensures Clean(x + y) == Clean(x) + Clean(y)
  {
    if x == [] {
      assert x + y == y;
    } else {
      assert (x + y)[1..] == x[1..] + y;
      CleanAppend(x[1..], y);
    }
  }

  lemma CleanSingle(p: string)
    ensures Clean([p]) == if Strip(p) != [] then [Strip(p)] else []
  {
    assert [p][1..] == [];
  }

  /** A text without delimiters is one token, or none when it is empty. */
  lemma TokenizeSpan(w: string)
    requires IsSpan(w)
    ensures Tokenize(w) == if w == [] then [] else [w]
  {
    SplitOfSpan(w, []);
    assert [] + w == w;
    assert NoWhitespace(w);
    StripOfClean(w);
    CleanSingle(w);
  }

  /** The scan closes the open span at a delimiter and starts afresh after it. */
  lemma SplitAtDelimiter(a: string, d: string, b: string)
    requires IsDelimiter(d)
    requires d == "--" ==> !EndsWithDash(a)
    ensures Split(a + d + b, []) == Split(a, []) + [d] + Split(b, [])
  {
    assert a + d + b == a + (d + b);
    SplitAtDelimiterFrom(a, d, b, []);
    assert Split(a, []) + ([d] + Split(b, [])) == Split(a, []) + [d] + Split(b, []);
  }

  /** Cleaning keeps a delimiter piece as a token of its own, unless it is whitespace. */
  lemma CleanAtDelimiter(pa: seq<string>, d: string, pb: seq<string>)
    requires IsDelimiter(d)
    ensures Clean(pa + [d] + pb) == Clean(pa) + (if AllWhitespace(d) then [] else [d]) + Clean(pb)
  {
    CleanAppend(pa + [d], pb);
    CleanAppend(pa, [d]);
    CleanSingle(d);
    if AllWhitespace(d) {
      StripOfBlank(d);
    } else {
      assert NoWhitespace(d);
      StripOfClean(d);
    }
  }

  /** Each delimiter cuts the text: what comes before it and what comes after it are
      tokenized on their own, and between them the delimiter is a token of its own,
      `--` whole, except that whitespace leaves no token. A `--` preceded by a `-` is
      excluded, since there the pattern matches one character earlier. */
  lemma TokenizeAtDelimiter(a: string, d: string, b: string)
    requires IsDelimiter(d)
    requires d == "--" ==> !EndsWithDash(a)
    ensures Tokenize(a + d + b) == Tokenize(a) + (if AllWhitespace(d) then [] else [d]) + Tokenize(b)
  {
    SplitAtDelimiter(a, d, b);
    CleanAtDelimiter(Split(a, []), d, Split(b, []));
  }

  /** A word: a non-empty span with no `-` at either end. */
  predicate IsWord(w: string) {
    w != [] && IsSpan(w) && !StartsWithDash(w) && !EndsWithDash(w)
  }

  /** `--` between two words is one token of its own. */
  /** `--` is a delimiter and not whitespace. */
  lemma DoubleDashDelimiter()
    ensures IsDelimiter("--") && !AllWhitespace("--")
  {
    assert !IsWhitespace("--"[0]);
  }

  /** A dash in front of a word gives a span. */
  lemma DashWord(y: string)
    requires IsWord(y)
    ensures IsSpan("-" + y)
  {
    assert ("-" + y)[0] == '-' && ("-" + y)[1..] == y;
  }

  /** Solver aid, no content about the tokenizer: three dashes are two and one. */
  lemma ThreeDashes(x: string, y: string)
    ensures x + "---" + y == x + "--" + ("-" + y)
  {
  }

  lemma TokenizeDoubleDash(x: string, y: string)
    requires IsWord(x) && IsWord(y)
    ensures Tokenize(x + "--" + y) == [x, "--", y]
  {
    DoubleDashDelimiter();
    TokenizeAtDelimiter(x, "--", y);
    TokenizeSpan(x);
    TokenizeSpan(y);
  }

  /** Of three dashes between two words the first two make the token `--` and the
      third stays attached to the word after it. */
  lemma TokenizeTripleDash(x: string, y: string)
    requires IsWord(x) && IsWord(y)
    ensures Tokenize(x + "---" + y) == [x, "--", "-" + y]
  {
    ThreeDashes(x, y);
    DoubleDashDelimiter();
    TokenizeAtDelimiter(x, "--", "-" + y);
    TokenizeSpan(x);
    DashWord(y);
    TokenizeSpan("-" + y);
  }

  /** A word followed by a one-character delimiter: the word is a token, then the
      delimiter unless it is whitespace, then the tokens of the rest. */
  lemma TokenizeWordThen(w: string, d: string, rest: string)
    requires IsWord(w) && IsDelimiter(d) && |d| == 1
    ensures Tokenize(w + d + rest) == [w] + (if IsWhitespace(d[0]) then [] else [d]) + Tokenize(rest)
  {
    TokenizeAtDelimiter(w, d, rest);
    TokenizeSpan(w);
    assert AllWhitespace(d) <==> IsWhitespace(d[0]);
  }

  /** A word and a question mark give the word and the question mark. */
  lemma TokenizeWordQuestion(w: string)
    requires IsWord(w)
    ensures Tokenize(w + "?") == [w, "?"]
  {
    TokenizeWordThen(w, "?", []);
    TokenizeEmpty();
    assert w + "?" + [] == w + "?";
  }

  /** A word and a space give the word, and the space leaves no token. */
  lemma TokenizeWordSpace(w: string, rest: string)
    requires IsWord(w)
    ensures Tokenize(w + " " + rest) == [w] + Tokenize(rest)
  {
    TokenizeWordThen(w, " ", rest);
  }

  /** Leading whitespace leaves no token. */
  lemma TokenizeLeadingSpace(rest: string)
    ensures Tokenize(" " + rest) == Tokenize(rest)
  {
    TokenizeAtDelimiter([], " ", rest);
    assert [] + " " + rest == " " + rest;
    TokenizeEmpty();
  }

  lemma TokenizeTwoWords(w3: string, w4: string)
    requires IsWord(w3) && IsWord(w4)
    ensures Tokenize(w3 + " " + w4 + "?") == [w3, w4, "?"]
  {
    TokenizeWordSpace(w3, w4 + "?");
    TokenizeWordQuestion(w4);
    assert w3 + " " + (w4 + "?") == w3 + " " + w4 + "?";
  }

  lemma TokenizeThreeWords(w2: string, w3: string, w4: string)
    requires IsWord(w2) && IsWord(w3) && IsWord(w4)
    ensures Tokenize(w2 + " " + w3 + " " + w4 + "?") == [w2, w3, w4, "?"]
  {
    TokenizeWordSpace(w2, w3 + " " + w4 + "?");
    TokenizeTwoWords(w3, w4);
    assert w2 + " " + (w3 + " " + w4 + "?") == w2 + " " + w3 + " " + w4 + "?";
  }

  /** A word, a comma and a space give the word and the comma. */
  lemma TokenizeWordComma(w: string, rest: string)
    requires IsWord(w)
    ensures Tokenize(w + ", " + rest) == [w, ","] + Tokenize(rest)
  {
    TokenizeWordThen(w, ",", " " + rest);
    TokenizeLeadingSpace(rest);
    assert w + "," + (" " + rest) == w + ", " + rest by {
      assert ", " == "," + " ";
    }
  }

  /** A question in the shape of the sample sentence: the comma and the question mark
      become tokens and the spaces disappear. */
  lemma TokenizeQuestion(w1: string, w2: string, w3: string, w4: string)
    requires IsWord(w1) && IsWord(w2) && IsWord(w3) && IsWord(w4)
    ensures Tokenize(w1 + ", " + w2 + " " + w3 + " " + w4 + "?") == [w1, ",", w2, w3, w4, "?"]
  {
    TokenizeWordComma(w1, w2 + " " + w3 + " " + w4 + "?");
    TokenizeThreeWords(w2, w3, w4);
    assert w1 + ", " + (w2 + " " + w3 + " " + w4 + "?") == w1 + ", " + w2 + " " + w3 + " " + w4 + "?";
  }

  /** The information separators count as whitespace: a file separator between two
      words leaves no token. */
  lemma TokenizeSeparator()
    ensures Tokenize("a" + "\U{1C}" + "b") == ["a", "b"]
  {
    assert IsWord("a") && IsWord("b");
    assert IsDelimiter("\U{1C}") && IsWhitespace("\U{1C}"[0]);
    TokenizeWordThen("a", "\U{1C}", "b");
    TokenizeSpan("b");
  }

  /** The words of the sample question are words. */
  lemma SampleWords()
    ensures IsWord("Hello") && IsWord("how") && IsWord("are") && IsWord("you")
  {
  }

  /** The sample question of the script gives six tokens. The sentence is the literal
      "Hello, how are you?", written in pieces so that the solver does not unfold the
      whole literal character by character. */
  lemma TokenizeSampleQuestion()
    ensures Tokenize("Hello" + ", " + "how" + " " + "are" + " " + "you" + "?")
         == ["Hello", ",", "how", "are", "you", "?"]
  {
    SampleWords();
    TokenizeQuestion("Hello", "how", "are", "you");
  }

  lemma TokenizeSampleDashes()
    ensures Tokenize("a" + "--" + "b") == ["a", "--", "b"]
    ensures Tokenize("a" + "---" + "b") == ["a", "--", "-b"]
  {
    TokenizeDoubleDash("a", "b");
    TokenizeTripleDash("a", "b");
    assert "-" + "b" == "-b";
  }
}
