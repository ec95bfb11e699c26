/** The vocabulary: how the script builds its token-to-id dictionary from a corpus
    (the distinct tokens in sorted order, the two reserved markers, numbering by position), and what
    `BasicTokenizer.__init__` derives from such a dictionary (the id-to-token
    dictionary and the optional id of the unknown marker). */
module Vocabulary {
  import opened Wrappers
  import Segmenter

  const EndOfText: string := "<|endoftext|>"
  const Unknown: string := "<|unk|>"

  /** Python's `<` on `str`: code point by code point, a proper prefix first. */
  predicate Below(a: string, b: string) {
    if a == [] then b != []
    else if b == [] then false
    else if a[0] != b[0] then a[0] < b[0]
    else Below(a[1..], b[1..])
  }

  lemma {:induction false} BelowIrreflexive(a: string)
    ensures !Below(a, a)
  {
    if a != [] {
      BelowIrreflexive(a[1..]);
    }
  }

  lemma {:induction false} BelowTransitive(a: string, b: string, c: string)
    requires Below(a, b) && Below(b, c)
    ensures Below(a, c)
  {
    if a != [] && a[0] == b[0] && b[0] == c[0] {
      BelowTransitive(a[1..], b[1..], c[1..]);
    }
  }

  lemma {:induction false} BelowTotal(a: string, b: string)
    requires a != b
    ensures Below(a, b) || Below(b, a)
  {
    if a != [] && b != [] && a[0] == b[0] {
      assert a == [a[0]] + a[1..] && b == [b[0]] + b[1..];
      BelowTotal(a[1..], b[1..]);
    }
  }

  lemma BelowAsymmetric(a: string, b: string)
    requires Below(a, b)
    ensures !Below(b, a)
  {
    if Below(b, a) {
      BelowTransitive(a, b, a);
      BelowIrreflexive(a);
    }
  }

  predicate StrictlySorted(r: seq<string>) {
    forall i, j :: 0 <= i < j < |r| ==> Below(r[i], r[j])
  }

  /** `x` put into its place in a strictly sorted list, unless it is there already. */
  function Insert(x: string, r: seq<string>): seq<string> {
    if r == [] then [x]
    else if x == r[0] then r
    else if Below(x, r[0]) then [x] + r
    else [r[0]] + Insert(x, r[1..])
  }

  lemma {:induction false} InsertSpec(x: string, r: seq<string>)
    requires StrictlySorted(r)
    ensures StrictlySorted(Insert(x, r))
    ensures forall t :: t in Insert(x, r) <==> t == x || t in r
  {
    if r != [] && x != r[0] && !Below(x, r[0]) {
      InsertSpec(x, r[1..]);
      BelowTotal(x, r[0]);
      var tail := Insert(x, r[1..]);
      forall k | 0 <= k < |tail|
        ensures Below(r[0], tail[k])
      {
        if tail[k] != x {
          assert tail[k] in tail;
          assert tail[k] in r[1..];
          var j :| 0 <= j < |r[1..]| && r[1..][j] == tail[k];
          assert r[j + 1] == tail[k];
        }
      }
    } else if r != [] && x != r[0] && Below(x, r[0]) {
      forall k | 0 < k < |r| + 1
        ensures Below(x, ([x] + r)[k])
      {
        if k > 1 {
          BelowTransitive(x, r[0], r[k - 1]);
        }
      }
    }
  }

  /** The distinct tokens in increasing order, as sorting the set of tokens gives them. */
  function SortedUnique(tokens: seq<string>): (r: seq<string>)
    ensures StrictlySorted(r)
    ensures forall t :: t in r <==> t in tokens
  {
    if tokens == [] then []
    else
      var front := SortedUnique(tokens[..|tokens| - 1]);
      InsertSpec(tokens[|tokens| - 1], front);
      assert tokens == tokens[..|tokens| - 1] + [tokens[|tokens| - 1]];
      Insert(tokens[|tokens| - 1], front)
  }

  /** A strictly sorted list is determined by its elements, so the order in which the
      set hands its tokens to `sorted` does not matter. */
  lemma {:induction false} StrictlySortedUnique(a: seq<string>, b: seq<string>)
    requires StrictlySorted(a) && StrictlySorted(b)
    requires forall t :: t in a <==> t in b
    ensures a == b
  {
    if a != [] {
      assert a[0] in b;
    }
    if b != [] {
      assert b[0] in a;
    }
    if a != [] && b != [] {
      assert a[0] == b[0] by {
        assert a[0] in b && b[0] in a;
        var j :| 0 <= j < |b| && b[j] == a[0];
        var i :| 0 <= i < |a| && a[i] == b[0];
        if j > 0 {
          if i == 0 {
            BelowIrreflexive(b[0]);
          } else {
            BelowAsymmetric(a[0], a[i]);
          }
        }
      }
      forall t | t in a[1..]
        ensures t in b[1..]
      {
        TailMember(a, b, t);
      }
      forall t | t in b[1..]
        ensures t in a[1..]
      {
        TailMember(b, a, t);
      }
      StrictlySortedUnique(a[1..], b[1..]);
      assert a == [a[0]] + a[1..] && b == [b[0]] + b[1..];
    }
  }

  lemma TailMember(a: seq<string>, b: seq<string>, t: string)
    requires StrictlySorted(a) && StrictlySorted(b) && a != [] && b != [] && a[0] == b[0]
    requires forall u :: u in a <==> u in b
    requires t in a[1..]
    ensures t in b[1..]
  {
    var i :| 0 <= i < |a[1..]| && a[1..][i] == t;
    assert a[i + 1] == t && Below(a[0], t);
    BelowIrreflexive(t);
    assert t in b;
    var j :| 0 <= j < |b| && b[j] == t;
    assert j != 0;
    assert b[1..][j - 1] == t;
  }

  /** `all_tokens`: the distinct corpus tokens in order, then the two markers. */
  function AllTokens(corpus: string): seq<string> {
    SortedUnique(Segmenter.Tokenize(corpus)) + [EndOfText, Unknown]
  }

  /** `m` numbers `tokens` as the dictionary comprehension over `enumerate` does: its
      keys are exactly the listed tokens, and each maps to a position where it stands,
      the last such position. */
  ghost predicate IsEnumeration(tokens: seq<string>, m: map<string, int>) {
    && (forall t :: t in m <==> t in tokens)
    && (forall t :: t in m ==> 0 <= m[t] < |tokens| && tokens[m[t]] == t)
    && (forall t, k :: t in m && m[t] < k < |tokens| ==> tokens[k] != t)
  }

  /** Listing one more token overwrites its entry with the new, last position. */
  lemma EnumerationSnoc(front: seq<string>, x: string, m: map<string, int>)
    requires IsEnumeration(front, m)
    ensures IsEnumeration(front + [x], m[x := |front|])
  {
    var tokens := front + [x];
    var m' := m[x := |front|];
    forall t | t in m'
      ensures 0 <= m'[t] < |tokens| && tokens[m'[t]] == t
    {
      if t != x {
        assert tokens[m[t]] == front[m[t]];
      }
    }
    forall t, k | t in m' && m'[t] < k < |tokens|
      ensures tokens[k] != t
    {
      if k < |front| {
        assert tokens[k] == front[k];
      }
    }
    forall t
      ensures t in m' <==> t in tokens
    {
      if t in tokens && t != x {
        var i :| 0 <= i < |tokens| && tokens[i] == t;
        assert front[i] == t;
      }
    }
  }

  /** The dictionary comprehension over `enumerate` in the vocabulary script: each
      token gets its position; a token listed twice keeps the position of its last occurrence, as the
      later entry overwrites the earlier one. */
  function Enumerate(tokens: seq<string>): (m: map<string, int>)
    ensures IsEnumeration(tokens, m)
  {
    if tokens == [] then map[]
    else
      var front, x := tokens[..|tokens| - 1], tokens[|tokens| - 1];
      EnumerationSnoc(front, x, Enumerate(front));
      assert front + [x] == tokens;
      Enumerate(front)[x := |tokens| - 1]
  }

  /** Distinct tokens have distinct ids. */
  predicate Injective(m: map<string, int>) {
    forall s, t :: s in m && t in m && m[s] == m[t] ==> s == t
  }

  /** `inv` is the exact inverse of `m`: it maps every id of `m` back to its token and
      has no other keys. */
  predicate IsInverse(m: map<string, int>, inv: map<int, string>) {
    && (forall t :: t in m ==> m[t] in inv && inv[m[t]] == t)
    && (forall i :: i in inv ==> inv[i] in m && m[inv[i]] == i)
  }

  /** The inverse dictionary of `__init__`, mapping every id back to its token, for a
      dictionary that gives distinct tokens distinct ids. */
  function Invert(m: map<string, int>): (inv: map<int, string>)
    requires Injective(m)
    ensures IsInverse(m, inv)
    ensures inv.Keys == m.Values
  {
    map t | t in m :: m[t] := t
  }

  /** The dictionary lookup of `__init__` for the unknown marker, with no id as the
      default when the marker is absent. */
  function UnknownId(m: map<string, int>): Option<int> {
    if Unknown in m then Some(m[Unknown]) else None
  }

  /** The dictionary the script builds from its corpus. */
  function BuildVocab(corpus: string): map<string, int> {
    Enumerate(AllTokens(corpus))
  }

  /** Whatever the list, `enumerate` gives distinct tokens distinct ids, so the inverse
      dictionary of `__init__` is always exact for a vocabulary built this way. */
  lemma EnumerateInjective(tokens: seq<string>)
    ensures Injective(Enumerate(tokens))
  {
    var m := Enumerate(tokens);
    forall s, t | s in m && t in m && m[s] == m[t]
      ensures s == t
    {
      assert tokens[m[s]] == s && tokens[m[t]] == t;
    }
  }

  /** In a list without repetitions every token's id is its position. */
  lemma EnumerateDistinct(tokens: seq<string>)
    requires forall i, j :: 0 <= i < j < |tokens| ==> tokens[i] != tokens[j]
    ensures forall i :: 0 <= i < |tokens| ==> Enumerate(tokens)[tokens[i]] == i
  {
    var m := Enumerate(tokens);
    forall i | 0 <= i < |tokens|
      ensures m[tokens[i]] == i
    {
      assert tokens[i] in m;
      var k := m[tokens[i]];
      assert tokens[k] == tokens[i];
    }
  }

  /** The last two entries of a list, when they differ, keep their own positions. */
  lemma EnumerateLastTwo(tokens: seq<string>)
    requires |tokens| >= 2 && tokens[|tokens| - 2] != tokens[|tokens| - 1]
    ensures var n := |tokens|;
            Enumerate(tokens)[tokens[n - 2]] == n - 2 && Enumerate(tokens)[tokens[n - 1]] == n - 1
  {
    var n := |tokens|;
    assert tokens[n - 2] in Enumerate(tokens) && tokens[n - 1] in Enumerate(tokens);
  }

  /** The built vocabulary holds exactly the corpus tokens and the two markers; the
      markers take the last two ids, whatever the corpus, so the unknown id is defined. */
  lemma BuildVocabKeys(corpus: string)
    ensures var v := BuildVocab(corpus);
            var n := |AllTokens(corpus)|;
            && (forall t :: t in v <==> t in Segmenter.Tokenize(corpus) || t == EndOfText || t == Unknown)
            && v[EndOfText] == n - 2 && v[Unknown] == n - 1
            && UnknownId(v) == Some(n - 1)
  {
    var all := AllTokens(corpus);
    var n := |all|;
    assert all[n - 2] == EndOfText && all[n - 1] == Unknown;
    assert EndOfText != Unknown by {
      assert EndOfText[2] != Unknown[2];
    }
    EnumerateLastTwo(all);
  }

  /** Without a marker in the corpus, `all_tokens` has no repetitions. */
  lemma AllTokensDistinct(corpus: string)
    requires EndOfText !in Segmenter.Tokenize(corpus) && Unknown !in Segmenter.Tokenize(corpus)
    ensures var all := AllTokens(corpus);
            forall i, j :: 0 <= i < j < |all| ==> all[i] != all[j]
  {
    var sorted := SortedUnique(Segmenter.Tokenize(corpus));
    var all := AllTokens(corpus);
    assert EndOfText != Unknown by {
      assert EndOfText[2] != Unknown[2];
    }
    forall i, j | 0 <= i < j < |all|
      ensures all[i] != all[j]
    {
      if j < |sorted| {
        assert all[i] == sorted[i] && all[j] == sorted[j];
        BelowIrreflexive(all[i]);
      } else if i < |sorted| {
        assert all[i] == sorted[i];
        assert all[i] in Segmenter.Tokenize(corpus);
      }
    }
  }

  /** The ids of the corpus tokens are their ranks in sorted order, when the corpus
      does not itself contain a marker. */
  lemma BuildVocabRanks(corpus: string)
    requires EndOfText !in Segmenter.Tokenize(corpus) && Unknown !in Segmenter.Tokenize(corpus)
    ensures var sorted := SortedUnique(Segmenter.Tokenize(corpus));
            forall i :: 0 <= i < |sorted| ==> BuildVocab(corpus)[sorted[i]] == i
  {
    var sorted := SortedUnique(Segmenter.Tokenize(corpus));
    var all := AllTokens(corpus);
    AllTokensDistinct(corpus);
    EnumerateDistinct(all);
    forall i | 0 <= i < |sorted|
      ensures BuildVocab(corpus)[sorted[i]] == i
    {
      assert all[i] == sorted[i];
    }
  }
}
