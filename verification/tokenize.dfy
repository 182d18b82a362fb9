/**
 Whitespace-preserving tokenisation, as done by `text.split(/(\s+)/)` in the
 word diff: the text is cut at every maximal run of whitespace, and because the
 regular expression has a capturing group, the whitespace runs themselves are
 kept as tokens. The result alternates: a run without whitespace (possibly
 empty) at every even index, a maximal whitespace run at every odd index.
 */
module Tokenize {

  /** The characters matched by `\s` in an ECMAScript regular expression:
      the WhiteSpace and LineTerminator code points. */
  predicate IsWhitespace(c: char) {
    c == '\t' || c == '\n' || c == '\U{000B}' || c == '\U{000C}' || c == '\r'
    || c == ' ' || c == '\U{00A0}' || c == '\U{1680}'
    || ('\U{2000}' <= c && c <= '\U{200A}')
    || c == '\U{2028}' || c == '\U{2029}' || c == '\U{202F}' || c == '\U{205F}'
    || c == '\U{3000}' || c == '\U{FEFF}'
  }

  /** No character of `s` is whitespace (an even-index token). */
  predicate NoWhitespace(s: string) {
    forall k :: 0 <= k < |s| ==> !IsWhitespace(s[k])
  }

  /** `s` is a non-empty run of whitespace (an odd-index token). */
  predicate IsWhitespaceRun(s: string) {
    |s| > 0 && forall k :: 0 <= k < |s| ==> IsWhitespace(s[k])
  }

  /** Concatenation of the tokens, in order. */
  function Join(toks: seq<string>): string {
    if |toks| == 0 then [] else toks[0] + Join(toks[1..])
  }

  lemma JoinCons2(x: string, y: string, tail: seq<string>)
    ensures Join([x, y] + tail) == x + y + Join(tail)
  {
    var toks := [x, y] + tail;
    assert toks[1..] == [y] + tail;
    assert toks[1..][1..] == tail;
  }

  /** Length of the longest prefix of `s` that holds no whitespace. */
  function WordLength(s: string): (k: nat)
    ensures k <= |s|
    ensures NoWhitespace(s[..k])
    ensures k < |s| ==> IsWhitespace(s[k])
  {
    if |s| == 0 || IsWhitespace(s[0]) then 0
    else
      var k := 1 + WordLength(s[1..]);
      assert forall i :: 1 <= i < k ==> s[..k][i] == s[1..][..k - 1][i - 1];
      k
  }

  /** Length of the longest prefix of `s` made of whitespace only. */
  function SpaceLength(s: string): (k: nat)
    ensures k <= |s|
    ensures forall i :: 0 <= i < k ==> IsWhitespace(s[i])
    ensures k < |s| ==> !IsWhitespace(s[k])
  {
    if |s| == 0 || !IsWhitespace(s[0]) then 0
    else
      var k := 1 + SpaceLength(s[1..]);
      assert forall i :: 1 <= i < k ==> s[i] == s[1..][i - 1];
      k
  }

  /** The tokens of `s`: the word before the first whitespace run, that run,
      then the tokens of what follows it; a text with no whitespace is one
      token. */
  function Split(s: string): (toks: seq<string>)
    ensures Join(toks) == s
    decreases |s|
  {
    var k := WordLength(s);
    if k == |s| then
      assert Join([s]) == s + Join([]);
      [s]
    else
      var rest := s[k..];
      var w := SpaceLength(rest);
      var tail := Split(rest[w..]);
      JoinCons2(s[..k], rest[..w], tail);
      ThreeSlices(s, k, w);
      [s[..k], rest[..w]] + tail
  }

  /** The shape of the result of a capturing split on `s`: an odd number of
      tokens joining back to `s`, whitespace-free tokens at even indices
      (non-empty unless first or last), whitespace runs at odd indices. */
  predicate IsCapturingSplit(toks: seq<string>, s: string) {
    && |toks| % 2 == 1
    && Join(toks) == s
    && (forall k :: 0 <= k < |toks| && k % 2 == 0 ==> NoWhitespace(toks[k]))
    && (forall k :: 0 <= k < |toks| && k % 2 == 1 ==> IsWhitespaceRun(toks[k]))
    && (forall k :: 0 < k < |toks| - 1 ==> toks[k] != [])
  }

  /** Prefixing a word and a whitespace run to a capturing split keeps the shape. */
  lemma ShapeCons(word: string, run: string, tail: seq<string>, after: string,
                  toks: seq<string>, s: string)
    requires NoWhitespace(word) && IsWhitespaceRun(run)
    requires IsCapturingSplit(tail, after)
    requires |tail| > 1 ==> tail[0] != []
    requires toks == [word, run] + tail && s == word + run + after
    ensures IsCapturingSplit(toks, s)
  {
    assert toks[1..] == [run] + tail;
    assert toks[1..][1..] == tail;
    assert Join(toks) == word + (run + after);
    forall i | 0 <= i < |toks| && i % 2 == 0
      ensures NoWhitespace(toks[i])
    {
      if i >= 2 { assert toks[i] == tail[i - 2]; }
    }
    forall i | 0 <= i < |toks| && i % 2 == 1
      ensures IsWhitespaceRun(toks[i])
    {
      if i >= 2 { assert toks[i] == tail[i - 2]; }
    }
    forall i | 0 < i < |toks| - 1
      ensures toks[i] != []
    {
      if i >= 2 { assert toks[i] == tail[i - 2]; }
    }
  }

  /** The first token is the longest whitespace-free prefix; it is the only
      token exactly when the text holds no whitespace. */
  lemma SplitHead(s: string)
    ensures Split(s)[0] == s[..WordLength(s)]
    ensures |Split(s)| == 1 <==> WordLength(s) == |s|
  {
    var k := WordLength(s);
    if k == |s| {
      assert s[..k] == s;
    }
  }

  /** The word after a whitespace run is non-empty whenever more tokens follow it. */
  lemma WordAfterRun(s: string)
    requires WordLength(s) < |s|
    ensures var rest := s[WordLength(s)..];
      var tail := Split(rest[SpaceLength(rest)..]);
      |tail| > 1 ==> tail[0] != []
  {
    var rest := s[WordLength(s)..];
    var after := rest[SpaceLength(rest)..];
    SplitHead(after);
    if |Split(after)| > 1 {
      assert !IsWhitespace(after[0]);
      assert WordLength(after) > 0;
    }
  }

  /** The decomposition `Split` makes when the text holds whitespace. */
  lemma SplitUnfold(s: string)
    requires WordLength(s) < |s|
    ensures var k := WordLength(s);
      var rest := s[k..];
      var w := SpaceLength(rest);
      && Split(s) == [s[..k], rest[..w]] + Split(rest[w..])
      && s[..k] + rest[..w] + rest[w..] == s
  {
    var k := WordLength(s);
    ThreeSlices(s, k, SpaceLength(s[k..]));
  }

  lemma ThreeSlices<T>(s: seq<T>, k: nat, w: nat)
    requires k <= |s| && w <= |s| - k
    ensures s[..k] + s[k..][..w] + s[k..][w..] == s
  {
    assert s[k..][..w] + s[k..][w..] == s[k..];
  }

  /** The whitespace that ends the first word is a (non-empty) whitespace run. */
  lemma RunAfterWord(s: string)
    requires WordLength(s) < |s|
    ensures var rest := s[WordLength(s)..];
      IsWhitespaceRun(rest[..SpaceLength(rest)])
  {
    var rest := s[WordLength(s)..];
    var w := SpaceLength(rest);
    assert rest[0] == s[WordLength(s)];
    assert forall i :: 0 <= i < w ==> rest[..w][i] == rest[i];
  }

  /** One step of `Split` keeps the capturing-split shape. */
  lemma SplitShapeStep(s: string)
    requires WordLength(s) < |s|
    requires var rest := s[WordLength(s)..];
      var after := rest[SpaceLength(rest)..];
      IsCapturingSplit(Split(after), after)
    ensures IsCapturingSplit(Split(s), s)
  {
    var k := WordLength(s);
    var rest := s[k..];
    var w := SpaceLength(rest);
    var after := rest[w..];
    var tail := Split(after);
    var word, run := s[..k], rest[..w];
    SplitUnfold(s);
    WordAfterRun(s);
    RunAfterWord(s);
    ShapeCons(word, run, tail, after, Split(s), s);
  }

  /** The tokens have the shape a capturing split produces. */
  lemma {:induction false} SplitShape(s: string)
    ensures IsCapturingSplit(Split(s), s)
    decreases |s|
  {
    var k := WordLength(s);
    if k < |s| {
      var rest := s[k..];
      SplitShape(rest[SpaceLength(rest)..]);
      SplitShapeStep(s);
    } else {
      assert Split(s) == [s];
      assert NoWhitespace(s) by { assert s[..k] == s; }
    }
  }

  /** A word followed by whitespace: the word is the longest whitespace-free prefix. */
  lemma {:induction false} WordLengthOfWord(p: string, q: string)
    requires NoWhitespace(p)
    requires q == [] || IsWhitespace(q[0])
    ensures WordLength(p + q) == |p|
    decreases |p|
  {
    if |p| > 0 {
      assert (p + q)[1..] == p[1..] + q;
      WordLengthOfWord(p[1..], q);
    } else {
      assert p + q == q;
    }
  }

  /** A whitespace run followed by a non-whitespace character (or nothing). */
  lemma {:induction false} SpaceLengthOfRun(p: string, q: string)
    requires forall k :: 0 <= k < |p| ==> IsWhitespace(p[k])
    requires q == [] || !IsWhitespace(q[0])
    ensures SpaceLength(p + q) == |p|
    decreases |p|
  {
    if |p| > 0 {
      assert (p + q)[1..] == p[1..] + q;
      SpaceLengthOfRun(p[1..], q);
    } else {
      assert p + q == q;
    }
  }

  /** The capturing split is determined by its shape: any token sequence of
      that shape for `s` is exactly `Split(s)`. */
  lemma {:induction false} SplitUnique(toks: seq<string>, s: string)
    requires IsCapturingSplit(toks, s)
    ensures toks == Split(s)
    decreases |toks|
  {
    if |toks| == 1 {
      assert Join(toks) == toks[0] + Join(toks[1..]);
      assert toks[0] == s;
      WordLengthOfWord(s, []);
      assert s + [] == s;
    } else {
      var word, run, tail := toks[0], toks[1], toks[2..];
      var after := Join(tail);
      assert toks == [word, run] + tail;
      assert Join(toks) == word + Join(toks[1..]);
      assert toks[1..][1..] == tail;
      assert Join(toks[1..]) == run + after;
      assert s == word + (run + after);
      assert NoWhitespace(word);
      assert IsWhitespaceRun(run);
      assert NoWhitespace(tail[0]) by { assert tail[0] == toks[2]; }
      assert |tail| > 1 ==> tail[0] != [] by { assert |tail| > 1 ==> toks[2] != []; }
      assert after == tail[0] + Join(tail[1..]);
      WordLengthOfWord(word, run + after);
      var k := |word|;
      assert s[..k] == word;
      var rest := s[k..];
      assert rest == run + after;
      assert after == [] || !IsWhitespace(after[0]) by {
        if after != [] {
          if |tail| == 1 {
            assert Join(tail[1..]) == [];
          }
          assert tail[0] != [];
          assert after[0] == tail[0][0];
        }
      }
      SpaceLengthOfRun(run, after);
      var w := |run|;
      assert rest[..w] == run;
      assert rest[w..] == after;
      assert IsCapturingSplit(tail, after) by {
        forall i | 0 <= i < |tail| && i % 2 == 0
          ensures NoWhitespace(tail[i])
        {
          assert tail[i] == toks[i + 2];
        }
        forall i | 0 <= i < |tail| && i % 2 == 1
          ensures IsWhitespaceRun(tail[i])
        {
          assert tail[i] == toks[i + 2];
        }
        forall i | 0 < i < |tail| - 1
          ensures tail[i] != []
        {
          assert tail[i] == toks[i + 2];
        }
      }
      SplitUnique(tail, after);
      assert k < |s|;
    }
  }

  /** `Split` is the one capturing split of `s`: a token sequence is its
      result exactly when it has the capturing-split shape for `s`. */
  lemma SplitCharacterisation(toks: seq<string>, s: string)
    ensures IsCapturingSplit(toks, s) <==> toks == Split(s)
  {
    SplitShape(s);
    if IsCapturingSplit(toks, s) {
      SplitUnique(toks, s);
    }
  }

  /** The text is empty, or starts or ends with whitespace. */
  predicate EdgeWhitespace(s: string) {
    |s| == 0 || IsWhitespace(s[0]) || IsWhitespace(s[|s| - 1])
  }

  /** The last element of a three-piece concatenation with a non-empty middle. */
  lemma LastOfThree<T>(p: seq<T>, q: seq<T>, r: seq<T>, s: seq<T>)
    requires s == p + q + r && |q| > 0
    ensures s[|s| - 1] == if |r| == 0 then q[|q| - 1] else r[|r| - 1]
  {
  }

  /** When the text holds whitespace, its last token is that of the text after
      the first run, and it ends with whitespace exactly when that text is
      empty or ends with whitespace. */
  lemma SplitLastStep(s: string)
    requires WordLength(s) < |s|
    ensures var rest := s[WordLength(s)..];
      var after := rest[SpaceLength(rest)..];
      && |Split(s)| > 2
      && (|Split(after)| > 0 ==> Split(s)[|Split(s)| - 1] == Split(after)[|Split(after)| - 1])
      && (IsWhitespace(s[|s| - 1]) <==> |after| == 0 || IsWhitespace(after[|after| - 1]))
  {
    var k := WordLength(s);
    var rest := s[k..];
    var w := SpaceLength(rest);
    SplitUnfold(s);
    assert w > 0;
    var run := rest[..w];
    assert IsWhitespace(run[w - 1]);
    LastOfThree(s[..k], run, rest[w..], s);
  }

  /** The last token is empty exactly when the text is empty or ends with
      whitespace: the split then closes with an empty word. */
  lemma {:induction false} SplitLastEmpty(s: string)
    ensures |Split(s)| > 0
    ensures Split(s)[|Split(s)| - 1] == [] <==> (|s| == 0 || IsWhitespace(s[|s| - 1]))
    decreases |s|
  {
    var k := WordLength(s);
    if k == |s| {
      SplitHead(s);
      assert s[..k] == s;
    } else {
      var rest := s[k..];
      SplitLastEmpty(rest[SpaceLength(rest)..]);
      SplitLastStep(s);
    }
  }

  /** The split holds an empty token exactly when the text is empty or starts
      or ends with whitespace; a word between two runs is never empty. */
  lemma EmptyTokenAtEdges(s: string)
    ensures [] in Split(s) <==> EdgeWhitespace(s)
  {
    var toks := Split(s);
    SplitShape(s);
    SplitHead(s);
    SplitLastEmpty(s);
    var k := WordLength(s);
    if [] in toks {
      var i :| 0 <= i < |toks| && toks[i] == [];
      if i == 0 {
        assert k == 0;
      }
    }
    if |s| > 0 && IsWhitespace(s[0]) {
      assert k == 0;
      assert toks[0] == [];
    }
  }
}
