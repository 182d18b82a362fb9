/**
 The word-level diff `computeWordDiff`: both texts are split into tokens
 (words and the whitespace runs between them), an LCS table over the two token
 sequences is filled, and a walk back from the bottom-right corner of the table
 emits `same`, `added` and `removed` parts, front to back.
 */
module WordDiff {
  import opened Tokenize
  import opened Subsequence

  /** The `type` tag of a diff part. */
  datatype PartType = Same | Added | Removed

  /** One part of the diff: a token of the original text, of the revised
      text, or of both. */
  datatype DiffPart = DiffPart(kind: PartType, value: string)

  /** The tokens of the original text that the parts account for, in order:
      the values of the `same` and `removed` parts. */
  function OldSide(d: seq<DiffPart>): seq<string> {
    if |d| == 0 then []
    else if Last(d).kind == Added then OldSide(DropLast(d))
    else OldSide(DropLast(d)) + [Last(d).value]
  }

  /** The tokens of the revised text: the values of the `same` and `added` parts. */
  function NewSide(d: seq<DiffPart>): seq<string> {
    if |d| == 0 then []
    else if Last(d).kind == Removed then NewSide(DropLast(d))
    else NewSide(DropLast(d)) + [Last(d).value]
  }

  /** Number of parts of the given type. */
  function Count(d: seq<DiffPart>, t: PartType): nat {
    if |d| == 0 then 0
    else Count(DropLast(d), t) + (if Last(d).kind == t then 1 else 0)
  }

  /** The parts that the backward walk over `a` and `b` emits, in output
      order. The table lookups `C[i][j-1]` and `C[i-1][j]` are the LCS
      lengths of the prefixes; on a tie the walk takes a token of `b`. */
  function DiffWalk(a: seq<string>, b: seq<string>): seq<DiffPart>
    decreases |a| + |b|
  {
    if |a| == 0 && |b| == 0 then []
    else if |a| > 0 && |b| > 0 && Last(a) == Last(b) then
      DiffWalk(DropLast(a), DropLast(b)) + [DiffPart(Same, Last(a))]
    else if |b| > 0 && (|a| == 0 || Lcs(a, DropLast(b)) >= Lcs(DropLast(a), b)) then
      DiffWalk(a, DropLast(b)) + [DiffPart(Added, Last(b))]
    else
      DiffWalk(DropLast(a), b) + [DiffPart(Removed, Last(a))]
  }

  /** The diff of two texts, over their whitespace-preserving tokens. */
  function Diff(text1: string, text2: string): seq<DiffPart> {
    DiffWalk(Split(text1), Split(text2))
  }

  /** Appending one part extends the sides and the counts by that part. */
  lemma Snoc(d: seq<DiffPart>, p: DiffPart)
    ensures OldSide(d + [p]) == OldSide(d) + (if p.kind == Added then [] else [p.value])
    ensures NewSide(d + [p]) == NewSide(d) + (if p.kind == Removed then [] else [p.value])
    ensures forall t :: Count(d + [p], t) == Count(d, t) + (if p.kind == t then 1 else 0)
  {
    assert DropLast(d + [p]) == d;
  }

  lemma SideLengths(d: seq<DiffPart>)
    ensures |d| == Count(d, Same) + Count(d, Added) + Count(d, Removed)
    ensures |OldSide(d)| == Count(d, Same) + Count(d, Removed)
    ensures |NewSide(d)| == Count(d, Same) + Count(d, Added)
  {
  }

  /** The `same` and `removed` parts rebuild `a`, the `same` and `added`
      parts rebuild `b`. */
  lemma {:induction false} WalkReconstructs(a: seq<string>, b: seq<string>)
    ensures OldSide(DiffWalk(a, b)) == a
    ensures NewSide(DiffWalk(a, b)) == b
    decreases |a| + |b|
  {
    if |a| == 0 && |b| == 0 {
    } else if |a| > 0 && |b| > 0 && Last(a) == Last(b) {
      var rest := DiffWalk(DropLast(a), DropLast(b));
      assert DiffWalk(a, b) == rest + [DiffPart(Same, Last(a))];
      WalkReconstructs(DropLast(a), DropLast(b));
      Snoc(rest, DiffPart(Same, Last(a)));
      DropLastLast(a);
      DropLastLast(b);
    } else if |b| > 0 && (|a| == 0 || Lcs(a, DropLast(b)) >= Lcs(DropLast(a), b)) {
      var rest := DiffWalk(a, DropLast(b));
      assert DiffWalk(a, b) == rest + [DiffPart(Added, Last(b))];
      WalkReconstructs(a, DropLast(b));
      Snoc(rest, DiffPart(Added, Last(b)));
      DropLastLast(b);
    } else {
      var rest := DiffWalk(DropLast(a), b);
      assert DiffWalk(a, b) == rest + [DiffPart(Removed, Last(a))];
      WalkReconstructs(DropLast(a), b);
      Snoc(rest, DiffPart(Removed, Last(a)));
      DropLastLast(a);
    }
  }

  /** The walk keeps exactly an LCS of the two sides as `same` parts; every
      other token of `b` is `added` and every other token of `a` is `removed`. */
  lemma {:induction false} WalkCounts(a: seq<string>, b: seq<string>)
    ensures Count(DiffWalk(a, b), Same) == Lcs(a, b)
    ensures Count(DiffWalk(a, b), Added) == |b| - Lcs(a, b)
    ensures Count(DiffWalk(a, b), Removed) == |a| - Lcs(a, b)
    decreases |a| + |b|
  {
    var d := DiffWalk(a, b);
    if |a| == 0 && |b| == 0 {
    } else if |a| > 0 && |b| > 0 && Last(a) == Last(b) {
      WalkCounts(DropLast(a), DropLast(b));
      Snoc(DiffWalk(DropLast(a), DropLast(b)), DiffPart(Same, Last(a)));
    } else if |b| > 0 && (|a| == 0 || Lcs(a, DropLast(b)) >= Lcs(DropLast(a), b)) {
      WalkCounts(a, DropLast(b));
      Snoc(DiffWalk(a, DropLast(b)), DiffPart(Added, Last(b)));
    } else {
      WalkCounts(DropLast(a), b);
      Snoc(DiffWalk(DropLast(a), b), DiffPart(Removed, Last(a)));
    }
    WalkReconstructs(a, b);
    SideLengths(d);
    LcsBound(a, b);
  }

  /** No edit script between `a` and `b` keeps more tokens than the LCS length. */
  lemma {:induction false} ScriptBound(d: seq<DiffPart>, a: seq<string>, b: seq<string>)
    requires OldSide(d) == a && NewSide(d) == b
    ensures Count(d, Same) <= Lcs(a, b)
    decreases |d|
  {
    if |d| > 0 {
      var p := Last(d);
      match p.kind
      case Same =>
        ScriptBound(DropLast(d), DropLast(a), DropLast(b));
      case Added =>
        ScriptBound(DropLast(d), a, DropLast(b));
        LcsMonotoneRight(a, b);
      case Removed =>
        ScriptBound(DropLast(d), DropLast(a), b);
        LcsMonotoneLeft(a, b);
    }
  }

  /** The walk's output is an edit script with the most `same` parts, hence
      the fewest `added` plus `removed` parts, among all scripts from `a` to `b`. */
  lemma WalkIsOptimal(a: seq<string>, b: seq<string>, d: seq<DiffPart>)
    requires OldSide(d) == a && NewSide(d) == b
    ensures Count(d, Same) <= Count(DiffWalk(a, b), Same)
    ensures Count(DiffWalk(a, b), Added) + Count(DiffWalk(a, b), Removed)
            <= Count(d, Added) + Count(d, Removed)
  {
    ScriptBound(d, a, b);
    WalkCounts(a, b);
    SideLengths(d);
  }

  /** Diffing a token sequence against itself keeps every token as `same`. */
  lemma {:induction false} WalkIdentity(a: seq<string>)
    ensures |DiffWalk(a, a)| == |a|
    ensures forall k :: 0 <= k < |a| ==> DiffWalk(a, a)[k] == DiffPart(Same, a[k])
    decreases |a|
  {
    if |a| > 0 {
      WalkIdentity(DropLast(a));
    }
  }

  /** When the last tokens differ and dropping either one loses the same
      amount of LCS, both choices keep a longest common subsequence, and the
      walk emits the token of `b` as `added`. */
  lemma TieBreak(a: seq<string>, b: seq<string>)
    requires |a| > 0 && |b| > 0 && Last(a) != Last(b)
    requires Lcs(a, DropLast(b)) == Lcs(DropLast(a), b)
    ensures Lcs(a, DropLast(b)) == Lcs(a, b) && Lcs(DropLast(a), b) == Lcs(a, b)
    ensures Last(DiffWalk(a, b)) == DiffPart(Added, Last(b))
    ensures DropLast(DiffWalk(a, b)) == DiffWalk(a, DropLast(b))
  {
  }

  /** `C` is the (m+1)×(n+1) table whose entry `C[i][j]` is the LCS length of
      the first `i` tokens of `a` and the first `j` tokens of `b`. */
  predicate IsLcsTable(C: seq<seq<nat>>, a: seq<string>, b: seq<string>) {
    && |C| == |a| + 1
    && (forall i :: 0 <= i < |C| ==> |C[i]| == |b| + 1)
    && (forall i, j :: 0 <= i < |C| && 0 <= j < |C[i]| ==> C[i][j] == Lcs(a[..i], b[..j]))
  }

  /** The recurrence at one inner cell, stated on prefixes. */
  lemma LcsCell(a: seq<string>, b: seq<string>, i: nat, j: nat)
    requires 0 < i <= |a| && 0 < j <= |b|
    ensures a[i - 1] == b[j - 1] ==> Lcs(a[..i], b[..j]) == Lcs(a[..i - 1], b[..j - 1]) + 1
    ensures a[i - 1] != b[j - 1] ==>
      Lcs(a[..i], b[..j]) == Max(Lcs(a[..i], b[..j - 1]), Lcs(a[..i - 1], b[..j]))
  {
    assert DropLast(a[..i]) == a[..i - 1];
    assert DropLast(b[..j]) == b[..j - 1];
  }

  /** The steps of the walk, stated on the prefixes `a[..i]` and `b[..j]`. */
  lemma WalkSame(a: seq<string>, b: seq<string>, i: nat, j: nat)
    requires 0 < i <= |a| && 0 < j <= |b| && a[i - 1] == b[j - 1]
    ensures DiffWalk(a[..i], b[..j]) == DiffWalk(a[..i - 1], b[..j - 1]) + [DiffPart(Same, a[i - 1])]
  {
    assert DropLast(a[..i]) == a[..i - 1];
    assert DropLast(b[..j]) == b[..j - 1];
  }

  lemma WalkAdded(a: seq<string>, b: seq<string>, i: nat, j: nat)
    requires i <= |a| && 0 < j <= |b| && !(i > 0 && a[i - 1] == b[j - 1])
    requires i == 0 || Lcs(a[..i], b[..j - 1]) >= Lcs(a[..i - 1], b[..j])
    ensures DiffWalk(a[..i], b[..j]) == DiffWalk(a[..i], b[..j - 1]) + [DiffPart(Added, b[j - 1])]
  {
    if i > 0 { assert DropLast(a[..i]) == a[..i - 1]; }
    assert DropLast(b[..j]) == b[..j - 1];
  }

  lemma WalkRemoved(a: seq<string>, b: seq<string>, i: nat, j: nat)
    requires 0 < i <= |a| && j <= |b| && !(j > 0 && a[i - 1] == b[j - 1])
    requires j == 0 || Lcs(a[..i], b[..j - 1]) < Lcs(a[..i - 1], b[..j])
    ensures DiffWalk(a[..i], b[..j]) == DiffWalk(a[..i - 1], b[..j]) + [DiffPart(Removed, a[i - 1])]
  {
    assert DropLast(a[..i]) == a[..i - 1];
    if j > 0 { assert DropLast(b[..j]) == b[..j - 1]; }
  }

  /** Moving a part from the walk still to do onto the front of the output. */
  lemma Advance(whole: seq<DiffPart>, todo: seq<DiffPart>, rest: seq<DiffPart>,
                p: DiffPart, diff: seq<DiffPart>)
    requires todo == rest + [p] && todo + diff == whole
    ensures rest + ([p] + diff) == whole
    ensures forall t :: Count([p] + diff, t) == Count(diff, t) + (if p.kind == t then 1 else 0)
  {
    CountCons(p, diff);
  }

  /** Putting a part in front adds it to the count of its type. */
  lemma {:induction false} CountCons(p: DiffPart, d: seq<DiffPart>)
    ensures forall t :: Count([p] + d, t) == Count(d, t) + (if p.kind == t then 1 else 0)
    decreases |d|
  {
    if |d| > 0 {
      CountCons(p, DropLast(d));
      assert DropLast([p] + d) == [p] + DropLast(d);
      assert Last([p] + d) == Last(d);
    } else {
      assert DropLast([p] + d) == [];
    }
  }

  /** Fills the LCS table row by row, as the nested loops of `computeWordDiff` do:
      row 0 and column 0 are 0, a match extends the diagonal, otherwise the
      larger of the left and upper neighbours is taken. */
  method FillTable(a: seq<string>, b: seq<string>) returns (C: seq<seq<nat>>)
    ensures IsLcsTable(C, a, b)
  {
    var m, n := |a|, |b|;
    C := [seq(n + 1, _ => 0)];
    var i := 1;
    while i <= m
      invariant 1 <= i <= m + 1
      invariant |C| == i
      invariant forall r :: 0 <= r < i ==> |C[r]| == n + 1
      invariant forall r, c :: 0 <= r < i && 0 <= c <= n ==> C[r][c] == Lcs(a[..r], b[..c])
    {
      var row: seq<nat> := [0];
      var j := 1;
      while j <= n
        invariant 1 <= j <= n + 1
        invariant |row| == j
        invariant forall c :: 0 <= c < j ==> row[c] == Lcs(a[..i], b[..c])
      {
        LcsCell(a, b, i, j);
        if a[i - 1] == b[j - 1] {
          row := row + [C[i - 1][j - 1] + 1];
        } else {
          row := row + [Max(row[j - 1], C[i - 1][j])];
        }
        j := j + 1;
      }
      C := C + [row];
      i := i + 1;
    }
  }

  /** Walks back from `(m, n)` to `(0, 0)`, putting each part in front of the
      ones found so far. Exactly one of the three guarded steps applies at each
      point, and each step lowers `i + j`. */
  method Backtrack(a: seq<string>, b: seq<string>, C: seq<seq<nat>>) returns (diff: seq<DiffPart>)
    requires IsLcsTable(C, a, b)
    ensures diff == DiffWalk(a, b)
    ensures Count(diff, Same) == C[|a|][|b|]
  {
    var m, n := |a|, |b|;
    diff := [];
    var i, j := m, n;
    assert a[..m] == a && b[..n] == b;
    while i > 0 || j > 0
      invariant 0 <= i <= m && 0 <= j <= n
      invariant DiffWalk(a[..i], b[..j]) + diff == DiffWalk(a, b)
      invariant Count(diff, Same) + C[i][j] == C[m][n]
      decreases i + j
    {
      if i > 0 && j > 0 { LcsCell(a, b, i, j); }
      if i > 0 && j > 0 && a[i - 1] == b[j - 1] {
        WalkSame(a, b, i, j);
        var p := DiffPart(Same, a[i - 1]);
        Advance(DiffWalk(a, b), DiffWalk(a[..i], b[..j]), DiffWalk(a[..i - 1], b[..j - 1]), p, diff);
        diff := [p] + diff;
        i, j := i - 1, j - 1;
      } else if j > 0 && (i == 0 || C[i][j - 1] >= C[i - 1][j]) {
        WalkAdded(a, b, i, j);
        var p := DiffPart(Added, b[j - 1]);
        Advance(DiffWalk(a, b), DiffWalk(a[..i], b[..j]), DiffWalk(a[..i], b[..j - 1]), p, diff);
        diff := [p] + diff;
        j := j - 1;
      } else if i > 0 && (j == 0 || C[i][j - 1] < C[i - 1][j]) {
        WalkRemoved(a, b, i, j);
        var p := DiffPart(Removed, a[i - 1]);
        Advance(DiffWalk(a, b), DiffWalk(a[..i], b[..j]), DiffWalk(a[..i - 1], b[..j]), p, diff);
        diff := [p] + diff;
        i := i - 1;
      } else {
        assert false;
      }
    }
    assert a[..0] == [] && b[..0] == [];
  }

  /** `computeWordDiff`: tokenise both texts, fill the table, walk back. The
      result rebuilds both texts, keeps a longest common subsequence of their
      tokens as `same` parts and marks every other token as `added` or
      `removed`. */
  method ComputeWordDiff(text1: string, text2: string) returns (diff: seq<DiffPart>)
    ensures diff == Diff(text1, text2)
    ensures Join(OldSide(diff)) == text1
    ensures Join(NewSide(diff)) == text2
    ensures Count(diff, Same) == Lcs(Split(text1), Split(text2))
    ensures Count(diff, Added) == |Split(text2)| - Count(diff, Same)
    ensures Count(diff, Removed) == |Split(text1)| - Count(diff, Same)
  {
    var words1 := Split(text1);
    var words2 := Split(text2);
    var C := FillTable(words1, words2);
    diff := Backtrack(words1, words2, C);
    WalkReconstructs(words1, words2);
    WalkCounts(words1, words2);
  }

  /** Diffing a text against itself gives one `same` part per token. */
  lemma DiffIdentity(t: string)
    ensures |Diff(t, t)| == |Split(t)|
    ensures forall k :: 0 <= k < |Diff(t, t)| ==> Diff(t, t)[k] == DiffPart(Same, Split(t)[k])
    ensures Count(Diff(t, t), Added) == 0 && Count(Diff(t, t), Removed) == 0
  {
    var toks := Split(t);
    var d := DiffWalk(toks, toks);
    WalkIdentity(toks);
    WalkReconstructs(toks, toks);
    SideLengths(d);
  }

  /** An empty original text is one empty token, so it shows up as an empty
      `removed` part next to the `added` text. */
  lemma DiffFromEmpty(text1: string, text2: string)
    requires text1 == "" && text2 == "x"
    ensures Diff(text1, text2) == [DiffPart(Removed, ""), DiffPart(Added, "x")]
  {
    assert Split(text1) == [""];
    assert WordLength(text2) == 1;
    assert Split(text2) == ["x"];
    assert Lcs([""], ["x"][..0]) == 0;
  }

  /** Every token of `b` as an `added` part, in order. */
  function AllAdded(b: seq<string>): seq<DiffPart> {
    seq(|b|, i requires 0 <= i < |b| => DiffPart(Added, b[i]))
  }

  /** Against the single empty token, the LCS is 1 exactly when the other
      side holds an empty token. */
  lemma {:induction false} LcsEmptyToken(b: seq<string>)
    ensures Lcs([""], b) == if "" in b then 1 else 0
    decreases |b|
  {
    var a: seq<string> := [""];
    if |b| > 0 {
      DropLastLast(b);
      if Last(b) != "" {
        LcsEmptyToken(DropLast(b));
        assert "" in b <==> "" in DropLast(b);
        assert DropLast(a) == [];
      }
    }
  }

  /** When `b` holds no empty token, the lone empty token of `a` is matched
      with nothing: every token of `b` is `added`, after one empty `removed`. */
  lemma {:induction false} WalkFromEmptyToken(b: seq<string>)
    requires "" !in b
    ensures DiffWalk([""], b) == [DiffPart(Removed, "")] + AllAdded(b)
    decreases |b|
  {
    var a: seq<string> := [""];
    if |b| == 0 {
      assert DropLast(a) == [];
    } else {
      DropLastLast(b);
      assert Lcs(DropLast(a), b) == 0;
      WalkFromEmptyToken(DropLast(b));
      assert AllAdded(DropLast(b)) + [DiffPart(Added, Last(b))] == AllAdded(b);
    }
  }

  /** Diffing the empty text: its split is one empty token. When the revised
      text is non-empty and neither starts nor ends with whitespace, that
      token is an empty `removed` part in front of one `added` part per
      token. Otherwise the revised split holds an empty token too, the empty
      token is kept as `same`, and every other token is `added`. */
  lemma DiffFromEmptyText(t: string)
    ensures var d := Diff("", t);
      && (Count(d, Removed) == 0 <==> EdgeWhitespace(t))
      && (!EdgeWhitespace(t) ==> d == [DiffPart(Removed, "")] + AllAdded(Split(t)))
      && (EdgeWhitespace(t) ==>
            Count(d, Same) == 1 && Count(d, Added) == |Split(t)| - 1)
  {
    var a: seq<string> := [""];
    assert Split("") == a;
    var b := Split(t);
    EmptyTokenAtEdges(t);
    LcsEmptyToken(b);
    WalkCounts(a, b);
    if "" !in b {
      WalkFromEmptyToken(b);
    }
  }

  /** Replacing one word: the neighbouring words and spaces stay `same`, the
      old word is `removed` just before the new word is `added`. */
  lemma DiffReplacedWord(text1: string, text2: string)
    requires text1 == "The cat sat" && text2 == "The dog sat"
    ensures Diff(text1, text2) ==
      [DiffPart(Same, "The"), DiffPart(Same, " "), DiffPart(Removed, "cat"),
       DiffPart(Added, "dog"), DiffPart(Same, " "), DiffPart(Same, "sat")]
  {
    assert NoWhitespace("The") && NoWhitespace("cat") && NoWhitespace("dog") && NoWhitespace("sat");
    assert text1 == "The" + " " + ("cat" + " " + "sat");
    assert text2 == "The" + " " + ("dog" + " " + "sat");
    SplitSentence(text1, "The", "cat", "sat");
    SplitSentence(text2, "The", "dog", "sat");
    WalkReplacedWord(["The", " ", "cat", " ", "sat"], ["The", " ", "dog", " ", "sat"]);
  }

  /** The walk over the tokens of the replaced-word example, step by step. */
  lemma WalkReplacedWord(a: seq<string>, b: seq<string>)
    requires a == ["The", " ", "cat", " ", "sat"] && b == ["The", " ", "dog", " ", "sat"]
    ensures DiffWalk(a, b) ==
      [DiffPart(Same, "The"), DiffPart(Same, " "), DiffPart(Removed, "cat"),
       DiffPart(Added, "dog"), DiffPart(Same, " "), DiffPart(Same, "sat")]
  {
    var a1, b1 := ["The"], ["The"];
    var a2, b2 := a1 + [" "], b1 + [" "];
    var a3, b3 := a2 + ["cat"], b2 + ["dog"];
    var a5, b5 := a3 + [" ", "sat"], b3 + [" ", "sat"];
    assert Lcs(a1, b1) == 1 by { assert DropLast(a1) == []; }
    assert Lcs(a2, b2) == 2 by { assert DropLast(a2) == a1 && DropLast(b2) == b1; }
    assert Lcs(a2, b1) == 1 by { assert DropLast(a2) == a1 && DropLast(b1) == []; }
    assert Lcs(a3, b1) == 1 by { assert DropLast(a3) == a2 && DropLast(b1) == []; }
    assert Lcs(a3, b2) == 2 by { assert DropLast(a3) == a2 && DropLast(b2) == b1; }
    assert Lcs(a2, b3) == 2 by {
      assert DropLast(a2) == a1 && DropLast(b3) == b2;
      LcsBound(a1, b3);
    }
    var w2 := [DiffPart(Same, "The"), DiffPart(Same, " ")];
    assert DiffWalk(a1, b1) == [DiffPart(Same, "The")] by {
      assert DropLast(a1) == [] && DropLast(b1) == [];
    }
    assert DiffWalk(a2, b2) == w2 by { assert DropLast(a2) == a1 && DropLast(b2) == b1; }
    var w3 := w2 + [DiffPart(Removed, "cat")];
    assert DiffWalk(a3, b2) == w3 by { assert DropLast(a3) == a2 && DropLast(b2) == b1; }
    var w4 := w3 + [DiffPart(Added, "dog")];
    assert DiffWalk(a3, b3) == w4 by { assert DropLast(a3) == a2 && DropLast(b3) == b2; }
    var w5 := w4 + [DiffPart(Same, " ")];
    assert DiffWalk(a3 + [" "], b3 + [" "]) == w5 by {
      assert DropLast(a3 + [" "]) == a3 && DropLast(b3 + [" "]) == b3;
    }
    assert DiffWalk(a5, b5) == w5 + [DiffPart(Same, "sat")] by {
      assert DropLast(a5) == a3 + [" "] && DropLast(b5) == b3 + [" "];
    }
    assert a5 == a && b5 == b;
  }

  /** Splitting a word, one space and a remainder that starts with a word. */
  lemma SplitWordSpace(word: string, after: string, tail: seq<string>)
    requires |word| > 0 && NoWhitespace(word)
    requires |after| > 0 && !IsWhitespace(after[0])
    requires Split(after) == tail
    ensures Split(word + " " + after) == [word, " "] + tail
  {
    var s := word + " " + after;
    assert s == word + (" " + after);
    WordLengthOfWord(word, " " + after);
    SpaceLengthOfRun(" ", after);
    assert s[|word|..] == " " + after;
    assert (" " + after)[1..] == after;
  }

  /** Splitting three words separated by single spaces. */
  lemma SplitThreeWords(w1: string, w2: string, w3: string)
    requires |w1| > 0 && |w2| > 0 && |w3| > 0
    requires NoWhitespace(w1) && NoWhitespace(w2) && NoWhitespace(w3)
    ensures Split(w1 + " " + (w2 + " " + w3)) == [w1, " ", w2, " ", w3]
  {
    var rest := w2 + " " + w3;
    assert [w2, " "] + [w3] == [w2, " ", w3];
    assert [w1, " "] + [w2, " ", w3] == [w1, " ", w2, " ", w3];
    assert rest[0] == w2[0];
    SplitOneWord(w3);
    SplitWordSpace(w2, w3, [w3]);
    SplitWordSpace(w1, rest, [w2, " ", w3]);
  }

  /** The tokens of a three-word sentence with single spaces. */
  lemma SplitSentence(t: string, w1: string, w2: string, w3: string)
    requires |w1| > 0 && |w2| > 0 && |w3| > 0
    requires NoWhitespace(w1) && NoWhitespace(w2) && NoWhitespace(w3)
    requires t == w1 + " " + (w2 + " " + w3)
    ensures Split(t) == [w1, " ", w2, " ", w3]
  {
    SplitThreeWords(w1, w2, w3);
  }

  /** A text without whitespace is a single token. */
  lemma SplitOneWord(w: string)
    requires NoWhitespace(w)
    ensures Split(w) == [w]
  {
    WordLengthOfWord(w, []);
    assert w + [] == w;
  }
}
