/**
 * Nearest-word selection (`findMostSimilarWord`) and token snapping
 * (`snapWordsToVocabulary`), as specification functions over the vocabulary in its set
 * order. The class methods that run the loops are in the Model module.
 */
module Similarity {
  import opened Alphabet
  import opened Histogram
  import opened Text
  import opened OrderedSet

  /** |len(candidate) - len(word)|, the secondary key of the scan. */
  function LengthGap(candidate: string, word: string): nat {
    if |candidate| >= |word| then |candidate| - |word| else |word| - |candidate|
  }

  /** The (squared, exact) cosine of the two histograms. */
  function WordScore(word: string, candidate: string): real {
    Score(Embed(word), Embed(candidate))
  }

  /** The scan state of `findMostSimilarWord`: the best word so far and its score. */
  datatype Best = Best(word: string, score: real)

  /** The scan starts from the query word itself with the floor score -1. */
  function Initial(word: string): Best {
    Best(word, -1.0)
  }

  /**
   * The replacement test: a strictly higher score, or an equal score with a strictly smaller
   * length gap.
   */
  predicate Replaces(word: string, candidate: string, best: Best)
  {
    var s := WordScore(word, candidate);
    s > best.score || (s == best.score && LengthGap(candidate, word) < LengthGap(best.word, word))
  }

  /** The scan over the candidates in order, as a left fold. */
  function Scan(word: string, candidates: seq<string>): (r: Best)
    ensures candidates == [] ==> r == Initial(word)
    ensures candidates != [] ==> r.score == WordScore(word, r.word)
    decreases |candidates|
  {
    if candidates == [] then Initial(word)
    else
      var best := Scan(word, candidates[..|candidates| - 1]);
      var c := candidates[|candidates| - 1];
      if Replaces(word, c, best) then Best(c, WordScore(word, c)) else best
  }

  /** Candidate x ranks strictly above candidate y for the query word. */
  predicate Outranks(word: string, x: string, y: string) {
    WordScore(word, x) > WordScore(word, y) ||
    (WordScore(word, x) == WordScore(word, y) && LengthGap(x, word) < LengthGap(y, word))
  }

  /**
   * The selection rule: on a non-empty candidate list the scan returns the candidate at some
   * position k, together with its score, such that no candidate outranks it and it outranks
   * every earlier candidate. So the highest score wins, then the smallest length gap, then
   * the earliest position.
   */
  lemma {:induction false} ScanSelects(word: string, candidates: seq<string>) returns (k: nat)
    requires candidates != []
    ensures k < |candidates| && Scan(word, candidates) == Best(candidates[k], WordScore(word, candidates[k]))
    ensures forall j :: 0 <= j < |candidates| ==> !Outranks(word, candidates[j], candidates[k])
    ensures forall j :: 0 <= j < k ==> Outranks(word, candidates[k], candidates[j])
    decreases |candidates|
  {
    var n := |candidates| - 1;
    var init := candidates[..n];
    assert candidates == init + [candidates[n]];
    if n == 0 {
      k := 0;
    } else {
      var k0 := ScanSelects(word, init);
      k := ScanSelectsStep(word, init, candidates[n], k0);
    }
  }

  /** One step of the scan keeps the selection rule: the induction step of `ScanSelects`. */
  lemma ScanSelectsStep(word: string, init: seq<string>, c: string, k0: nat) returns (k: nat)
    requires k0 < |init| && Scan(word, init) == Best(init[k0], WordScore(word, init[k0]))
    requires forall j :: 0 <= j < |init| ==> !Outranks(word, init[j], init[k0])
    requires forall j :: 0 <= j < k0 ==> Outranks(word, init[k0], init[j])
    ensures k <= |init| && Scan(word, init + [c]) == Best((init + [c])[k], WordScore(word, (init + [c])[k]))
    ensures forall j :: 0 <= j < |init| + 1 ==> !Outranks(word, (init + [c])[j], (init + [c])[k])
    ensures forall j :: 0 <= j < k ==> Outranks(word, (init + [c])[k], (init + [c])[j])
  {
    var all := init + [c];
    assert all[..|init|] == init;
    assert all[|init|] == c;
    if Replaces(word, c, Scan(word, init)) {
      k := |init|;
    } else {
      k := k0;
    }
  }

  /** With no candidates the scan returns the query word with the floor score. */
  lemma ScanEmpty(word: string)
    ensures Scan(word, []) == Best(word, -1.0)
  {
  }

  /** The result is a candidate whenever there is one. */
  lemma ScanMember(word: string, candidates: seq<string>)
    requires candidates != []
    ensures Scan(word, candidates).word in candidates
  {
    var k := ScanSelects(word, candidates);
  }

  /**
   * Over a vocabulary in set order, a candidate that ties the result on both score and
   * length gap is the result itself or comes after it in lexicographic order.
   */
  lemma FullTieGoesToFirst(word: string, candidates: seq<string>, x: string)
    requires StrictlySorted(candidates) && x in candidates
    requires WordScore(word, x) == Scan(word, candidates).score
    requires LengthGap(x, word) == LengthGap(Scan(word, candidates).word, word)
    ensures x == Scan(word, candidates).word || Below(Scan(word, candidates).word, x)
  {
    var k := ScanSelects(word, candidates);
    var j :| 0 <= j < |candidates| && candidates[j] == x;
    assert !Outranks(word, candidates[k], candidates[j]);
  }

  /** Anagrams score the same against any query. */
  lemma AnagramTie(word: string, x: string, y: string)
    requires multiset(x) == multiset(y)
    ensures WordScore(word, x) == WordScore(word, y)
  {
    EmbedPermutation(x, y);
  }

  /** Two candidates that tie on score and on length: the earlier one is kept. */
  lemma TieGoesToFirst(word: string, x: string, y: string)
    requires WordScore(word, x) == WordScore(word, y) && |x| == |y|
    ensures Scan(word, [x, y]) == Best(x, WordScore(word, x))
  {
    var s := WordScore(word, x);
    assert s >= 0.0;
    assert Scan(word, [x]) == Best(x, s) by {
      assert [x][..0] == [];
      assert Scan(word, []) == Initial(word);
    }
    assert [x, y][..1] == [x];
    assert LengthGap(y, word) == LengthGap(x, word);
  }

  /**
   * Vocabulary {"cat", "tac"} queried with "act": both tie on score and length gap, and
   * "cat", first in set order, wins.
   */
  lemma CatTacExample()
    ensures StrictlySorted(["cat", "tac"])
    ensures Scan("act", ["cat", "tac"]).word == "cat"
  {
    var query, cat, tac := "act", "cat", "tac";
    assert StrictlySorted([cat, tac]) by {
      assert Below(cat, tac);
      forall i, j | 0 <= i < j < 2
        ensures Below([cat, tac][i], [cat, tac][j])
      {
        assert i == 0 && j == 1;
      }
    }
    assert multiset(cat) == multiset(tac) by {
      assert cat == ['c', 'a', 't'] && tac == ['t', 'a', 'c'];
    }
    AnagramTie(query, tac, cat);
    TieGoesToFirst(query, cat, tac);
  }

  // ---------------------------------------------------------------------------------------
  // Snapping
  // ---------------------------------------------------------------------------------------

  /** An empty piece stays empty; any other piece becomes the scan's result for it. */
  function SnapToken(words: seq<string>, token: string): (r: string)
    ensures token == [] ==> r == []
    ensures token != [] && words != [] ==> r in words
    ensures words == [] ==> r == token
  {
    if token == [] then []
    else
      assert words != [] ==> Scan(token, words).word in words by {
        if words != [] {
          ScanMember(token, words);
        }
      }
      Scan(token, words).word
  }

  function SnapAll(words: seq<string>, tokens: seq<string>): (r: seq<string>)
    ensures |r| == |tokens|
  {
    seq(|tokens|, i requires 0 <= i < |tokens| => SnapToken(words, tokens[i]))
  }

  /** Snapping one more piece appends its snapped form. */
  lemma SnapAllSnoc(words: seq<string>, tokens: seq<string>, i: nat)
    requires i < |tokens|
    ensures SnapAll(words, tokens[..i + 1]) == SnapAll(words, tokens[..i]) + [SnapToken(words, tokens[i])]
  {
    var l, r := SnapAll(words, tokens[..i + 1]), SnapAll(words, tokens[..i]) + [SnapToken(words, tokens[i])];
    assert |l| == |r|;
    forall k | 0 <= k < |l| ensures l[k] == r[k] {
      assert tokens[..i + 1][k] == tokens[k];
    }
  }

  /** `snapWordsToVocabulary`: split on ' ', snap each piece, join with one ' ' per gap. */
  function Snapped(words: seq<string>, raw: string): (r: string)
    ensures words == [] ==> r == raw
  {
    var pieces := SplitOn(raw, ' ');
    assert words == [] ==> SnapAll(words, pieces) == pieces;
    JoinSplit(raw, ' ');
    Join(SnapAll(words, pieces), ' ')
  }

  /**
   * The spacing condition of SnapKeepsSpacing is needed: a vocabulary word holding a space,
   * which a word file may contain, turns the one piece "x" into the two pieces "a" and "b".
   */
  lemma SpacedWordSplits()
    ensures Snapped(["a b"], "x") == "a b"
    ensures SplitOn("x", ' ') == ["x"] && SplitOn(Snapped(["a b"], "x"), ' ') == ["a", "b"]
  {
    var x, a, b := "x", "a", "b";
    assert "a b" == a + [' '] + b;
    SpacedWord(x, a, b);
  }

  /** A one-word vocabulary whose word is a + ' ' + b snaps any space-free piece into two. */
  lemma SpacedWord(x: string, a: string, b: string)
    requires x != [] && ' ' !in x && ' ' !in a && ' ' !in b
    ensures Snapped([a + [' '] + b], x) == a + [' '] + b
    ensures SplitOn(x, ' ') == [x] && SplitOn(a + [' '] + b, ' ') == [a, b]
  {
    SnapOneWord(a + [' '] + b, x);
    SplitFree(x, ' ');
    JoinPair(a, b, ' ');
    SplitJoin([a, b], ' ');
  }

  /** With a one-word vocabulary, a space-free non-empty piece snaps to that word. */
  lemma SnapOneWord(w: string, x: string)
    requires x != [] && ' ' !in x
    ensures Snapped([w], x) == w
  {
    SplitFree(x, ' ');
    assert SnapAll([w], [x]) == [w] by {
      assert SnapToken([w], x) == w;
    }
    assert Join([w], ' ') == w;
  }

  /**
   * When no vocabulary word is empty or contains a space, snapping keeps the spacing: the
   * output splits into as many pieces as the input, each piece is empty exactly when the
   * input piece was, and every non-empty piece is a vocabulary word (or, with no vocabulary,
   * the input piece).
   */
  lemma SnapKeepsSpacing(words: seq<string>, raw: string)
    requires forall w :: w in words ==> w != [] && ' ' !in w
    ensures var pieces := SplitOn(raw, ' ');
            var out := SplitOn(Snapped(words, raw), ' ');
            && out == SnapAll(words, pieces)
            && |out| == |pieces|
            && (forall i :: 0 <= i < |out| ==> (out[i] == [] <==> pieces[i] == []))
            && (forall i :: 0 <= i < |out| && pieces[i] != [] ==>
                  if words == [] then out[i] == pieces[i] else out[i] in words)
  {
    var pieces := SplitOn(raw, ' ');
    var snapped := SnapAll(words, pieces);
    SplitPiecesFree(raw, ' ');
    forall i | 0 <= i < |pieces| && pieces[i] != []
      ensures if words == [] then snapped[i] == pieces[i] else snapped[i] in words
    {
      if words != [] {
        ScanMember(pieces[i], words);
      }
    }
    forall piece | piece in snapped ensures ' ' !in piece {
      var i :| 0 <= i < |snapped| && snapped[i] == piece;
      assert pieces[i] in pieces;
    }
    SplitJoin(snapped, ' ');
  }

  /** Two space-free words around a double space split into the words and one empty piece. */
  lemma SplitDoubleSpace(x: string, y: string)
    requires ' ' !in x && ' ' !in y
    ensures SplitOn(x + "  " + y, ' ') == [x, "", y]
  {
    var e: string := [];
    var s2 := x + [' '] + [' '];
    assert x + "  " + y == s2 + y;
    assert SplitOn(s2, ' ') == [x, e, e] by {
      SplitFree(x, ' ');
      SplitAppendSep(x, ' ');
      SplitAppendSep(x + [' '], ' ');
    }
    assert SplitOn(s2 + y, ' ') == [x, e, y] by {
      SplitAppendFree(s2, y, ' ');
      ExtendEmpty([x, e], y);
      assert [x, e] + [e] == [x, e, e];
    }
  }

  /** Snapping three pieces snaps each of them. */
  lemma SnapAllTriple(words: seq<string>, x: string, m: string, y: string)
    ensures SnapAll(words, [x, m, y]) == [SnapToken(words, x), SnapToken(words, m), SnapToken(words, y)]
  {
  }

  /** A double space between two space-free words survives snapping. */
  lemma DoubleSpaceExample(words: seq<string>, x: string, y: string)
    requires ' ' !in x && ' ' !in y
    ensures Snapped(words, x + "  " + y) == SnapToken(words, x) + "  " + SnapToken(words, y)
  {
    var a, b := SnapToken(words, x), SnapToken(words, y);
    calc {
      Snapped(words, x + "  " + y);
      Join(SnapAll(words, SplitOn(x + "  " + y, ' ')), ' ');
      { SplitDoubleSpace(x, y); }
      Join(SnapAll(words, [x, "", y]), ' ');
      { SnapAllTriple(words, x, "", y); }
      Join([a, "", b], ' ');
      { JoinTriple(a, "", b, ' '); }
      a + "  " + b;
    }
  }
}
