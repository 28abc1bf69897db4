/**
 * Character-frequency embedding (`embedWord`) and cosine similarity (`cosineSimilarity`).
 *
 * The source computes the cosine in double precision. Histograms only hold non-negative
 * counts, so the cosine is never negative, and comparing cosines is the same as comparing
 * their squares. The model's `Score` is the exact squared cosine, a rational number.
 */
module Histogram {
  import opened Alphabet

  /** Reference definition of the embedding: slot i counts the occurrences of `Supported[i]`. */
  function Embed(w: string): (h: seq<nat>)
    ensures |h| == VocabSize
  {
    seq(VocabSize, i requires 0 <= i < VocabSize => multiset(w)[Supported[i]])
  }

  /** The zero histogram. */
  function Zeros(): (h: seq<nat>)
    ensures |h| == VocabSize && forall i :: 0 <= i < VocabSize ==> h[i] == 0
  {
    seq(VocabSize, _ => 0)
  }

  /** The empty string embeds to all zeros. */
  lemma EmbedEmpty()
    ensures Embed([]) == Zeros()
  {
  }

  /**
   * Appending a supported character increments exactly its own slot by one; appending an
   * unsupported character changes nothing.
   */
  lemma EmbedAppend(w: string, c: char)
    ensures var h := Embed(w);
            Embed(w + [c]) == if IsSupported(c) then h[CharIndex(c) := h[CharIndex(c)] + 1] else h
  {
    assert multiset(w + [c]) == multiset(w) + multiset{c};
    var h := Embed(w);
    if IsSupported(c) {
      var k := CharIndex(c);
      forall i | 0 <= i < VocabSize ensures Embed(w + [c])[i] == h[k := h[k] + 1][i] {
        IndexOfEntry(i);
      }
    }
  }

  /** Only the multiset of characters matters: rearranging a word keeps its embedding. */
  lemma EmbedPermutation(u: string, v: string)
    requires multiset(u) == multiset(v)
    ensures Embed(u) == Embed(v)
  {
  }

  /** "cat" has exactly three non-zero slots, those of 'a', 'c' and 't', each equal to 1. */
  lemma EmbedCat()
    ensures forall i :: 0 <= i < VocabSize ==>
      Embed("cat")[i] == if Supported[i] in {'a', 'c', 't'} then 1 else 0
  {
    assert multiset("cat") == multiset{'a', 'c', 't'};
  }

  /** "aaa" has a single non-zero slot, that of 'a', equal to 3. */
  lemma EmbedTripleA()
    ensures Embed("aaa")[CharIndex('a')] == 3
    ensures forall i :: 0 <= i < VocabSize && i != CharIndex('a') ==> Embed("aaa")[i] == 0
  {
    assert multiset("aaa") == multiset{'a', 'a', 'a'};
    assert CharIndex('a') == 64 && Supported[64] == 'a';
    assert Embed("aaa")[64] == multiset("aaa")['a'] == 3;
    forall i | 0 <= i < VocabSize && i != CharIndex('a') ensures Embed("aaa")[i] == 0 {
      IndexOfEntry(i);
    }
  }

  /**
   * `embedWord`: for each character, a scan of the table finds its slot and bumps it; a
   * character without a slot is skipped.
   */
  method EmbedWord(word: string) returns (histogram: seq<nat>)
    ensures histogram == Embed(word)
    ensures |histogram| == VocabSize
    ensures forall i :: 0 <= i < VocabSize ==> histogram[i] == multiset(word)[Supported[i]]
  {
    histogram := Zeros();
    for k := 0 to |word|
      invariant histogram == Embed(word[..k])
    {
      var c := word[k];
      assert word[..k + 1] == word[..k] + [c];
      EmbedAppend(word[..k], c);
      for i := 0 to VocabSize
        invariant forall j :: 0 <= j < i ==> Supported[j] != c
      {
        if Supported[i] == c {
          IndexOfEntry(i);
          histogram := histogram[i := histogram[i] + 1];
          break;
        }
      }
    }
    assert word[..|word|] == word;
    assert histogram == Embed(word);
  }

  // ---------------------------------------------------------------------------------------
  // Similarity
  // ---------------------------------------------------------------------------------------

  /** Dot product of two equally long count vectors. */
  function Dot(a: seq<nat>, b: seq<nat>): (r: nat)
    requires |a| == |b|
    ensures a == b ==> (r == 0 <==> forall i :: 0 <= i < |a| ==> a[i] == 0)
    decreases |a|
  {
    if a == [] then 0
    else
      assert forall i :: 1 <= i < |a| ==> a[i] == a[1..][i - 1];
      a[0] * b[0] + Dot(a[1..], b[1..])
  }

  /** Extending both vectors by one slot adds that slot's product. */
  lemma {:induction false} DotAppend(a: seq<nat>, b: seq<nat>, x: nat, y: nat)
    requires |a| == |b|
    ensures Dot(a + [x], b + [y]) == Dot(a, b) + x * y
    decreases |a|
  {
    if a != [] {
      assert (a + [x])[1..] == a[1..] + [x];
      assert (b + [y])[1..] == b[1..] + [y];
      DotAppend(a[1..], b[1..], x, y);
    }
  }

  /** One more step of a running dot product over prefixes. */
  lemma DotPrefix(a: seq<nat>, b: seq<nat>, i: nat)
    requires |a| == |b| && i < |a|
    ensures Dot(a[..i + 1], b[..i + 1]) == Dot(a[..i], b[..i]) + a[i] * b[i]
  {
    assert a[..i + 1] == a[..i] + [a[i]] && b[..i + 1] == b[..i] + [b[i]];
    DotAppend(a[..i], b[..i], a[i], b[i]);
  }

  /** The running sums of `cosineSimilarity` after the first i slots. */
  ghost predicate Sums(a: seq<nat>, b: seq<nat>, i: nat, dot: int, magA: int, magB: int)
    requires |a| == |b| && i <= |a|
  {
    dot == Dot(a[..i], b[..i]) && magA == Dot(a[..i], a[..i]) && magB == Dot(b[..i], b[..i])
  }

  lemma SumsStep(a: seq<nat>, b: seq<nat>, i: nat, dot: int, magA: int, magB: int)
    requires |a| == |b| && i < |a| && Sums(a, b, i, dot, magA, magB)
    ensures Sums(a, b, i + 1, dot + a[i] * b[i], magA + a[i] * a[i], magB + b[i] * b[i])
  {
    DotPrefix(a, b, i);
    DotPrefix(a, a, i);
    DotPrefix(b, b, i);
  }

  lemma SumsDone(a: seq<nat>, b: seq<nat>, dot: int, magA: int, magB: int)
    requires |a| == |b| && Sums(a, b, |a|, dot, magA, magB)
    ensures dot == Dot(a, b) && magA == Dot(a, a) && magB == Dot(b, b)
  {
    assert a[..|a|] == a && b[..|b|] == b;
  }

  /** Cauchy-Schwarz: the square of the dot product is at most the product of the squared norms. */
  lemma {:induction false} CauchySchwarz(a: seq<nat>, b: seq<nat>)
    requires |a| == |b|
    ensures Dot(a, b) * Dot(a, b) <= Dot(a, a) * Dot(b, b)
    decreases |a|
  {
    if a != [] {
      var x, y := a[0] as int, b[0] as int;
      var d, na, nb := Dot(a[1..], b[1..]) as int, Dot(a[1..], a[1..]) as int, Dot(b[1..], b[1..]) as int;
      CauchySchwarz(a[1..], b[1..]);
      assert d * d <= na * nb;
      CrossTerm(x, y, d, na, nb);
      calc {
        Dot(a, b) * Dot(a, b);
        (x * y + d) * (x * y + d);
        x * x * y * y + 2 * x * y * d + d * d;
      <=
        x * x * y * y + x * x * nb + y * y * na + na * nb;
        (x * x + na) * (y * y + nb);
        Dot(a, a) * Dot(b, b);
      }
    }
  }

  /** The cross term of the Cauchy-Schwarz step: 2xyd <= x^2 nb + y^2 na when d^2 <= na nb. */
  lemma CrossTerm(x: int, y: int, d: int, na: int, nb: int)
    requires x >= 0 && y >= 0 && d >= 0 && na >= 0 && nb >= 0 && d * d <= na * nb
    ensures 2 * x * y * d <= x * x * nb + y * y * na
  {
    if na == 0 {
      SquareZero(d);
    } else {
      var gap := x * x * nb + y * y * na - 2 * x * y * d;
      var u, v := x * d, y * na;
      GapIdentity(x, y, d, na, nb);
      MulMonotone(x * x, d * d, na * nb);
      SquareOfProduct(x, d);
      SquareExpand(u, v);
      SquareNonNegative(u - v);
      PositiveFactor(na, gap);
    }
  }

  /** na times the Cauchy-Schwarz gap, multiplied out. */
  lemma GapIdentity(x: int, y: int, d: int, na: int, nb: int)
    ensures na * (x * x * nb + y * y * na - 2 * x * y * d)
         == x * x * (na * nb) + (y * na) * (y * na) - 2 * (x * d) * (y * na)
  {
  }

  lemma SquareOfProduct(x: int, d: int)
    ensures x * x * (d * d) == (x * d) * (x * d)
  {
  }

  lemma SquareExpand(u: int, v: int)
    ensures (u - v) * (u - v) == u * u + v * v - 2 * u * v
  {
  }

  lemma SquareNonNegative(w: int)
    ensures w * w >= 0
  {
  }

  lemma MulMonotone(k: int, m: int, n: int)
    requires k >= 0 && m <= n
    ensures k * m <= k * n
  {
  }

  lemma PositiveFactor(p: int, q: int)
    requires p > 0 && p * q >= 0
    ensures q >= 0
  {
  }

  /** A count vector with a zero squared norm has only zero slots. */
  lemma {:induction false} ZeroNorm(a: seq<nat>, b: seq<nat>)
    requires |a| == |b| && Dot(a, a) == 0
    ensures Dot(a, b) == 0
    decreases |a|
  {
    if a != [] {
      assert a[0] * a[0] == 0;
      ZeroNorm(a[1..], b[1..]);
    }
  }

  /**
   * `cosineSimilarity`, squared and exact: dot^2 / (|a|^2 |b|^2), and 0 when either vector has
   * zero magnitude.
   */
  function Score(a: seq<nat>, b: seq<nat>): (r: real)
    requires |a| == |b|
    ensures 0.0 <= r <= 1.0
    ensures r == 0.0 <==> Dot(a, b) == 0
  {
    var dot, na, nb := Dot(a, b), Dot(a, a), Dot(b, b);
    if na == 0 || nb == 0 then
      ZeroNorms(a, b);
      0.0
    else
      CauchySchwarz(a, b);
      PositiveProduct(na, nb);
      SquareZero(dot);
      QuotientBounds(dot * dot, na * nb);
      (dot * dot) as real / (na * nb) as real
  }

  /** `Score` spelled out in terms of the three dot products. */
  lemma ScoreOf(a: seq<nat>, b: seq<nat>)
    requires |a| == |b|
    ensures Dot(a, a) == 0 || Dot(b, b) == 0 ==> Score(a, b) == 0.0
    ensures Dot(a, a) != 0 && Dot(b, b) != 0 ==>
      Score(a, b) == (Dot(a, b) * Dot(a, b)) as real / (Dot(a, a) * Dot(b, b)) as real
  {
  }

  /** A vector of zero magnitude is orthogonal to every other. */
  lemma ZeroNorms(a: seq<nat>, b: seq<nat>)
    requires |a| == |b| && (Dot(a, a) == 0 || Dot(b, b) == 0)
    ensures Dot(a, b) == 0
  {
    if Dot(a, a) == 0 {
      ZeroNorm(a, b);
    } else {
      ZeroNorm(b, a);
      DotSymmetric(a, b);
    }
  }

  lemma SquareZero(d: nat)
    ensures d * d == 0 <==> d == 0
  {
  }

  lemma PositiveProduct(x: nat, y: nat)
    requires x > 0 && y > 0
    ensures x * y > 0
  {
  }

  /** A quotient of a natural by a larger positive one lies in [0, 1] and is 0 only for 0. */
  lemma QuotientBounds(p: nat, q: nat)
    requires 0 < q && p <= q
    ensures 0.0 <= p as real / q as real <= 1.0
    ensures p as real / q as real == 0.0 <==> p == 0
  {
  }

  lemma {:induction false} DotSymmetric(a: seq<nat>, b: seq<nat>)
    requires |a| == |b|
    ensures Dot(a, b) == Dot(b, a)
    decreases |a|
  {
    if a != [] {
      DotSymmetric(a[1..], b[1..]);
    }
  }

  /** The score is symmetric. */
  lemma ScoreSymmetric(a: seq<nat>, b: seq<nat>)
    requires |a| == |b|
    ensures Score(a, b) == Score(b, a)
  {
    DotSymmetric(a, b);
  }

  /** A non-zero vector scores 1 against itself. */
  lemma ScoreSelf(a: seq<nat>)
    requires Dot(a, a) > 0
    ensures Score(a, a) == 1.0
  {
  }

  /**
   * Two words score 0 exactly when they share no supported character: the histograms are
   * then orthogonal.
   */
  lemma ScoreZeroIffDisjoint(u: string, v: string)
    ensures Score(Embed(u), Embed(v)) == 0.0 <==>
      forall i :: 0 <= i < VocabSize ==> Supported[i] !in u || Supported[i] !in v
  {
    DotZeroIff(Embed(u), Embed(v));
    forall i | 0 <= i < VocabSize
      ensures (Embed(u)[i] == 0 <==> Supported[i] !in u) && (Embed(v)[i] == 0 <==> Supported[i] !in v)
    {
      assert Supported[i] in u <==> Supported[i] in multiset(u);
      assert Supported[i] in v <==> Supported[i] in multiset(v);
    }
  }

  /** A dot product of count vectors is zero exactly when no slot is non-zero in both. */
  lemma {:induction false} DotZeroIff(a: seq<nat>, b: seq<nat>)
    requires |a| == |b|
    ensures Dot(a, b) == 0 <==> forall i :: 0 <= i < |a| ==> a[i] == 0 || b[i] == 0
    decreases |a|
  {
    if a != [] {
      DotZeroIff(a[1..], b[1..]);
      assert forall i :: 1 <= i < |a| ==> a[i] == a[1..][i - 1] && b[i] == b[1..][i - 1];
      if a[0] * b[0] == 0 {
        assert a[0] == 0 || b[0] == 0;
      }
    }
  }

  /**
   * `cosineSimilarity`: one pass accumulating the dot product and both squared magnitudes,
   * then 0 when a magnitude is zero and the (squared) quotient otherwise.
   */
  method CosineSimilarity(a: seq<nat>, b: seq<nat>) returns (score: real)
    requires |a| == VocabSize && |b| == VocabSize
    ensures score == Score(a, b)
  {
    var dot, magA, magB := 0, 0, 0;
    for i := 0 to VocabSize
      invariant Sums(a, b, i, dot, magA, magB)
    {
      SumsStep(a, b, i, dot, magA, magB);
      dot, magA, magB := dot + a[i] * b[i], magA + a[i] * a[i], magB + b[i] * b[i];
    }
    SumsDone(a, b, dot, magA, magB);
    ScoreOf(a, b);
    if magA == 0 || magB == 0 {
      return 0.0;
    }
    score := (dot * dot) as real / (magA * magB) as real;
  }
}
