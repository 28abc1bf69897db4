/**
 * String splitting used by the model: `splitOnSpaces` (split on one separator character,
 * keeping empty pieces), the single-separator join that `snapWordsToVocabulary` performs, and
 * the whitespace tokenisation that `std::istringstream >> token` performs in `buildWordList`.
 */
module Text {

  /** Number of occurrences of c in s. */
  function Count(s: string, c: char): nat {
    multiset(s)[c]
  }

  /**
   * `splitOnSpaces` with the separator as a parameter: every separator closes the current
   * piece, and the piece after the last separator is always emitted, so that empty pieces
   * (leading, trailing or doubled separators) are kept.
   */
  function SplitOn(s: string, sep: char): (parts: seq<string>)
    ensures |parts| >= 1
    decreases |s|
  {
    if s == [] then [[]]
    else
      var init := SplitOn(s[..|s| - 1], sep);
      if s[|s| - 1] == sep then init + [[]]
      else ExtendLast(init, [s[|s| - 1]])
  }

  /** `splitOnSpaces`: close the current piece at each ' ', and push the last piece at the end. */
  method SplitOnSpaces(text: string) returns (tokens: seq<string>)
    ensures tokens == SplitOn(text, ' ')
  {
    tokens := [];
    var current: string := [];
    for i := 0 to |text|
      invariant tokens + [current] == SplitOn(text[..i], ' ')
    {
      assert text[..i + 1][..i] == text[..i];
      if text[i] == ' ' {
        tokens := tokens + [current];
        current := [];
      } else {
        current := current + [text[i]];
      }
    }
    assert text[..|text|] == text;
    tokens := tokens + [current];
  }

  /** Concatenation of the parts with one separator between each adjacent pair. */
  function Join(parts: seq<string>, sep: char): (r: string)
    ensures parts != [] ==> parts[0] <= r
    ensures sep !in r ==> |parts| <= 1
    decreases |parts|
  {
    if parts == [] then []
    else if |parts| == 1 then parts[0]
    else Join(parts[..|parts| - 1], sep) + [sep] + parts[|parts| - 1]
  }

  /** Two parts join around one separator. */
  lemma JoinPair(a: string, b: string, sep: char)
    ensures Join([a, b], sep) == a + [sep] + b
  {
    assert [a, b][..1] == [a];
  }

  /** Three parts join around two separators. */
  lemma JoinTriple(a: string, m: string, b: string, sep: char)
    ensures Join([a, m, b], sep) == a + [sep] + m + [sep] + b
  {
    JoinPair(a, m, sep);
    assert [a, m, b][..2] == [a, m];
  }

  /** Joining one more part adds a separator before it, unless it is the first part. */
  lemma JoinSnoc(parts: seq<string>, p: string, sep: char)
    ensures Join(parts + [p], sep) == if parts == [] then p else Join(parts, sep) + [sep] + p
  {
    assert (parts + [p])[..|parts|] == parts;
  }

  /** The split is lossless: joining the pieces back gives the input. */
  lemma {:induction false} JoinSplit(s: string, sep: char)
    ensures Join(SplitOn(s, sep), sep) == s
    decreases |s|
  {
    if s != [] {
      var p, c := s[..|s| - 1], s[|s| - 1];
      var init := SplitOn(p, sep);
      JoinSplit(p, sep);
      assert s == p + [c];
      if c == sep {
        SplitAppendSep(p, sep);
        JoinSnoc(init, [], sep);
      } else {
        SplitAppendOther(p, c, sep);
        JoinExtendLast(init, [c], sep);
      }
    }
  }

  /** Extending the last part extends the joined text by the same characters. */
  lemma JoinExtendLast(q: seq<string>, w: string, sep: char)
    requires |q| >= 1
    ensures Join(ExtendLast(q, w), sep) == Join(q, sep) + w
  {
    var r := ExtendLast(q, w);
    var k := |q| - 1;
    if k > 0 {
      assert r[..k] == q[..k];
      assert Join(r, sep) == Join(q[..k], sep) + [sep] + (q[k] + w);
    }
  }

  /** There is one more piece than there are separators. */
  lemma {:induction false} SplitCount(s: string, sep: char)
    ensures |SplitOn(s, sep)| == Count(s, sep) + 1
    decreases |s|
  {
    if s != [] {
      var p := s[..|s| - 1];
      SplitCount(p, sep);
      assert s == p + [s[|s| - 1]];
    }
  }

  /** No piece contains the separator. */
  lemma {:induction false} SplitPiecesFree(s: string, sep: char)
    ensures forall piece :: piece in SplitOn(s, sep) ==> sep !in piece
    decreases |s|
  {
    if s != [] {
      SplitPiecesFree(s[..|s| - 1], sep);
    }
  }

  /** The pieces p with w appended to the last one. */
  function ExtendLast(p: seq<string>, w: string): seq<string>
    requires |p| >= 1
  {
    p[..|p| - 1] + [p[|p| - 1] + w]
  }

  /** Appending a character other than the separator extends the last piece. */
  lemma SplitAppendOther(s: string, c: char, sep: char)
    requires c != sep
    ensures SplitOn(s + [c], sep) == ExtendLast(SplitOn(s, sep), [c])
  {
    assert (s + [c])[..|s|] == s;
  }

  lemma ExtendTwice(p: seq<string>, w: string, c: char)
    requires |p| >= 1
    ensures ExtendLast(ExtendLast(p, w), [c]) == ExtendLast(p, w + [c])
  {
    var q := ExtendLast(p, w);
    assert q[..|q| - 1] == p[..|p| - 1];
    assert q[|q| - 1] + [c] == p[|p| - 1] + (w + [c]);
  }

  /** Appending separator-free text only extends the last piece. */
  lemma {:induction false} SplitAppendFree(s: string, w: string, sep: char)
    requires sep !in w
    ensures SplitOn(s + w, sep) == ExtendLast(SplitOn(s, sep), w)
    decreases |w|
  {
    var p := SplitOn(s, sep);
    if w == [] {
      assert s + w == s;
      assert ExtendLast(p, w) == p by {
        assert p[|p| - 1] + w == p[|p| - 1];
      }
    } else {
      var w', c := w[..|w| - 1], w[|w| - 1];
      SplitAppendFree(s, w', sep);
      assert s + w == (s + w') + [c] && w == w' + [c];
      SplitAppendOther(s + w', c, sep);
      ExtendTwice(p, w', c);
    }
  }

  /** Text without the separator is a single piece. */
  lemma SplitFree(s: string, sep: char)
    requires sep !in s
    ensures SplitOn(s, sep) == [s]
  {
    var e: string := [];
    SplitAppendFree(e, s, sep);
    ExtendEmpty([], s);
    assert e + s == s;
  }

  /** Appending a separator opens a new empty piece. */
  lemma SplitAppendSep(s: string, sep: char)
    ensures SplitOn(s + [sep], sep) == SplitOn(s, sep) + [[]]
  {
    assert (s + [sep])[..|s|] == s;
  }

  /** Conversely, splitting separator-free pieces after joining them gives the pieces back. */
  lemma {:induction false} SplitJoin(parts: seq<string>, sep: char)
    requires |parts| >= 1
    requires forall piece :: piece in parts ==> sep !in piece
    ensures SplitOn(Join(parts, sep), sep) == parts
    decreases |parts|
  {
    var last := parts[|parts| - 1];
    assert sep !in last;
    if |parts| == 1 {
      SplitAppendFree([], last, sep);
      assert [] + last == last;
      assert ExtendLast([[]], last) == parts;
    } else {
      var init := parts[..|parts| - 1];
      assert parts == init + [last];
      assert forall piece :: piece in init ==> piece in parts;
      SplitJoin(init, sep);
      var j := Join(init, sep);
      JoinSnoc(init, last, sep);
      assert Join(parts, sep) == (j + [sep]) + last;
      SplitAppendSep(j, sep);
      SplitAppendFree(j + [sep], last, sep);
      ExtendEmpty(init, last);
    }
  }

  /** Extending a fresh empty last piece by w replaces it with w. */
  lemma ExtendEmpty(init: seq<string>, w: string)
    ensures ExtendLast(init + [[]], w) == init + [w]
  {
    var p := init + [[]];
    assert p[..|p| - 1] == init;
    assert p[|p| - 1] + w == w;
  }

  // ---------------------------------------------------------------------------------------
  // Whitespace tokenisation (`stream >> token`)
  // ---------------------------------------------------------------------------------------

  /** The characters `std::isspace` accepts in the "C" locale. */
  predicate IsSpace(c: char): (r: bool)
    ensures r <==> c == ' ' || 9 <= c as int <= 13
  {
    c == ' ' || c == '\t' || c == '\n' || c == '\r' || c as int == 11 || c as int == 12
  }

  /** Length of the leading run of non-whitespace characters. */
  function RunLength(s: string): (n: nat)
    ensures n <= |s|
    ensures forall i :: 0 <= i < n ==> !IsSpace(s[i])
    ensures n < |s| ==> IsSpace(s[n])
  {
    if s == [] || IsSpace(s[0]) then 0 else 1 + RunLength(s[1..])
  }

  /**
   * The tokens `>>` extracts, in order: leading whitespace is skipped, then the longest
   * whitespace-free run is taken.
   */
  function Tokens(s: string): (r: seq<string>)
    ensures forall k :: 0 <= k < |r| ==> r[k] != [] && forall j :: 0 <= j < |r[k]| ==> !IsSpace(r[k][j])
    decreases |s|
  {
    if s == [] then []
    else if IsSpace(s[0]) then Tokens(s[1..])
    else
      var n := RunLength(s);
      [s[..n]] + Tokens(s[n..])
  }

  /** s[i..j] is a maximal whitespace-free run of s: non-empty and bounded by whitespace or the ends. */
  ghost predicate MaximalRun(s: string, i: int, j: int) {
    && 0 <= i < j <= |s|
    && (forall k :: i <= k < j ==> !IsSpace(s[k]))
    && (i == 0 || IsSpace(s[i - 1]))
    && (j == |s| || IsSpace(s[j]))
  }

  /** Shifting a run of `s[d..]` by d gives a run of s, and back, when s[d - 1] cannot join it. */
  lemma RunShift(s: string, d: nat, i: int, j: int)
    requires 0 < d <= |s| && 0 <= i && (i == 0 ==> IsSpace(s[d - 1]))
    ensures MaximalRun(s[d..], i, j) <==> MaximalRun(s, i + d, j + d)
  {
    var t := s[d..];
    if MaximalRun(s, i + d, j + d) {
      forall k | i <= k < j ensures !IsSpace(t[k]) {
        assert t[k] == s[k + d];
      }
    }
    if MaximalRun(t, i, j) {
      forall k | i + d <= k < j + d ensures !IsSpace(s[k]) {
        assert s[k] == t[k - d];
      }
    }
  }

  /** Every token is a maximal whitespace-free run of the text. */
  lemma {:induction false} TokenIsRun(s: string, w: string)
    requires w in Tokens(s)
    ensures exists i, j :: MaximalRun(s, i, j) && s[i..j] == w
    decreases |s|, 1
  {
    if IsSpace(s[0]) {
      TokenIsRunAfter(s, 1, w);
    } else {
      var n := RunLength(s);
      if w == s[..n] {
        assert MaximalRun(s, 0, n);
      } else {
        TokenIsRunAfter(s, n, w);
      }
    }
  }

  /** A token of s[d..] is a run of s when s[d..] starts with whitespace or s[d - 1] is whitespace. */
  lemma {:induction false} TokenIsRunAfter(s: string, d: nat, w: string)
    requires 0 < d <= |s|
    requires (d < |s| && IsSpace(s[d])) || IsSpace(s[d - 1])
    requires w in Tokens(s[d..])
    ensures exists i, j :: MaximalRun(s, i, j) && s[i..j] == w
    decreases |s|, 0
  {
    var t := s[d..];
    TokenIsRun(t, w);
    var i, j :| MaximalRun(t, i, j) && t[i..j] == w;
    if i == 0 {
      assert !IsSpace(t[0]);
    }
    RunShift(s, d, i, j);
    SliceOfSuffix(s, d, i, j);
    assert MaximalRun(s, i + d, j + d) && s[i + d..j + d] == w;
  }

  /** Every maximal whitespace-free run of the text is a token. */
  lemma {:induction false} RunIsToken(s: string, i: int, j: int)
    requires MaximalRun(s, i, j)
    ensures s[i..j] in Tokens(s)
    decreases |s|, 1
  {
    if IsSpace(s[0]) {
      assert i != 0;
      RunIsTokenAfter(s, 1, i, j);
    } else {
      var n := RunLength(s);
      assert Tokens(s) == [s[..n]] + Tokens(s[n..]);
      if i < n {
        assert i == 0;
        assert j == n;
        assert s[i..j] == s[..n];
      } else {
        assert i != n;
        RunIsTokenAfter(s, n, i, j);
      }
    }
  }

  /** A run of s that starts after position d is a token of s[d..]. */
  lemma {:induction false} RunIsTokenAfter(s: string, d: nat, i: int, j: int)
    requires 0 < d <= i && MaximalRun(s, i, j)
    ensures s[i..j] in Tokens(s[d..])
    decreases |s|, 0
  {
    var t := s[d..];
    assert i - d == 0 ==> IsSpace(s[d - 1]);
    RunShift(s, d, i - d, j - d);
    assert MaximalRun(t, i - d, j - d);
    RunIsToken(t, i - d, j - d);
    SliceOfSuffix(s, d, i - d, j - d);
  }

  /** A slice of a suffix is the shifted slice of the whole. */
  lemma SliceOfSuffix(s: string, d: nat, i: int, j: int)
    requires d <= |s| && 0 <= i <= j <= |s| - d
    ensures s[d..][i..j] == s[i + d..j + d]
  {
    forall k | 0 <= k < j - i ensures s[d..][i..j][k] == s[i + d..j + d][k] {
      assert s[d..][i..j][k] == s[d..][i + k] == s[i + d + k];
    }
  }

  /** The tokens are exactly the maximal whitespace-free runs of the text. */
  lemma TokensAreMaximalRuns(s: string, w: string)
    ensures w in Tokens(s) <==> exists i, j :: MaximalRun(s, i, j) && s[i..j] == w
  {
    if w in Tokens(s) {
      TokenIsRun(s, w);
    }
    if exists i, j :: MaximalRun(s, i, j) && s[i..j] == w {
      var i, j :| MaximalRun(s, i, j) && s[i..j] == w;
      RunIsToken(s, i, j);
    }
  }

  /** Every token is non-empty and contains no whitespace. */
  lemma TokensAreWords(s: string, w: string)
    requires w in Tokens(s)
    ensures w != [] && forall k :: 0 <= k < |w| ==> !IsSpace(w[k])
  {
    TokenIsRun(s, w);
    var i, j :| MaximalRun(s, i, j) && s[i..j] == w;
    forall k | 0 <= k < |w| ensures !IsSpace(w[k]) {
      assert w[k] == s[i + k];
    }
  }
}
