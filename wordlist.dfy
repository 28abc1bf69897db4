/**
 * The word-list file: one vocabulary word per line, written in set order and read back line
 * by line, skipping empty lines.
 */
module WordList {
  import opened Text
  import opened OrderedSet

  /** A word that is written as one line and read back as itself: non-empty, no newline. */
  predicate FitsOnLine(w: string) {
    w != [] && '\n' !in w
  }

  /** Every word followed by a newline, in order. */
  function WordFile(words: seq<string>): (r: string)
    ensures words == [] <==> r == []
    ensures r != [] ==> r[|r| - 1] == '\n'
    decreases |words|
  {
    if words == [] then []
    else WordFile(words[..|words| - 1]) + words[|words| - 1] + "\n"
  }

  /** Inserting each word in turn into a set. */
  function InsertAll(s: seq<string>, ws: seq<string>): (r: seq<string>)
    requires StrictlySorted(s)
    ensures StrictlySorted(r)
    ensures Elems(r) == Elems(s) + Elems(ws)
    decreases |ws|
  {
    if ws == [] then s
    else
      var r := Insert(InsertAll(s, ws[..|ws| - 1]), ws[|ws| - 1]);
      assert Elems(ws) == Elems(ws[..|ws| - 1]) + {ws[|ws| - 1]} by {
        assert ws == ws[..|ws| - 1] + [ws[|ws| - 1]];
      }
      r
  }

  /** The non-empty lines of a file, in order. */
  function NonEmptyLines(lines: seq<string>): (r: seq<string>)
    ensures forall w :: w in r <==> w in lines && w != []
    decreases |lines|
  {
    if lines == [] then []
    else
      var rest := NonEmptyLines(lines[..|lines| - 1]);
      var line := lines[|lines| - 1];
      assert lines == lines[..|lines| - 1] + [line];
      if line == [] then rest else rest + [line]
  }

  /** Reading one more line inserts it, unless it is empty. */
  lemma LoadStep(lines: seq<string>, i: nat)
    requires i < |lines|
    ensures var before := InsertAll([], NonEmptyLines(lines[..i]));
            InsertAll([], NonEmptyLines(lines[..i + 1])) ==
              if lines[i] == [] then before else Insert(before, lines[i])
  {
    assert lines[..i + 1][..i] == lines[..i];
    if lines[i] != [] {
      var ws := NonEmptyLines(lines[..i + 1]);
      assert ws[..|ws| - 1] == NonEmptyLines(lines[..i]);
    }
  }

  /** The vocabulary read back from a word file. */
  function LoadedWords(content: string): (r: seq<string>)
    ensures StrictlySorted(r)
    ensures forall w :: w in r <==> w in SplitOn(content, '\n') && w != []
    ensures forall w :: w in r ==> FitsOnLine(w)
  {
    var r := InsertAll([], NonEmptyLines(SplitOn(content, '\n')));
    assert forall w :: w in r <==> w in Elems(r);
    SplitPiecesFree(content, '\n');
    r
  }

  /** The file is the words joined by newlines, plus one final newline. */
  lemma {:induction false} WordFileJoin(words: seq<string>)
    ensures WordFile(words) == Join(words + [[]], '\n')
    decreases |words|
  {
    if words != [] {
      var init := words[..|words| - 1];
      var w := words[|words| - 1];
      WordFileJoin(init);
      assert words == init + [w];
      var e: string := [];
      assert (init + [e])[..|init|] == init;
      assert (init + [w])[..|init|] == init;
      assert (words + [e])[..|words|] == words;
      if init != [] {
        assert Join(init + [e], '\n') == Join(init, '\n') + "\n";
        assert Join(init + [w], '\n') == Join(init, '\n') + "\n" + w;
      }
      assert Join(words + [e], '\n') == Join(words, '\n') + "\n";
    }
  }

  /**
   * Round trip: a vocabulary of non-empty words without newlines, in set order, is read
   * back exactly as it was written.
   */
  lemma WordFileRoundTrip(words: seq<string>)
    requires StrictlySorted(words)
    requires forall w :: w in words ==> FitsOnLine(w)
    ensures LoadedWords(WordFile(words)) == words
  {
    var e: string := [];
    WordFileJoin(words);
    SplitJoin(words + [e], '\n');
    var r := LoadedWords(WordFile(words));
    assert Elems(r) == Elems(words);
    SortedUnique(r, words);
  }
}
