/**
 * The `Vectmo` object: a bigram table and a vocabulary set, trained from a text, saved to
 * and loaded from files, and used to continue an input text.
 *
 * Files are values here: the table file is its sequence of triples and the word file is its
 * text; a save returns what it writes, and a load takes `None` when the file cannot be opened.
 */
module Model {
  import opened Wrappers
  import opened Alphabet
  import opened Text
  import opened OrderedSet
  import opened Histogram
  import opened Bigram
  import opened Similarity
  import opened WordList
  import opened Generator

  const NoInput: string := "[No input provided]"
  const NotTrained: string := "[Model not trained yet]"
  const NoContinuation: string := "[No continuation found]"

  class Vectmo {
    /** bigramTable[a][b]: how many times b followed a in the training text. */
    var bigramTable: Table
    /** The vocabulary, in set order. */
    var pretrainedWords: seq<string>

    /**
     * The vocabulary is a set listed in its order, and each word is a non-empty line: both
     * ways of filling it (tokens of a text, lines of a file) only produce such words.
     */
    ghost predicate Valid()
      reads this
    {
      && StrictlySorted(pretrainedWords)
      && forall w :: w in pretrainedWords ==> FitsOnLine(w)
    }

    constructor ()
      ensures Valid() && bigramTable == map[] && pretrainedWords == []
    {
      bigramTable := map[];
      pretrainedWords := [];
    }

    // -------------------------------------------------------------------------------------
    // Building
    // -------------------------------------------------------------------------------------

    /** `buildBigramTable`: clear, then count every pair of adjacent characters. */
    method BuildBigramTable(text: string)
      modifies this
      ensures bigramTable == Bigrams(text)
      ensures pretrainedWords == old(pretrainedWords)
    {
      bigramTable := map[];
      var i := 0;
      while i + 1 < |text|
        invariant i < |text| || i == 0
        invariant bigramTable == Bigrams(text[..if i < |text| then i + 1 else i])
        invariant pretrainedWords == old(pretrainedWords)
      {
        assert text[..i + 2][..i + 1] == text[..i + 1];
        bigramTable := Inc(bigramTable, text[i], text[i + 1]);
        i := i + 1;
      }
      assert text[..if i < |text| then i + 1 else i] == text;
    }

    /** `buildWordList`: clear, then insert every whitespace-delimited token. */
    method BuildWordList(text: string)
      modifies this
      ensures Valid() && Elems(pretrainedWords) == Elems(Tokens(text))
      ensures forall w :: w in pretrainedWords ==> ' ' !in w
      ensures bigramTable == old(bigramTable)
    {
      pretrainedWords := [];
      var pos := 0;
      while pos < |text|
        invariant 0 <= pos <= |text|
        invariant StrictlySorted(pretrainedWords)
        invariant Elems(pretrainedWords) + Elems(Tokens(text[pos..])) == Elems(Tokens(text))
        invariant bigramTable == old(bigramTable)
        decreases |text| - pos
      {
        if IsSpace(text[pos]) {
          assert text[pos..][1..] == text[pos + 1..];
          pos := pos + 1;
        } else {
          var end := pos;
          while end < |text| && !IsSpace(text[end])
            invariant pos <= end <= |text|
            invariant forall k :: pos <= k < end ==> !IsSpace(text[k])
          {
            end := end + 1;
          }
          var token := text[pos..end];
          TokenAt(text, pos, end);
          if token != [] {
            pretrainedWords := Insert(pretrainedWords, token);
          }
          pos := end;
        }
      }
      forall w | w in pretrainedWords ensures FitsOnLine(w) && ' ' !in w {
        assert w in Elems(Tokens(text));
        TokensAreWords(text, w);
      }
    }

    // -------------------------------------------------------------------------------------
    // Persistence
    // -------------------------------------------------------------------------------------

    /**
     * `saveBigramTable`: rows in character order, and in each row the followers in character
     * order; a row or follower without a slot is skipped. What is written describes the
     * table, and loading it back gives the table's supported part.
     */
    method SaveBigramTable() returns (file: seq<Triple>)
      ensures file == TableFile(bigramTable, InOrder(bigramTable.Keys))
      ensures Describes(file, bigramTable)
      ensures Loaded(file) == SupportedPart(bigramTable)
    {
      file := [];
      var froms := SortedKeys(bigramTable);
      for i := 0 to |froms|
        invariant file == TableFile(bigramTable, froms[..i])
      {
        var from := froms[i];
        TableFileSnoc(bigramTable, froms, i);
        var fromIdx := GetCharIndex(from);
        if fromIdx == -1 {
          continue;
        }
        var lines := RowLines(fromIdx, bigramTable[from]);
        file := file + lines;
      }
      assert froms[..|froms|] == froms;
      assert Describes(file, bigramTable) && Loaded(file) == SupportedPart(bigramTable) by {
        SavedDescribes(bigramTable);
        SaveLoadRoundTrip(file, bigramTable);
      }
    }

    /**
     * `loadBigramTable`: clear, then store every triple whose indices are in range, a later
     * triple for the same pair overwriting an earlier one. The result says whether any
     * triple was stored, that is whether the table is now non-empty.
     */
    method LoadBigramTable(file: Option<seq<Triple>>) returns (anyRead: bool)
      modifies this
      ensures file.None? ==> bigramTable == map[] && !anyRead
      ensures file.Some? ==> bigramTable == Loaded(file.value) &&
                             (anyRead <==> exists i :: 0 <= i < |file.value| && InRange(file.value[i]))
      ensures anyRead <==> bigramTable != map[]
      ensures pretrainedWords == old(pretrainedWords)
    {
      bigramTable := map[];
      if file.None? {
        return false;
      }
      var ts := file.value;
      anyRead := false;
      for i := 0 to |ts|
        invariant bigramTable == Loaded(ts[..i])
        invariant anyRead <==> exists k :: 0 <= k < i && InRange(ts[k])
        invariant pretrainedWords == old(pretrainedWords)
      {
        var x := ts[i];
        assert ts[..i + 1][..i] == ts[..i];
        if x.from < 0 || x.from >= VocabSize || x.to < 0 || x.to >= VocabSize {
          continue;
        }
        bigramTable := Put(bigramTable, Supported[x.from], Supported[x.to], x.count);
        anyRead := true;
      }
      assert ts[..|ts|] == ts;
      LoadedEmpty(ts);
    }

    /** `saveWordList`: each word on its own line, in set order; it reads back unchanged. */
    method SaveWordList() returns (file: string)
      requires Valid()
      ensures file == WordFile(pretrainedWords)
      ensures LoadedWords(file) == pretrainedWords
    {
      file := [];
      for i := 0 to |pretrainedWords|
        invariant file == WordFile(pretrainedWords[..i])
      {
        assert pretrainedWords[..i + 1][..i] == pretrainedWords[..i];
        file := file + pretrainedWords[i] + "\n";
      }
      assert pretrainedWords[..|pretrainedWords|] == pretrainedWords;
      WordFileRoundTrip(pretrainedWords);
    }

    /**
     * `loadWordList`: when the file opens, clear, then insert every non-empty line; the
     * result says whether any line was inserted. An unopened file changes nothing.
     */
    method LoadWordList(content: Option<string>) returns (anyRead: bool)
      requires Valid()
      modifies this
      ensures Valid()
      ensures content.None? ==> pretrainedWords == old(pretrainedWords) && !anyRead
      ensures content.Some? ==> pretrainedWords == LoadedWords(content.value)
      ensures content.Some? ==> (anyRead <==> pretrainedWords != [])
      ensures bigramTable == old(bigramTable)
    {
      if content.None? {
        return false;
      }
      pretrainedWords := [];
      anyRead := false;
      var lines := SplitOn(content.value, '\n');
      for i := 0 to |lines|
        invariant pretrainedWords == InsertAll([], NonEmptyLines(lines[..i]))
        invariant anyRead <==> pretrainedWords != []
        invariant bigramTable == old(bigramTable)
      {
        var line := lines[i];
        LoadStep(lines, i);
        if line != [] {
          pretrainedWords := Insert(pretrainedWords, line);
          assert line in Elems(pretrainedWords);
          anyRead := true;
        }
      }
      assert lines[..|lines|] == lines;
      assert pretrainedWords == LoadedWords(content.value);
    }

    // -------------------------------------------------------------------------------------
    // Nearest word and snapping
    // -------------------------------------------------------------------------------------

    /**
     * `findMostSimilarWord`: scan the vocabulary in set order, keeping the candidate with the
     * highest score, an equal score with a smaller length gap replacing it. With no
     * vocabulary the query word comes back with the floor score -1; otherwise the result is
     * a vocabulary word that no other word outranks, with its own score.
     */
    method FindMostSimilarWord(word: string) returns (bestWord: string, bestScore: real)
      ensures Best(bestWord, bestScore) == Scan(word, pretrainedWords)
      ensures pretrainedWords == [] ==> bestWord == word && bestScore == -1.0
      ensures pretrainedWords != [] ==>
                && bestWord in pretrainedWords && bestScore == WordScore(word, bestWord)
                && forall w :: w in pretrainedWords ==> !Outranks(word, w, bestWord)
    {
      var wordVec := EmbedWord(word);
      bestWord := word;
      bestScore := -1.0;
      for i := 0 to |pretrainedWords|
        invariant Best(bestWord, bestScore) == Scan(word, pretrainedWords[..i])
      {
        var candidate := pretrainedWords[i];
        var candVec := EmbedWord(candidate);
        var score := CosineSimilarity(wordVec, candVec);
        assert pretrainedWords[..i + 1][..i] == pretrainedWords[..i];
        if score > bestScore || (score == bestScore && LengthGap(candidate, word) < LengthGap(bestWord, word)) {
          bestScore := score;
          bestWord := candidate;
        }
      }
      assert pretrainedWords[..|pretrainedWords|] == pretrainedWords;
      if pretrainedWords != [] {
        var k := ScanSelects(word, pretrainedWords);
      }
    }

    /**
     * `snapWordsToVocabulary`: split on single spaces, replace every non-empty piece by its
     * nearest vocabulary word, and join back with one space per gap. With no vocabulary the
     * input comes back unchanged.
     */
    method SnapWordsToVocabulary(rawPrediction: string) returns (result: string)
      ensures result == Snapped(pretrainedWords, rawPrediction)
      ensures pretrainedWords == [] ==> result == rawPrediction
    {
      var tokens := SplitOnSpaces(rawPrediction);
      result := [];
      for i := 0 to |tokens|
        invariant result == Join(SnapAll(pretrainedWords, tokens[..i]), ' ')
      {
        var done := SnapAll(pretrainedWords, tokens[..i]);
        var next := SnapToken(pretrainedWords, tokens[i]);
        SnapAllSnoc(pretrainedWords, tokens, i);
        JoinSnoc(done, next, ' ');
        if i > 0 {
          result := result + [' '];
        }
        if tokens[i] == [] {
          continue;
        }
        var bestWord, bestScore := FindMostSimilarWord(tokens[i]);
        result := result + bestWord;
      }
      assert tokens[..|tokens|] == tokens;
    }

    // -------------------------------------------------------------------------------------
    // Training and prediction
    // -------------------------------------------------------------------------------------

    /**
     * `pretrainModel`: without a working file nothing happens; otherwise build and save the
     * table, then build and save the vocabulary. The two files written are returned.
     */
    method PretrainModel(trainingText: string, haveFile: bool) returns (tableFile: Option<seq<Triple>>, wordFile: Option<string>)
      requires Valid()
      modifies this
      ensures Valid()
      ensures !haveFile ==> tableFile == None && wordFile == None &&
                            bigramTable == old(bigramTable) && pretrainedWords == old(pretrainedWords)
      ensures haveFile ==>
                && bigramTable == Bigrams(trainingText)
                && Elems(pretrainedWords) == Elems(Tokens(trainingText))
                && tableFile.Some? && Describes(tableFile.value, bigramTable)
                && Loaded(tableFile.value) == SupportedPart(bigramTable)
                && wordFile.Some? && LoadedWords(wordFile.value) == pretrainedWords
    {
      if !haveFile {
        return None, None;
      }
      BuildBigramTable(trainingText);
      var table := SaveBigramTable();
      BuildWordList(trainingText);
      var words := SaveWordList();
      tableFile, wordFile := Some(table), Some(words);
    }

    /**
     * `predictNextText`. Empty input is refused. An empty table is loaded from the table
     * file first, and the call gives up when that yields nothing; an empty vocabulary is
     * loaded from the word file. Phase 1 grows a chain from the last input character
     * (`Generated`); a chain of the seed alone has no continuation. Phase 2 returns the
     * chain without its seed, snapped to the vocabulary when there is one.
     */
    method PredictNextText(inputText: string, maxChars: int, tableFile: Option<seq<Triple>>, wordFile: Option<string>)
      returns (output: string, ghost chain: string)
      requires Valid()
      modifies this
      ensures Valid()
      ensures inputText == [] ==>
                output == NoInput && bigramTable == old(bigramTable) && pretrainedWords == old(pretrainedWords)
      ensures inputText != [] && old(bigramTable) != map[] ==> bigramTable == old(bigramTable)
      ensures inputText != [] && old(bigramTable) == map[] ==>
                bigramTable == (if tableFile.Some? then Loaded(tableFile.value) else map[])
      ensures inputText != [] && bigramTable == map[] ==>
                output == NotTrained && pretrainedWords == old(pretrainedWords)
      ensures inputText != [] && bigramTable != map[] ==>
                && pretrainedWords == (if old(pretrainedWords) == [] && wordFile.Some?
                                       then LoadedWords(wordFile.value) else old(pretrainedWords))
                && Generated(bigramTable, inputText[|inputText| - 1], maxChars, chain)
                && output == if |chain| <= 1 then NoContinuation
                             else if pretrainedWords == [] then chain[1..]
                             else Snapped(pretrainedWords, chain[1..])
    {
      chain := [];
      if inputText == [] {
        return NoInput, chain;
      }
      if bigramTable == map[] {
        var loaded := LoadBigramTable(tableFile);
        if !loaded {
          return NotTrained, chain;
        }
      }
      if pretrainedWords == [] {
        var _ := LoadWordList(wordFile);
      }
      var current := inputText[|inputText| - 1];
      var prediction := Chain(bigramTable, current, maxChars);
      chain := prediction;
      if |prediction| <= 1 {
        return NoContinuation, chain;
      }
      var rawOutput := prediction[1..];
      if pretrainedWords == [] {
        return rawOutput, chain;
      }
      output := SnapWordsToVocabulary(rawOutput);
    }
  }

  /**
   * The inner loop of `saveBigramTable`: the lines of one row, its followers visited in
   * character order and those without a slot skipped.
   */
  method RowLines(fromIdx: int, followers: map<char, int>) returns (lines: seq<Triple>)
    ensures lines == RowFile(fromIdx, followers, InOrder(followers.Keys))
  {
    lines := [];
    var tos := SortedKeys(followers);
    for j := 0 to |tos|
      invariant lines == RowFile(fromIdx, followers, tos[..j])
    {
      var to := tos[j];
      RowFileSnoc(fromIdx, followers, tos, j);
      var toIdx := GetCharIndex(to);
      if toIdx == -1 {
        continue;
      }
      lines := lines + [Triple(fromIdx, toIdx, followers[to])];
    }
    assert tos[..|tos|] == tos;
  }

  /** The token `>>` reads at a non-space position is the run up to the next whitespace. */
  lemma TokenAt(text: string, pos: nat, end: nat)
    requires pos < end <= |text|
    requires forall k :: pos <= k < end ==> !IsSpace(text[k])
    requires end == |text| || IsSpace(text[end])
    ensures Elems(Tokens(text[pos..])) == {text[pos..end]} + Elems(Tokens(text[end..]))
  {
    var s := text[pos..];
    var n := RunLength(s);
    assert forall k :: 0 <= k < end - pos ==> !IsSpace(s[k]) && s[k] == text[pos + k];
    assert end - pos == |s| || IsSpace(s[end - pos]);
    assert s[..n] == text[pos..end] && s[n..] == text[end..];
    assert Tokens(s) == [text[pos..end]] + Tokens(text[end..]);
  }
}
