/**
 * The fixed alphabet of the model (`Vectmo::SUPPORTED_ASCII_CHARS`, `VOCAB_SIZE`) and the
 * character-to-slot lookup `getCharIndex`.
 *
 * The source lists the 96 entries literally: the printable ASCII characters '!' .. '~' in
 * code order, followed by ' ' and '\n'. `Supported` builds exactly that listing from the
 * code range; `RowStarts` pins the first entry of each source row and the last two entries.
 */
module Alphabet {
  const VocabSize: nat := 96

  /** Entry i of the listing: '!' + i for the first 94 entries, then ' ' and '\n'. */
  function Entry(i: int): char
    requires 0 <= i < VocabSize
  {
    if i < 94 then (i + 33) as char else if i == 94 then ' ' else '\n'
  }

  /** The 96 entries in table order. */
  function Listing(): (s: seq<char>)
    ensures |s| == VocabSize && forall i :: 0 <= i < VocabSize ==> s[i] == Entry(i)
  {
    seq(VocabSize, i requires 0 <= i < VocabSize => Entry(i))
  }

  /** `SUPPORTED_ASCII_CHARS`: slot i of every histogram counts `Supported[i]`. */
  const Supported: seq<char> := Listing()

  predicate IsSupported(c: char) {
    c in Supported
  }

  /** The table has 96 entries and starts each of its source rows where the listing does. */
  lemma RowStarts()
    ensures |Supported| == VocabSize
    ensures Supported[0] == '!' && Supported[15] == '0' && Supported[32] == 'A'
    ensures Supported[49] == 'R' && Supported[64] == 'a' && Supported[81] == 'r'
    ensures Supported[93] == '~' && Supported[94] == ' ' && Supported[95] == '\n'
  {
  }

  /**
   * Reference definition of the slot of a character: its position in `Supported`,
   * or -1 for a character outside the table.
   */
  function CharIndex(c: char): (i: int)
    ensures -1 <= i < VocabSize
    ensures 0 <= i ==> Supported[i] == c
    ensures i == -1 <==> !IsSupported(c)
  {
    if '!' <= c <= '~' then c as int - 33
    else if c == ' ' then 94
    else if c == '\n' then 95
    else -1
  }

  /** The entries are distinct: every slot is the index of its own character. */
  lemma IndexOfEntry(i: int)
    requires 0 <= i < VocabSize
    ensures CharIndex(Supported[i]) == i
  {
  }

  /** Slot round trip: for a supported c, the entry at its slot is c, and back. */
  lemma IndexRoundTrip(c: char)
    requires IsSupported(c)
    ensures 0 <= CharIndex(c) && CharIndex(Supported[CharIndex(c)]) == CharIndex(c)
  {
  }

  /**
   * `getCharIndex`: a linear scan of the table that returns the first slot holding
   * `character`, or -1 when no slot does.
   */
  method GetCharIndex(character: char) returns (idx: int)
    ensures idx == CharIndex(character)
    ensures -1 <= idx < VocabSize
    ensures 0 <= idx ==> Supported[idx] == character && forall j :: 0 <= j < idx ==> Supported[j] != character
    ensures idx == -1 <==> !IsSupported(character)
  {
    for i := 0 to VocabSize
      invariant forall j :: 0 <= j < i ==> Supported[j] != character
    {
      if Supported[i] == character {
        IndexOfEntry(i);
        return i;
      }
    }
    assert character !in Supported;
    return -1;
  }
}
