/**
 * The bigram table: how it is built from a training text, the triple file it is saved to and
 * the table loaded back from such a file, as specification functions. The class methods
 * that run the loops are in the Model module.
 */
module Bigram {
  import opened Alphabet

  /** `bigramTable[a][b]`: how many times b followed a. */
  type Table = map<char, map<char, int>>

  // ---------------------------------------------------------------------------------------
  // Building
  // ---------------------------------------------------------------------------------------

  /** `bigramTable[a][b]++`: missing rows and entries start from zero. */
  function Inc(t: Table, a: char, b: char): (r: Table)
    ensures a in r && b in r[a]
    ensures r[a][b] == (if a in t && b in t[a] then t[a][b] else 0) + 1
    ensures r.Keys == t.Keys + {a}
    ensures r[a].Keys == (if a in t then t[a].Keys else {}) + {b}
    ensures forall y :: a in t && y in t[a] && y != b ==> r[a][y] == t[a][y]
    ensures forall x :: x in t && x != a ==> r[x] == t[x]
  {
    var row := if a in t then t[a] else map[];
    var n := if b in row then row[b] else 0;
    t[a := row[b := n + 1]]
  }

  /** The table built from a text: one Inc per pair of adjacent characters, left to right. */
  function Bigrams(text: string): (r: Table)
    ensures |text| < 2 ==> r == map[]
    ensures forall a :: a in r ==> a in text
    decreases |text|
  {
    if |text| < 2 then map[]
    else Inc(Bigrams(text[..|text| - 1]), text[|text| - 2], text[|text| - 1])
  }

  /** How many times b immediately follows a in the text (counted from the front). */
  function PairCount(text: string, a: char, b: char): nat
    decreases |text|
  {
    if |text| < 2 then 0
    else (if text[0] == a && text[1] == b then 1 else 0) + PairCount(text[1..], a, b)
  }

  /** Appending a character adds the pair it closes. */
  lemma {:induction false} PairCountAppend(text: string, c: char, a: char, b: char)
    requires |text| >= 1
    ensures PairCount(text + [c], a, b) ==
            PairCount(text, a, b) + (if text[|text| - 1] == a && c == b then 1 else 0)
    decreases |text|
  {
    var s := text + [c];
    if |text| >= 2 {
      assert s[1..] == text[1..] + [c];
      PairCountAppend(text[1..], c, a, b);
    }
  }

  /**
   * The built table records exactly the pairs that occur, each with its number of
   * occurrences, and has no empty row.
   */
  lemma {:induction false} BigramsCount(text: string, a: char, b: char)
    ensures (a in Bigrams(text) && b in Bigrams(text)[a]) <==> PairCount(text, a, b) > 0
    ensures a in Bigrams(text) && b in Bigrams(text)[a] ==> Bigrams(text)[a][b] == PairCount(text, a, b)
    decreases |text|
  {
    if |text| >= 2 {
      var init := text[..|text| - 1];
      assert text == init + [text[|text| - 1]];
      BigramsCount(init, a, b);
      PairCountAppend(init, text[|text| - 1], a, b);
    }
  }

  /** Every row of a built table is non-empty. */
  lemma {:induction false} BigramsRows(text: string)
    ensures forall a :: a in Bigrams(text) ==> Bigrams(text)[a] != map[]
    decreases |text|
  {
    if |text| >= 2 {
      BigramsRows(text[..|text| - 1]);
    }
  }

  // ---------------------------------------------------------------------------------------
  // The saved file and loading it
  // ---------------------------------------------------------------------------------------

  /** One line of the table file: "fromIdx toIdx count". */
  datatype Triple = Triple(from: int, to: int, count: int)

  /** Both indices fall inside the alphabet; other triples are skipped when loading. */
  predicate InRange(x: Triple) {
    0 <= x.from < VocabSize && 0 <= x.to < VocabSize
  }

  /** `bigramTable[a][b] = n`. */
  function Put(t: Table, a: char, b: char, n: int): (r: Table)
    ensures a in r && b in r[a] && r[a][b] == n
    ensures r.Keys == t.Keys + {a}
    ensures forall x :: x in t && x != a ==> r[x] == t[x]
  {
    var row := if a in t then t[a] else map[];
    t[a := row[b := n]]
  }

  /** The table loaded from a sequence of triples, starting from an empty table. */
  function Loaded(ts: seq<Triple>): (r: Table)
    ensures forall a :: a in r ==> IsSupported(a)
    decreases |ts|
  {
    if ts == [] then map[]
    else
      var t := Loaded(ts[..|ts| - 1]);
      var x := ts[|ts| - 1];
      if InRange(x) then Put(t, Supported[x.from], Supported[x.to], x.count) else t
  }

  /** Triple x is accepted by the loader and stands for the pair (a, b). */
  predicate Names(x: Triple, a: char, b: char) {
    InRange(x) && Supported[x.from] == a && Supported[x.to] == b
  }

  /** Put sets one entry and leaves every other entry as it was. */
  lemma PutOther(t: Table, x: char, y: char, n: int, a: char, b: char)
    requires a != x || b != y
    ensures (a in Put(t, x, y, n) && b in Put(t, x, y, n)[a]) <==> (a in t && b in t[a])
    ensures a in t && b in t[a] ==> Put(t, x, y, n)[a][b] == t[a][b]
  {
  }

  /** A pair is in the loaded table exactly when some accepted triple names it. */
  lemma {:induction false} LoadedHas(ts: seq<Triple>, a: char, b: char)
    ensures (a in Loaded(ts) && b in Loaded(ts)[a]) <==>
            exists i :: 0 <= i < |ts| && Names(ts[i], a, b)
    decreases |ts|
  {
    if ts != [] {
      var n := |ts| - 1;
      var init := ts[..n];
      var x := ts[n];
      LoadedHas(init, a, b);
      assert forall i :: 0 <= i < n ==> ts[i] == init[i];
      if InRange(x) && !Names(x, a, b) {
        PutOther(Loaded(init), Supported[x.from], Supported[x.to], x.count, a, b);
      }
      if exists i :: 0 <= i < |ts| && Names(ts[i], a, b) {
        var i :| 0 <= i < |ts| && Names(ts[i], a, b);
        if i < n {
          assert Names(init[i], a, b);
        }
      }
    }
  }

  /** A loaded count is that of the last triple naming its pair. */
  lemma {:induction false} LoadedValue(ts: seq<Triple>, a: char, b: char)
    requires a in Loaded(ts) && b in Loaded(ts)[a]
    ensures exists i :: 0 <= i < |ts| && Names(ts[i], a, b) && Loaded(ts)[a][b] == ts[i].count &&
                        forall j :: i < j < |ts| ==> !Names(ts[j], a, b)
    decreases |ts|
  {
    var n := |ts| - 1;
    var init := ts[..n];
    var x := ts[n];
    if Names(x, a, b) {
      assert Loaded(ts)[a][b] == ts[n].count;
    } else {
      if InRange(x) {
        PutOther(Loaded(init), Supported[x.from], Supported[x.to], x.count, a, b);
      }
      LoadedValue(init, a, b);
      var i :| 0 <= i < n && Names(init[i], a, b) && Loaded(init)[a][b] == init[i].count &&
               forall j :: i < j < n ==> !Names(init[j], a, b);
      assert ts[i] == init[i];
      assert forall j :: i < j < n ==> ts[j] == init[j];
    }
  }

  /** Later triples win: a triple for an already loaded pair overwrites its count. */
  lemma LastTripleWins(ts: seq<Triple>, x: Triple)
    requires InRange(x)
    ensures var t := Loaded(ts + [x]);
            Supported[x.from] in t && Supported[x.to] in t[Supported[x.from]] &&
            t[Supported[x.from]][Supported[x.to]] == x.count
  {
    assert (ts + [x])[..|ts|] == ts;
  }

  /** The loaded table mentions only supported characters and has no empty row. */
  lemma {:induction false} LoadedShape(ts: seq<Triple>)
    ensures forall a :: a in Loaded(ts) ==>
              IsSupported(a) && Loaded(ts)[a] != map[] &&
              forall b :: b in Loaded(ts)[a] ==> IsSupported(b)
    decreases |ts|
  {
    if ts != [] {
      LoadedShape(ts[..|ts| - 1]);
    }
  }

  /** Loading yields an empty table exactly when no triple is in range. */
  lemma LoadedEmpty(ts: seq<Triple>)
    ensures Loaded(ts) == map[] <==> forall i :: 0 <= i < |ts| ==> !InRange(ts[i])
  {
    if exists i :: 0 <= i < |ts| && InRange(ts[i]) {
      var i :| 0 <= i < |ts| && InRange(ts[i]);
      LoadedHas(ts, Supported[ts[i].from], Supported[ts[i].to]);
    } else if Loaded(ts) != map[] {
      var a :| a in Loaded(ts);
      LoadedShape(ts);
      var b :| b in Loaded(ts)[a];
      LoadedHas(ts, a, b);
    }
  }

  // ---------------------------------------------------------------------------------------
  // Save and the round trip
  // ---------------------------------------------------------------------------------------

  /** The part of a row that is written: followers in the alphabet. */
  function SupportedRow(row: map<char, int>): map<char, int> {
    map b | b in row && IsSupported(b) :: row[b]
  }

  /**
   * The part of a table that survives saving and loading: supported rows and followers,
   * without rows that are left empty.
   */
  function SupportedPart(t: Table): Table {
    map a | a in t && IsSupported(a) && SupportedRow(t[a]) != map[] :: SupportedRow(t[a])
  }

  /** Triple x is the line for an entry of t, with that entry's count. */
  predicate Records(x: Triple, t: Table) {
    && InRange(x)
    && Supported[x.from] in t
    && Supported[x.to] in t[Supported[x.from]]
    && t[Supported[x.from]][Supported[x.to]] == x.count
  }

  /** (from, to) of x comes before that of y, comparing characters as the table orders them. */
  predicate LineBefore(x: Triple, y: Triple) {
    && InRange(x) && InRange(y)
    && (Supported[x.from] < Supported[y.from] ||
        (Supported[x.from] == Supported[y.from] && Supported[x.to] < Supported[y.to]))
  }

  /** One line per supported entry of t, with its indices and count, and no other line. */
  ghost predicate Covers(ts: seq<Triple>, t: Table) {
    && (forall i :: 0 <= i < |ts| ==> Records(ts[i], t))
    && (forall a, b :: a in t && b in t[a] && IsSupported(a) && IsSupported(b) ==>
          Triple(CharIndex(a), CharIndex(b), t[a][b]) in ts)
  }

  /** Lines in the table's iteration order: ascending by from character, then to character. */
  ghost predicate InTableOrder(ts: seq<Triple>) {
    forall i, j :: 0 <= i < j < |ts| ==> LineBefore(ts[i], ts[j])
  }

  /** What saving writes for a table. */
  ghost predicate Describes(ts: seq<Triple>, t: Table) {
    Covers(ts, t) && InTableOrder(ts)
  }

  /** Entry by entry, the loaded table agrees with the supported part of the saved one. */
  lemma RoundTripEntry(ts: seq<Triple>, t: Table, a: char, b: char)
    requires Covers(ts, t)
    ensures (a in Loaded(ts) && b in Loaded(ts)[a]) <==> (a in SupportedPart(t) && b in SupportedPart(t)[a])
    ensures a in Loaded(ts) && b in Loaded(ts)[a] ==> Loaded(ts)[a][b] == SupportedPart(t)[a][b]
  {
    var l := Loaded(ts);
    var p := SupportedPart(t);
    LoadedHas(ts, a, b);
    if a in p && b in p[a] {
      IndexRoundTrip(a);
      IndexRoundTrip(b);
      var i :| 0 <= i < |ts| && ts[i] == Triple(CharIndex(a), CharIndex(b), t[a][b]);
      assert Names(ts[i], a, b);
    }
    if a in l && b in l[a] {
      LoadedValue(ts, a, b);
      var i :| 0 <= i < |ts| && Names(ts[i], a, b) && l[a][b] == ts[i].count;
      assert Records(ts[i], t);
      assert b in SupportedRow(t[a]);
    }
  }

  /**
   * Round trip: loading what was saved gives back the supported part of the table
   * (entries with an unsupported character are not written, so they are lost).
   */
  lemma SaveLoadRoundTrip(ts: seq<Triple>, t: Table)
    requires Describes(ts, t)
    ensures Loaded(ts) == SupportedPart(t)
  {
    var l := Loaded(ts);
    var p := SupportedPart(t);
    forall a ensures a in l <==> a in p {
      RowKeyRoundTrip(ts, t, a);
    }
    forall a | a in l ensures l[a] == p[a] {
      RowRoundTrip(ts, t, a);
    }
  }

  /** A row is loaded exactly when the saved table has a non-empty supported part of it. */
  lemma RowKeyRoundTrip(ts: seq<Triple>, t: Table, a: char)
    requires Covers(ts, t)
    ensures a in Loaded(ts) <==> a in SupportedPart(t)
  {
    var l := Loaded(ts);
    var p := SupportedPart(t);
    if a in l {
      LoadedShape(ts);
      var b :| b in l[a];
      RoundTripEntry(ts, t, a, b);
    }
    if a in p {
      var b :| b in p[a];
      RoundTripEntry(ts, t, a, b);
    }
  }

  /** A loaded row equals the supported part of the saved row. */
  lemma RowRoundTrip(ts: seq<Triple>, t: Table, a: char)
    requires Covers(ts, t) && a in Loaded(ts) && a in SupportedPart(t)
    ensures Loaded(ts)[a] == SupportedPart(t)[a]
  {
    var r, q := Loaded(ts)[a], SupportedPart(t)[a];
    forall b | b in r ensures b in q && r[b] == q[b] {
      RoundTripEntry(ts, t, a, b);
    }
    forall b | b in q ensures b in r {
      RoundTripEntry(ts, t, a, b);
    }
  }

  // ---------------------------------------------------------------------------------------
  // Iteration order of `std::map<char, …>` and the lines written
  // ---------------------------------------------------------------------------------------

  lemma {:induction false} MinExists(s: set<char>)
    requires s != {}
    ensures exists c :: c in s && forall d :: d in s ==> c <= d
    decreases |s|
  {
    var x :| x in s;
    if s != {x} {
      MinExists(s - {x});
      var m :| m in s - {x} && forall d :: d in s - {x} ==> m <= d;
      var least := if x < m then x else m;
      forall d | d in s ensures least <= d {
        if d != x {
          assert d in s - {x};
        }
      }
    } else {
      assert forall d :: d in s ==> x <= d;
    }
  }

  ghost predicate Ascending(cs: seq<char>) {
    forall i, j :: 0 <= i < j < |cs| ==> cs[i] < cs[j]
  }

  /** The characters of a set in ascending order: the iteration order of a `std::map<char, …>`. */
  ghost function InOrder(s: set<char>): (r: seq<char>)
    ensures Ascending(r)
    ensures forall i :: 0 <= i < |r| ==> r[i] in s
    decreases |s|
  {
    if s == {} then []
    else
      MinExists(s);
      var m :| m in s && forall d :: d in s ==> m <= d;
      var rest := InOrder(s - {m});
      assert forall i :: 0 <= i < |rest| ==> m < rest[i] by {
        forall i | 0 <= i < |rest| ensures m < rest[i] {
          assert rest[i] in s - {m};
        }
      }
      [m] + rest
  }

  /** Every character of the set is listed. */
  lemma {:induction false} InOrderComplete(s: set<char>)
    ensures forall c :: c in s ==> c in InOrder(s)
    decreases |s|
  {
    if s != {} {
      var r := InOrder(s);
      var m := r[0];
      assert r[1..] == InOrder(s - {m});
      InOrderComplete(s - {m});
    }
  }

  /** Two ascending listings of the same characters are equal. */
  lemma {:induction false} AscendingUnique(a: seq<char>, b: seq<char>)
    requires Ascending(a) && Ascending(b)
    requires forall c :: c in a <==> c in b
    ensures a == b
    decreases |a|
  {
    assert a != [] ==> a[0] in b;
    assert b != [] ==> b[0] in a;
    if a != [] && b != [] {
      var i :| 0 <= i < |b| && b[i] == a[0];
      var j :| 0 <= j < |a| && a[j] == b[0];
      assert b[0] <= b[i] && a[0] <= a[j];
      forall c ensures c in a[1..] <==> c in b[1..] {
        AscendingTail(a, c);
        AscendingTail(b, c);
      }
      AscendingUnique(a[1..], b[1..]);
      assert a == [a[0]] + a[1..] && b == [b[0]] + b[1..];
    }
  }

  /** The tail of an ascending listing is ascending and holds everything but the head. */
  lemma AscendingTail(a: seq<char>, c: char)
    requires Ascending(a) && a != []
    ensures Ascending(a[1..])
    ensures c in a[1..] <==> c in a && c != a[0]
  {
    if c in a[1..] {
      var k :| 0 <= k < |a| - 1 && a[1..][k] == c;
      assert a[k + 1] == c;
    }
    if c in a && c != a[0] {
      var k :| 0 <= k < |a| && a[k] == c;
      assert a[1..][k - 1] == c;
    }
  }

  /** The keys of a map in ascending order, as iterating a `std::map<char, …>` visits them. */
  method SortedKeys<V>(m: map<char, V>) returns (keys: seq<char>)
    ensures keys == InOrder(m.Keys)
  {
    keys := [];
    var rest := m.Keys;
    while rest != {}
      invariant rest <= m.Keys
      invariant forall c :: c in m ==> (c in keys <==> c !in rest)
      invariant forall c :: c in keys ==> c in m
      invariant Ascending(keys)
      invariant forall i, c :: 0 <= i < |keys| && c in rest ==> keys[i] < c
      decreases |rest|
    {
      MinExists(rest);
      var c :| c in rest && forall d :: d in rest ==> c <= d;
      keys := keys + [c];
      rest := rest - {c};
    }
    InOrderComplete(m.Keys);
    AscendingUnique(keys, InOrder(m.Keys));
  }

  /** The lines written for one row, visiting its followers in the order `tos`. */
  function RowFile(fromIdx: int, row: map<char, int>, tos: seq<char>): (r: seq<Triple>)
    requires forall i :: 0 <= i < |tos| ==> tos[i] in row
    ensures |r| <= |tos|
    ensures forall k :: 0 <= k < |r| ==> r[k].from == fromIdx && 0 <= r[k].to < VocabSize
    decreases |tos|
  {
    if tos == [] then []
    else
      var rest := RowFile(fromIdx, row, tos[..|tos| - 1]);
      var to := tos[|tos| - 1];
      if CharIndex(to) == -1 then rest else rest + [Triple(fromIdx, CharIndex(to), row[to])]
  }

  /** The lines written for a table, visiting its rows in the order `froms`. */
  ghost function TableFile(t: Table, froms: seq<char>): (r: seq<Triple>)
    requires forall i :: 0 <= i < |froms| ==> froms[i] in t
    ensures forall k :: 0 <= k < |r| ==> InRange(r[k])
    decreases |froms|
  {
    if froms == [] then [] else TableFile(t, froms[..|froms| - 1]) + RowOf(t, froms[|froms| - 1])
  }

  /** The lines written for row `from`: none for a character outside the alphabet. */
  ghost function RowOf(t: Table, from: char): (r: seq<Triple>)
    requires from in t
    ensures forall k :: 0 <= k < |r| ==> InRange(r[k])
  {
    if CharIndex(from) == -1 then [] else RowFile(CharIndex(from), t[from], InOrder(t[from].Keys))
  }

  /** Visiting one more row appends that row's lines. */
  lemma TableFileSnoc(t: Table, froms: seq<char>, i: nat)
    requires i < |froms| && forall k :: 0 <= k < |froms| ==> froms[k] in t
    ensures TableFile(t, froms[..i + 1]) == TableFile(t, froms[..i]) + RowOf(t, froms[i])
  {
    assert froms[..i + 1][..i] == froms[..i];
  }

  /** Visiting one more follower appends its line, if it has a slot. */
  lemma RowFileSnoc(fromIdx: int, row: map<char, int>, tos: seq<char>, j: nat)
    requires j < |tos| && forall k :: 0 <= k < |tos| ==> tos[k] in row
    ensures RowFile(fromIdx, row, tos[..j + 1]) ==
            RowFile(fromIdx, row, tos[..j]) +
            (if CharIndex(tos[j]) == -1 then [] else [Triple(fromIdx, CharIndex(tos[j]), row[tos[j]])])
  {
    assert tos[..j + 1][..j] == tos[..j];
  }

  /** Line x is written for follower Supported[x.to] of the row with index fromIdx. */
  predicate RowLine(x: Triple, fromIdx: int, row: map<char, int>, tos: seq<char>) {
    && InRange(x) && x.from == fromIdx
    && Supported[x.to] in tos && Supported[x.to] in row && x.count == row[Supported[x.to]]
  }

  lemma {:induction false} RowFileLines(fromIdx: int, row: map<char, int>, tos: seq<char>)
    requires 0 <= fromIdx < VocabSize
    requires forall i :: 0 <= i < |tos| ==> tos[i] in row
    ensures forall k :: 0 <= k < |RowFile(fromIdx, row, tos)| ==> RowLine(RowFile(fromIdx, row, tos)[k], fromIdx, row, tos)
    decreases |tos|
  {
    if tos != [] {
      var init := tos[..|tos| - 1];
      RowFileLines(fromIdx, row, init);
      forall c | c in init ensures c in tos {
        var i :| 0 <= i < |init| && init[i] == c;
        assert tos[i] == c;
      }
    }
  }

  /** The follower of x comes before the follower of y. */
  predicate ToBefore(x: Triple, y: Triple) {
    InRange(x) && InRange(y) && Supported[x.to] < Supported[y.to]
  }

  ghost predicate RowOrdered(r: seq<Triple>) {
    forall k, l :: 0 <= k < l < |r| ==> ToBefore(r[k], r[l])
  }

  lemma RowOrderedSnoc(r: seq<Triple>, x: Triple)
    requires RowOrdered(r) && forall k :: 0 <= k < |r| ==> ToBefore(r[k], x)
    ensures RowOrdered(r + [x])
  {
    var all := r + [x];
    forall k, l | 0 <= k < l < |all| ensures ToBefore(all[k], all[l]) {
      assert all[k] == r[k];
    }
  }

  lemma {:induction false} RowFileOrdered(fromIdx: int, row: map<char, int>, tos: seq<char>)
    requires 0 <= fromIdx < VocabSize
    requires forall i :: 0 <= i < |tos| ==> tos[i] in row
    requires Ascending(tos)
    ensures RowOrdered(RowFile(fromIdx, row, tos))
    decreases |tos|
  {
    if tos != [] {
      var init := tos[..|tos| - 1];
      var to := tos[|tos| - 1];
      RowFileOrdered(fromIdx, row, init);
      if CharIndex(to) != -1 {
        RowFileLines(fromIdx, row, init);
        var rest := RowFile(fromIdx, row, init);
        var x := Triple(fromIdx, CharIndex(to), row[to]);
        forall k | 0 <= k < |rest| ensures ToBefore(rest[k], x) {
          assert RowLine(rest[k], fromIdx, row, init);
          var i :| 0 <= i < |init| && init[i] == Supported[rest[k].to];
          assert tos[i] < to;
        }
        RowOrderedSnoc(rest, x);
      }
    }
  }

  lemma {:induction false} RowFileCovers(fromIdx: int, row: map<char, int>, tos: seq<char>)
    requires forall i :: 0 <= i < |tos| ==> tos[i] in row
    ensures forall b :: b in tos && IsSupported(b) ==> Triple(fromIdx, CharIndex(b), row[b]) in RowFile(fromIdx, row, tos)
    decreases |tos|
  {
    if tos != [] {
      var init := tos[..|tos| - 1];
      RowFileCovers(fromIdx, row, init);
      forall b | b in tos && IsSupported(b) ensures Triple(fromIdx, CharIndex(b), row[b]) in RowFile(fromIdx, row, tos) {
        var i :| 0 <= i < |tos| && tos[i] == b;
        if i < |tos| - 1 {
          assert init[i] == b;
        }
      }
    }
  }

  /** The line of an entry of row `from` of t. */
  predicate EntryLine(x: Triple, t: Table, from: char) {
    Records(x, t) && Supported[x.from] == from
  }

  /** The lines of row `from` of t are lines of entries of that row. */
  lemma RowOfRecords(t: Table, from: char)
    requires from in t
    ensures EntriesOf(RowOf(t, from), t, from)
  {
    if CharIndex(from) != -1 {
      var tos := InOrder(t[from].Keys);
      RowFileLines(CharIndex(from), t[from], tos);
      var r := RowFile(CharIndex(from), t[from], tos);
      forall k | 0 <= k < |r| ensures EntryLine(r[k], t, from) {
        assert RowLine(r[k], CharIndex(from), t[from], tos);
      }
    }
  }

  /** Line x is the line of an entry of t, from one of the rows `froms`. */
  predicate FromLine(x: Triple, t: Table, froms: seq<char>) {
    Records(x, t) && Supported[x.from] in froms
  }

  /** Every line of r is the line of an entry of t, from one of the rows `froms`. */
  ghost predicate LinesFrom(r: seq<Triple>, t: Table, froms: seq<char>) {
    forall k :: 0 <= k < |r| ==> FromLine(r[k], t, froms)
  }

  /** Lines from the rows of a prefix are lines from the rows of the whole. */
  lemma LinesFromWiden(r: seq<Triple>, t: Table, froms: seq<char>)
    requires froms != [] && LinesFrom(r, t, froms[..|froms| - 1])
    ensures LinesFrom(r, t, froms)
  {
    var init := froms[..|froms| - 1];
    forall k | 0 <= k < |r| ensures FromLine(r[k], t, froms) {
      assert FromLine(r[k], t, init);
      var i :| 0 <= i < |init| && init[i] == Supported[r[k].from];
      assert froms[i] == init[i];
    }
  }

  /** The lines of row `from`, one of `froms`, are lines from the rows `froms`. */
  lemma LinesFromRow(row: seq<Triple>, t: Table, from: char, froms: seq<char>)
    requires EntriesOf(row, t, from) && from in froms
    ensures LinesFrom(row, t, froms)
  {
    forall k | 0 <= k < |row| ensures FromLine(row[k], t, froms) {
      assert EntryLine(row[k], t, from);
    }
  }

  lemma LinesFromCat(a: seq<Triple>, b: seq<Triple>, t: Table, froms: seq<char>)
    requires LinesFrom(a, t, froms) && LinesFrom(b, t, froms)
    ensures LinesFrom(a + b, t, froms)
  {
    var all := a + b;
    forall k | 0 <= k < |all| ensures FromLine(all[k], t, froms) {
      if k < |a| {
        assert all[k] == a[k];
      } else {
        assert all[k] == b[k - |a|];
      }
    }
  }

  /** Every line of a table file is the line of an entry, from a row among froms. */
  lemma {:induction false} TableFileLines(t: Table, froms: seq<char>)
    requires forall i :: 0 <= i < |froms| ==> froms[i] in t
    ensures LinesFrom(TableFile(t, froms), t, froms)
    decreases |froms|
  {
    if froms != [] {
      var init := froms[..|froms| - 1];
      var from := froms[|froms| - 1];
      TableFileLines(t, init);
      LinesFromWiden(TableFile(t, init), t, froms);
      RowOfRecords(t, from);
      LinesFromRow(RowOf(t, from), t, from, froms);
      LinesFromCat(TableFile(t, init), RowOf(t, from), t, froms);
    }
  }

  /** Every line of `rest` comes from a row whose character is below `from`. */
  ghost predicate RowsBelow(rest: seq<Triple>, from: char) {
    forall k :: 0 <= k < |rest| ==> InRange(rest[k]) && Supported[rest[k].from] < from
  }

  /** Every line of `row` is the line of an entry of row `from` of t. */
  ghost predicate EntriesOf(row: seq<Triple>, t: Table, from: char) {
    forall k :: 0 <= k < |row| ==> EntryLine(row[k], t, from)
  }

  /** The lines written for earlier rows all come from rows below the last one. */
  lemma EarlierRows(t: Table, froms: seq<char>)
    requires forall i :: 0 <= i < |froms| ==> froms[i] in t
    requires Ascending(froms) && froms != []
    ensures RowsBelow(TableFile(t, froms[..|froms| - 1]), froms[|froms| - 1])
  {
    var init := froms[..|froms| - 1];
    TableFileLines(t, init);
    var rest := TableFile(t, init);
    assert LinesFrom(rest, t, init);
    forall k | 0 <= k < |rest| ensures InRange(rest[k]) && Supported[rest[k].from] < froms[|froms| - 1] {
      assert FromLine(rest[k], t, init);
      var i :| 0 <= i < |init| && init[i] == Supported[rest[k].from];
      assert froms[i] == init[i];
    }
  }

  /** A table file visiting its rows in ascending order lists its lines in ascending order. */
  lemma {:induction false} TableFileOrdered(t: Table, froms: seq<char>)
    requires forall i :: 0 <= i < |froms| ==> froms[i] in t
    requires Ascending(froms)
    ensures InTableOrder(TableFile(t, froms))
    decreases |froms|
  {
    if froms != [] {
      var init := froms[..|froms| - 1];
      var from := froms[|froms| - 1];
      TableFileOrdered(t, init);
      RowOfRecords(t, from);
      RowOfOrdered(t, from);
      EarlierRows(t, froms);
      AppendOrdered(TableFile(t, init), RowOf(t, from), from, t);
    }
  }

  lemma RowOfOrdered(t: Table, from: char)
    requires from in t
    ensures RowOrdered(RowOf(t, from))
  {
    if CharIndex(from) != -1 {
      RowFileOrdered(CharIndex(from), t[from], InOrder(t[from].Keys));
    }
  }

  /** Lines of earlier rows, then the lines of row `from` in follower order, are in order. */
  lemma AppendOrdered(rest: seq<Triple>, row: seq<Triple>, from: char, t: Table)
    requires InTableOrder(rest) && RowOrdered(row)
    requires RowsBelow(rest, from) && EntriesOf(row, t, from)
    ensures InTableOrder(rest + row)
  {
    var all := rest + row;
    forall k, l | 0 <= k < l < |all| ensures LineBefore(all[k], all[l]) {
      if l < |rest| {
        assert all[k] == rest[k] && all[l] == rest[l];
      } else if k < |rest| {
        assert all[k] == rest[k] && all[l] == row[l - |rest|];
        assert EntryLine(row[l - |rest|], t, from);
      } else {
        assert all[k] == row[k - |rest|] && all[l] == row[l - |rest|];
        assert EntryLine(row[k - |rest|], t, from) && EntryLine(row[l - |rest|], t, from);
        assert ToBefore(row[k - |rest|], row[l - |rest|]);
      }
    }
  }

  /** A table file has the line of every supported entry of the rows it visits. */
  lemma {:induction false} TableFileCovers(t: Table, froms: seq<char>)
    requires forall i :: 0 <= i < |froms| ==> froms[i] in t
    ensures forall a, b :: a in froms && b in t[a] && IsSupported(a) && IsSupported(b) ==>
              Triple(CharIndex(a), CharIndex(b), t[a][b]) in TableFile(t, froms)
    decreases |froms|
  {
    if froms != [] {
      var init := froms[..|froms| - 1];
      var from := froms[|froms| - 1];
      TableFileCovers(t, init);
      forall a, b | a in froms && b in t[a] && IsSupported(a) && IsSupported(b)
        ensures Triple(CharIndex(a), CharIndex(b), t[a][b]) in TableFile(t, froms)
      {
        var i :| 0 <= i < |froms| && froms[i] == a;
        if i < |froms| - 1 {
          assert init[i] == a;
        } else {
          InOrderComplete(t[a].Keys);
          RowFileCovers(CharIndex(a), t[a], InOrder(t[a].Keys));
          assert RowOf(t, a) == RowFile(CharIndex(a), t[a], InOrder(t[a].Keys));
        }
      }
    }
  }

  /** What the save writes describes the table. */
  lemma SavedDescribes(t: Table)
    ensures Describes(TableFile(t, InOrder(t.Keys)), t)
  {
    var froms := InOrder(t.Keys);
    InOrderComplete(t.Keys);
    TableFileLines(t, froms);
    var r := TableFile(t, froms);
    assert LinesFrom(r, t, froms);
    TableFileOrdered(t, froms);
    TableFileCovers(t, froms);
  }
}
