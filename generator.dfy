/**
 * Phase 1 of `predictNextText`: the greedy character chain over the bigram table, with the
 * six-character cycle test. The rule for one step is stated independently of how followers
 * with equal counts are ordered (the source sorts with an unstable sort).
 */
module Generator {
  import opened Wrappers
  import opened Bigram

  /** Length of the window whose earlier reappearance blocks a candidate. */
  const WindowSize: nat := 6

  /** `needle` occurs in `hay` starting at position q. */
  predicate OccursAt(hay: string, needle: string, q: nat) {
    q + |needle| <= |hay| && hay[q..q + |needle|] == needle
  }

  /** `std::string::find` from position `from`: the first start of `needle` at or after it. */
  function FindFrom(hay: string, needle: string, from: nat): (r: Option<nat>)
    requires from <= |hay|
    ensures r.Some? ==> from <= r.value && OccursAt(hay, needle, r.value)
    ensures r.Some? ==> forall q :: from <= q < r.value ==> !OccursAt(hay, needle, q)
    ensures r.None? ==> forall q :: from <= q ==> !OccursAt(hay, needle, q)
    decreases |hay| - from
  {
    if from + |needle| > |hay| then None
    else if hay[from..from + |needle|] == needle then Some(from)
    else FindFrom(hay, needle, from + 1)
  }

  /** `std::string::find` from the start; None stands for `npos`. */
  function Find(hay: string, needle: string): (r: Option<nat>)
    ensures r.Some? ==> OccursAt(hay, needle, r.value) && forall q: nat :: q < r.value ==> !OccursAt(hay, needle, q)
    ensures r.None? ==> forall q: nat :: !OccursAt(hay, needle, q)
  {
    FindFrom(hay, needle, 0)
  }

  /**
   * The cycle test on a hypothetical prediction: when it is at least six characters long,
   * its last six characters are found starting before their own position.
   */
  predicate Blocked(hyp: string)
    ensures Blocked(hyp) ==> |hyp| > WindowSize
  {
    if |hyp| >= WindowSize then
      var newWindow := hyp[|hyp| - WindowSize..];
      var lastPos := |hyp| - WindowSize;
      match Find(hyp, newWindow)
      case Some(earlierPos) => earlierPos < lastPos
      case None => false
    else false
  }

  /** The last six characters of hyp also start at position p, before their own position. */
  predicate RepeatsAt(hyp: string, p: nat) {
    |hyp| >= WindowSize && p < |hyp| - WindowSize && OccursAt(hyp, hyp[|hyp| - WindowSize..], p)
  }

  /** The last six characters also occur at an earlier start. */
  ghost predicate RepeatsWindow(hyp: string) {
    exists p: nat :: RepeatsAt(hyp, p)
  }

  /** The cycle test blocks exactly the predictions whose trailing window repeats. */
  lemma BlockedIffRepeats(hyp: string)
    ensures Blocked(hyp) <==> RepeatsWindow(hyp)
  {
    if |hyp| >= WindowSize {
      var lastPos := |hyp| - WindowSize;
      var w := hyp[lastPos..];
      assert hyp[lastPos..lastPos + |w|] == w;
      assert OccursAt(hyp, w, lastPos);
      var r := Find(hyp, w);
      assert r.Some?;
      if Blocked(hyp) {
        assert RepeatsAt(hyp, r.value);
      }
      if RepeatsWindow(hyp) {
        var p: nat :| RepeatsAt(hyp, p);
        assert r.value <= p;
      }
    }
  }

  // ---------------------------------------------------------------------------------------
  // Followers in count order
  // ---------------------------------------------------------------------------------------

  predicate HasFollowers(table: Table, c: char) {
    c in table && table[c] != map[]
  }

  ghost predicate Distinct(fs: seq<char>) {
    forall i, j :: 0 <= i < j < |fs| ==> fs[i] != fs[j]
  }

  ghost predicate NonIncreasing(row: map<char, int>, fs: seq<char>) {
    && (forall i :: 0 <= i < |fs| ==> fs[i] in row)
    && (forall i, j :: 0 <= i < j < |fs| ==> row[fs[i]] >= row[fs[j]])
  }

  /** An admissible outcome of sorting a row's followers by count, descending. */
  ghost predicate ByCount(row: map<char, int>, fs: seq<char>) {
    && Distinct(fs)
    && NonIncreasing(row, fs)
    && (forall c :: c in row ==> c in fs)
  }

  /** Where a follower with count row[c] goes in a count-ordered list: before the first
      element whose count is not larger. */
  function Position(row: map<char, int>, fs: seq<char>, c: char): (k: nat)
    requires c in row && forall i :: 0 <= i < |fs| ==> fs[i] in row
    ensures k <= |fs|
    ensures forall i :: 0 <= i < k ==> row[fs[i]] > row[c]
    ensures k < |fs| ==> row[fs[k]] <= row[c]
  {
    if fs == [] || row[fs[0]] <= row[c] then 0 else 1 + Position(row, fs[1..], c)
  }

  /** fs with c inserted at position k. */
  function InsertAt(fs: seq<char>, k: nat, c: char): (r: seq<char>)
    requires k <= |fs|
    ensures |r| == |fs| + 1 && r[k] == c
    ensures forall i :: 0 <= i < k ==> r[i] == fs[i]
    ensures forall i :: k < i < |r| ==> r[i] == fs[i - 1]
    ensures forall x :: x in r <==> x in fs || x == c
  {
    assert fs == fs[..k] + fs[k..];
    fs[..k] + [c] + fs[k..]
  }

  /** Inserting a new follower at its Position keeps the list distinct and count-ordered. */
  lemma InsertAtPosition(row: map<char, int>, fs: seq<char>, c: char, k: nat)
    requires c in row && c !in fs && Distinct(fs) && NonIncreasing(row, fs)
    requires k == Position(row, fs, c)
    ensures Distinct(InsertAt(fs, k, c)) && NonIncreasing(row, InsertAt(fs, k, c))
  {
    var next := InsertAt(fs, k, c);
    InsertedOrdered(row, fs, c, k, next);
    InsertedDistinct(fs, c, k, next);
  }

  lemma InsertedOrdered(row: map<char, int>, fs: seq<char>, c: char, k: nat, next: seq<char>)
    requires c in row && NonIncreasing(row, fs) && k <= |fs|
    requires forall i :: 0 <= i < k ==> row[fs[i]] > row[c]
    requires k < |fs| ==> row[fs[k]] <= row[c]
    requires |next| == |fs| + 1
    requires forall i :: 0 <= i < k ==> next[i] == fs[i]
    requires next[k] == c
    requires forall i :: k < i < |next| ==> next[i] == fs[i - 1]
    ensures NonIncreasing(row, next)
  {
    forall i | k <= i < |fs| ensures row[fs[i]] <= row[c] {
      assert row[fs[i]] <= row[fs[k]];
    }
    forall i | 0 <= i < |next| ensures next[i] in row {
      if i != k {
        assert next[i] == fs[if i < k then i else i - 1];
      }
    }
    forall i, j | 0 <= i < j < |next| ensures row[next[i]] >= row[next[j]] {
      if i != k && j != k {
        assert next[i] == fs[if i < k then i else i - 1];
        assert next[j] == fs[if j < k then j else j - 1];
      } else if i == k {
        assert next[j] == fs[j - 1];
      } else {
        assert next[i] == fs[i];
      }
    }
  }

  lemma InsertedDistinct(fs: seq<char>, c: char, k: nat, next: seq<char>)
    requires c !in fs && Distinct(fs) && k <= |fs|
    requires |next| == |fs| + 1
    requires forall i :: 0 <= i < k ==> next[i] == fs[i]
    requires next[k] == c
    requires forall i :: k < i < |next| ==> next[i] == fs[i - 1]
    ensures Distinct(next)
  {
    forall i, j | 0 <= i < j < |next| ensures next[i] != next[j] {
      if i == k {
        assert next[j] == fs[j - 1] && fs[j - 1] in fs;
      } else if j == k {
        assert next[i] == fs[i] && fs[i] in fs;
      } else {
        assert next[i] == fs[if i < k then i else i - 1];
        assert next[j] == fs[if j < k then j else j - 1];
      }
    }
  }

  /**
   * The followers of one row, each once, in an order of non-increasing count (insertion of
   * the keys one at a time).
   */
  method FollowersByCount(row: map<char, int>) returns (followers: seq<char>)
    ensures ByCount(row, followers)
    ensures |followers| == |row|
  {
    followers := [];
    var rest := row.Keys;
    while rest != {}
      invariant rest <= row.Keys
      invariant forall x :: x in row ==> (x in followers <==> x !in rest)
      invariant Distinct(followers) && NonIncreasing(row, followers)
      invariant |followers| + |rest| == |row|
      decreases |rest|
    {
      var c :| c in rest;
      var k := Position(row, followers, c);
      InsertAtPosition(row, followers, c, k);
      followers := InsertAt(followers, k, c);
      rest := rest - {c};
    }
  }

  // ---------------------------------------------------------------------------------------
  // One step
  // ---------------------------------------------------------------------------------------

  /** The candidate loop over an ordering: the first candidate that is not blocked, or the
      first candidate when every one is blocked. */
  function Pick(order: seq<char>, prediction: string): (c: char)
    requires order != []
    ensures c in order
    ensures !Blocked(prediction + [order[0]]) ==> c == order[0]
  {
    PickFrom(order, prediction, 0)
  }

  function PickFrom(order: seq<char>, prediction: string, k: nat): (c: char)
    requires k < |order|
    ensures c in order
    decreases |order| - k
  {
    if !Blocked(prediction + [order[k]]) then order[k]
    else if k + 1 == |order| then order[0]
    else PickFrom(order, prediction, k + 1)
  }

  /** PickFrom returns the first open candidate at or after k, or the first one overall. */
  lemma {:induction false} PickFromFirstOpen(order: seq<char>, prediction: string, k: nat, at: nat)
    requires k <= at <= |order| && order != []
    requires forall j :: k <= j < at ==> Blocked(prediction + [order[j]])
    requires at < |order| ==> !Blocked(prediction + [order[at]])
    ensures k < |order| ==> PickFrom(order, prediction, k) == (if at < |order| then order[at] else order[0])
    decreases |order| - k
  {
    if k < |order| && k < at && k + 1 < |order| {
      PickFromFirstOpen(order, prediction, k + 1, at);
    }
  }

  /**
   * The rule for one step, whatever the order of equal counts: the chosen character is a
   * follower; if some follower would not repeat a window, the chosen one does not and has the
   * largest count among those; otherwise (a forced move) it has the largest count overall.
   */
  ghost predicate Choice(row: map<char, int>, prediction: string, chosen: char)
    ensures Choice(row, prediction, chosen) ==>
              chosen in row && forall d :: d in row && row[d] > row[chosen] ==> Blocked(prediction + [d])
  {
    && chosen in row
    && if exists d :: d in row && !Blocked(prediction + [d]) then
         && !Blocked(prediction + [chosen])
         && forall d :: d in row && !Blocked(prediction + [d]) ==> row[d] <= row[chosen]
       else
         forall d :: d in row ==> row[d] <= row[chosen]
  }

  /** Whatever count order the sort produced, the candidate loop obeys the rule. */
  lemma PickIsChoice(row: map<char, int>, order: seq<char>, prediction: string)
    requires ByCount(row, order) && row != map[]
    ensures order != [] && Choice(row, prediction, Pick(order, prediction))
  {
    var d0 :| d0 in row;
    assert d0 in order;
    var at := FirstOpen(order, prediction, 0);
    PickFromFirstOpen(order, prediction, 0, at);
    if at < |order| {
      assert order[at] in row && !Blocked(prediction + [order[at]]);
      forall e | e in row && !Blocked(prediction + [e]) ensures row[e] <= row[order[at]] {
        var i :| 0 <= i < |order| && order[i] == e;
        assert at <= i;
      }
    } else {
      forall e | e in row ensures Blocked(prediction + [e]) && row[e] <= row[order[0]] {
        var i :| 0 <= i < |order| && order[i] == e;
      }
    }
  }

  /** The position of the first candidate at or after k that is not blocked (|order| if none). */
  lemma {:induction false} FirstOpen(order: seq<char>, prediction: string, k: nat) returns (at: nat)
    requires k <= |order|
    ensures k <= at <= |order|
    ensures forall j :: k <= j < at ==> Blocked(prediction + [order[j]])
    ensures at < |order| ==> !Blocked(prediction + [order[at]])
    decreases |order| - k
  {
    if k == |order| || !Blocked(prediction + [order[k]]) {
      at := k;
    } else {
      at := FirstOpen(order, prediction, k + 1);
    }
  }

  // ---------------------------------------------------------------------------------------
  // The chain
  // ---------------------------------------------------------------------------------------

  /** Character i of a prediction was appended by the step rule from character i - 1. */
  ghost predicate Step(table: Table, prediction: string, i: nat) {
    && 1 <= i < |prediction|
    && HasFollowers(table, prediction[i - 1])
    && Choice(table[prediction[i - 1]], prediction[..i], prediction[i])
  }

  /**
   * A phase-1 result for a seed: the seed followed by at most max(maxChars, 0) characters,
   * each obeying the step rule from the character before it; fewer than maxChars only when
   * the last character has no followers.
   */
  ghost predicate Generated(table: Table, seed: char, maxChars: int, prediction: string)
    ensures Generated(table, seed, maxChars, prediction) && maxChars <= 0 ==> prediction == [seed]
  {
    && |prediction| >= 1 && prediction[0] == seed
    && |prediction| - 1 <= (if maxChars < 0 then 0 else maxChars)
    && (forall i :: 1 <= i < |prediction| ==> Step(table, prediction, i))
    && (|prediction| - 1 < maxChars ==> !HasFollowers(table, prediction[|prediction| - 1]))
  }

  /**
   * One iteration of phase 1: sort the followers of the current character by count and take
   * the first that does not repeat a window, or the first one when all do.
   */
  method NextChar(row: map<char, int>, prediction: string) returns (chosen: char)
    requires row != map[]
    ensures Choice(row, prediction, chosen)
  {
    var followers := FollowersByCount(row);
    chosen := '\0';
    var found := false;
    ghost var at := 0;
    for k := 0 to |followers|
      invariant forall j :: 0 <= j < k ==> Blocked(prediction + [followers[j]])
    {
      var candidate := followers[k];
      var hyp := prediction + [candidate];
      if |hyp| >= WindowSize {
        var newWindow := hyp[|hyp| - WindowSize..];
        var earlierPos := Find(hyp, newWindow);
        var lastPos := |hyp| - WindowSize;
        if earlierPos.Some? && earlierPos.value < lastPos {
          assert Blocked(hyp);
          continue;
        }
      }
      chosen := candidate;
      found := true;
      at := k;
      break;
    }
    if !found {
      chosen := followers[0];
      PickFromFirstOpen(followers, prediction, 0, |followers|);
    } else {
      PickFromFirstOpen(followers, prediction, 0, at);
    }
    assert chosen == Pick(followers, prediction);
    PickIsChoice(row, followers, prediction);
  }

  /** Appending a character keeps the earlier steps and adds one at the end. */
  lemma StepsExtend(table: Table, prediction: string, c: char)
    requires |prediction| >= 1
    requires forall j :: 1 <= j < |prediction| ==> Step(table, prediction, j)
    requires HasFollowers(table, prediction[|prediction| - 1])
    requires Choice(table[prediction[|prediction| - 1]], prediction, c)
    ensures forall j :: 1 <= j < |prediction| + 1 ==> Step(table, prediction + [c], j)
  {
    var next := prediction + [c];
    forall j | 1 <= j < |next| ensures Step(table, next, j) {
      assert next[..j] == if j < |prediction| then prediction[..j] else prediction;
      if j < |prediction| {
        assert Step(table, prediction, j);
      }
    }
  }

  /** Phase 1 of `predictNextText`: the greedy chain from the seed character. */
  method Chain(table: Table, seed: char, maxChars: int) returns (prediction: string)
    ensures Generated(table, seed, maxChars, prediction)
  {
    var current := seed;
    prediction := [current];
    var i := 0;
    while i < maxChars
      invariant 0 <= i && |prediction| == i + 1 && prediction[0] == seed && current == prediction[i]
      invariant i <= (if maxChars < 0 then 0 else maxChars)
      invariant forall j :: 1 <= j < |prediction| ==> Step(table, prediction, j)
    {
      if current !in table || table[current] == map[] {
        break;
      }
      var chosen := NextChar(table[current], prediction);
      StepsExtend(table, prediction, chosen);
      prediction := prediction + [chosen];
      current := chosen;
      i := i + 1;
    }
  }

  /**
   * Every step that had a choice avoided repeating a window: if some follower of the
   * previous character kept the trailing six characters fresh, the prefix ending at the
   * chosen character does not repeat its trailing window.
   */
  lemma ChainAvoidsCycles(table: Table, seed: char, maxChars: int, prediction: string, i: nat)
    requires Generated(table, seed, maxChars, prediction)
    requires 1 <= i < |prediction| && prediction[i - 1] in table
    requires exists d :: d in table[prediction[i - 1]] && !RepeatsWindow(prediction[..i] + [d])
    ensures !RepeatsWindow(prediction[..i + 1])
  {
    assert Step(table, prediction, i);
    var d :| d in table[prediction[i - 1]] && !RepeatsWindow(prediction[..i] + [d]);
    BlockedIffRepeats(prediction[..i] + [d]);
    assert prediction[..i + 1] == prediction[..i] + [prediction[i]];
    BlockedIffRepeats(prediction[..i + 1]);
  }

  /** A seed without followers yields the seed alone. */
  lemma ChainStopsAtOrphanSeed(table: Table, seed: char, maxChars: int, prediction: string)
    requires Generated(table, seed, maxChars, prediction)
    requires !HasFollowers(table, seed)
    ensures prediction == [seed]
  {
    assert !Step(table, prediction, 1);
    assert prediction == [prediction[0]];
  }

  /** b is a recorded follower of a. */
  predicate Follows(table: Table, a: char, b: char) {
    a in table && b in table[a]
  }

  /** Every appended character is a recorded follower of the character before it. */
  lemma ChainFollowers(table: Table, seed: char, maxChars: int, prediction: string)
    requires Generated(table, seed, maxChars, prediction)
    ensures forall i :: 1 <= i < |prediction| ==> Follows(table, prediction[i - 1], prediction[i])
  {
    forall i | 1 <= i < |prediction|
      ensures Follows(table, prediction[i - 1], prediction[i])
    {
      assert Step(table, prediction, i);
    }
  }

  // ---------------------------------------------------------------------------------------
  // Every outcome of the rule is reachable by some order of equal counts
  // ---------------------------------------------------------------------------------------

  /** The elements of fs that satisfy keep, in order. */
  function Filter(fs: seq<char>, keep: char -> bool): (r: seq<char>)
    ensures forall x :: x in r <==> x in fs && keep(x)
    decreases |fs|
  {
    if fs == [] then []
    else
      var rest := Filter(fs[..|fs| - 1], keep);
      var x := fs[|fs| - 1];
      if keep(x) then rest + [x] else rest
  }

  /** Filtering keeps a list distinct and count-ordered. */
  lemma {:induction false} FilterKeepsOrder(row: map<char, int>, fs: seq<char>, keep: char -> bool)
    requires Distinct(fs) && NonIncreasing(row, fs)
    ensures Distinct(Filter(fs, keep)) && NonIncreasing(row, Filter(fs, keep))
    decreases |fs|
  {
    if fs != [] {
      var init := fs[..|fs| - 1];
      var x := fs[|fs| - 1];
      assert Distinct(init) && NonIncreasing(row, init);
      FilterKeepsOrder(row, init, keep);
      var rest := Filter(init, keep);
      if keep(x) {
        var r := rest + [x];
        forall i | 0 <= i < |rest| ensures r[i] != x && row[r[i]] >= row[x] {
          assert rest[i] in rest;
          var k :| 0 <= k < |init| && init[k] == rest[i];
          assert fs[k] == rest[i];
        }
      }
    }
  }

  /** Counts above v, then c with count v, then counts at most v: a count-ordered list. */
  lemma {:induction false} Promoted(row: map<char, int>, a: seq<char>, c: char, b: seq<char>)
    requires c in row
    requires Distinct(a) && NonIncreasing(row, a) && Distinct(b) && NonIncreasing(row, b)
    requires forall i :: 0 <= i < |a| ==> row[a[i]] > row[c]
    requires forall i :: 0 <= i < |b| ==> row[b[i]] <= row[c] && b[i] != c
    ensures Distinct(a + [c] + b) && NonIncreasing(row, a + [c] + b)
  {
    var next := a + [c] + b;
    var k := |a|;
    assert forall i :: 0 <= i < k ==> next[i] == a[i];
    assert next[k] == c;
    assert forall i :: k < i < |next| ==> next[i] == b[i - k - 1];
    forall i, j | 0 <= i < j < |next| ensures next[i] != next[j] && row[next[i]] >= row[next[j]] {
      if j < k {
        assert next[i] == a[i] && next[j] == a[j];
      } else if j == k {
        assert next[i] == a[i];
      } else if i < k {
        assert next[i] == a[i] && next[j] == b[j - k - 1];
      } else if i == k {
        assert next[j] == b[j - k - 1];
      } else {
        assert next[i] == b[i - k - 1] && next[j] == b[j - k - 1];
      }
    }
  }

  /**
   * Moving c ahead of the other followers with its count (and, when forced is false, behind
   * those with a larger count) gives an admissible count order.
   */
  lemma PromoteOrder(row: map<char, int>, order: seq<char>, c: char, forced: bool)
    returns (a: seq<char>, b: seq<char>)
    requires ByCount(row, order) && c in row
    requires forced ==> forall d :: d in row ==> row[d] <= row[c]
    ensures ByCount(row, a + [c] + b)
    ensures forall i :: 0 <= i < |a| ==> a[i] in row && row[a[i]] > row[c]
    ensures forced ==> a == []
  {
    var v := row[c];
    var higher := x => x in row && row[x] > v;
    var lower := x => x in row && row[x] <= v && x != c;
    a := if forced then [] else Filter(order, higher);
    b := Filter(order, lower);
    FilterKeepsOrder(row, order, higher);
    FilterKeepsOrder(row, order, lower);
    assert forall i :: 0 <= i < |a| ==> a[i] in a;
    assert forall i :: 0 <= i < |b| ==> b[i] in b;
    Promoted(row, a, c, b);
    forall x | x in row ensures x in a + [c] + b {
      assert x in order;
      if !forced && row[x] > v {
        assert x in a;
      } else if x != c {
        assert x in b;
      }
    }
  }

  /**
   * The converse of PickIsChoice: any character the rule allows is what the candidate loop
   * picks for some admissible order of the followers (move it ahead of its equal counts).
   */
  lemma ChoiceIsSomePick(row: map<char, int>, order: seq<char>, prediction: string, c: char)
    returns (order2: seq<char>)
    requires ByCount(row, order) && Choice(row, prediction, c)
    ensures ByCount(row, order2) && order2 != [] && Pick(order2, prediction) == c
  {
    var forced := !exists d :: d in row && !Blocked(prediction + [d]);
    var a, b := PromoteOrder(row, order, c, forced);
    order2 := a + [c] + b;
    assert order2[|a|] == c;
    if !forced {
      forall j | 0 <= j < |a| ensures Blocked(prediction + [order2[j]]) {
        assert order2[j] == a[j];
      }
      PickFromFirstOpen(order2, prediction, 0, |a|);
    } else {
      PickFromFirstOpen(order2, prediction, 0, |order2|);
    }
  }
}
