/**
 * `std::set<std::string>` as the model sees it: a strictly ascending sequence under the
 * lexicographic order of `std::string::operator<`, so that iterating the sequence visits the
 * elements in the set's iteration order.
 */
module OrderedSet {

  /** `a < b` on strings: a is a proper prefix of b, or a is smaller at the first difference. */
  predicate Below(a: string, b: string) {
    |b| > 0 && (|a| == 0 || a[0] < b[0] || (a[0] == b[0] && Below(a[1..], b[1..])))
  }

  lemma {:induction false} BelowIrreflexive(a: string)
    ensures !Below(a, a)
  {
    if |a| > 0 {
      BelowIrreflexive(a[1..]);
    }
  }

  lemma {:induction false} BelowTransitive(a: string, b: string, c: string)
    requires Below(a, b) && Below(b, c)
    ensures Below(a, c)
  {
    if |a| > 0 && a[0] == b[0] && b[0] == c[0] {
      BelowTransitive(a[1..], b[1..], c[1..]);
    }
  }

  lemma {:induction false} BelowTotal(a: string, b: string)
    ensures a == b || Below(a, b) || Below(b, a)
  {
    if |a| > 0 && |b| > 0 && a[0] == b[0] {
      BelowTotal(a[1..], b[1..]);
      if a[1..] == b[1..] {
        assert a == [a[0]] + a[1..] && b == [b[0]] + b[1..];
      }
    }
  }

  /** a and b agree before position i, and a is smaller at i. */
  predicate DiffersAt(a: string, b: string, i: nat) {
    i < |a| && i < |b| && a[..i] == b[..i] && a[i] < b[i]
  }

  /**
   * The recursive order is the lexicographic order of `std::string::operator<`: a is below b
   * exactly when a is a proper prefix of b or a is smaller at the first difference.
   */
  lemma {:induction false} BelowIff(a: string, b: string)
    ensures Below(a, b) <==> (|a| < |b| && a == b[..|a|]) || exists i: nat :: DiffersAt(a, b, i)
  {
    if |a| > 0 && |b| > 0 {
      var a', b' := a[1..], b[1..];
      BelowIff(a', b');
      if a[0] == b[0] {
        assert a == [a[0]] + a' && b == [b[0]] + b';
        if |a'| < |b'| && a' == b'[..|a'|] {
          assert a == b[..|a|];
        }
        if |a| < |b| && a == b[..|a|] {
          assert a' == b[..|a|][1..] == b'[..|a'|];
        }
        forall i: nat | DiffersAt(a', b', i)
          ensures DiffersAt(a, b, i + 1)
        {
          assert a[..i + 1] == [a[0]] + a'[..i] && b[..i + 1] == [b[0]] + b'[..i];
        }
        forall i: nat | DiffersAt(a, b, i)
          ensures i > 0 && DiffersAt(a', b', i - 1)
        {
          assert a[..i][1..] == a'[..i - 1] && b[..i][1..] == b'[..i - 1];
        }
      } else {
        if a[0] < b[0] {
          assert DiffersAt(a, b, 0);
        }
      }
    } else if |a| == 0 && |b| > 0 {
      assert a == b[..|a|];
    }
  }

  /** The elements of a sequence, as a set. */
  function Elems(s: seq<string>): set<string> {
    set x | x in s
  }

  /** Strictly ascending, hence also free of duplicates. */
  ghost predicate StrictlySorted(s: seq<string>) {
    forall i, j :: 0 <= i < j < |s| ==> Below(s[i], s[j])
  }

  /**
   * `std::set::insert`: w is placed at its position in the order, and nothing happens when w
   * is already present.
   */
  function Insert(s: seq<string>, w: string): (r: seq<string>)
    requires StrictlySorted(s)
    ensures StrictlySorted(r)
    ensures Elems(r) == Elems(s) + {w}
  {
    if s == [] then [w]
    else if w == s[0] then s
    else if Below(w, s[0]) then
      InsertFront(s, w);
      [w] + s
    else
      var rest := Insert(s[1..], w);
      InsertBehind(s, w, rest);
      [s[0]] + rest
  }

  /** The head of s stays in front of everything inserted behind it. */
  lemma InsertBehind(s: seq<string>, w: string, rest: seq<string>)
    requires StrictlySorted(s) && s != [] && w != s[0] && !Below(w, s[0])
    requires StrictlySorted(rest) && Elems(rest) == Elems(s[1..]) + {w}
    ensures StrictlySorted([s[0]] + rest)
    ensures Elems([s[0]] + rest) == Elems(s) + {w}
  {
    BelowTotal(w, s[0]);
    forall x | x in Elems(rest) ensures Below(s[0], x) {
      if x != w {
        var k :| 0 <= k < |s| - 1 && s[1..][k] == x;
        assert s[k + 1] == x;
      }
    }
    assert s == [s[0]] + s[1..];
    var r := [s[0]] + rest;
    assert Elems(s) == {s[0]} + Elems(s[1..]);
    assert Elems(r) == {s[0]} + Elems(rest);
    forall i, j | 0 <= i < j < |r| ensures Below(r[i], r[j]) {
      if i == 0 {
        assert r[j] == rest[j - 1] && r[j] in Elems(rest);
      } else {
        assert r[i] == rest[i - 1] && r[j] == rest[j - 1];
      }
    }
  }

  /** A string below the first element of a sorted sequence is below all of them. */
  lemma InsertFront(s: seq<string>, w: string)
    requires StrictlySorted(s) && s != [] && Below(w, s[0])
    ensures StrictlySorted([w] + s)
  {
    forall j | 0 < j < |s| ensures Below(w, s[j]) {
      BelowTransitive(w, s[0], s[j]);
    }
  }

  /** A strictly sorted sequence is determined by its elements. */
  lemma {:induction false} SortedUnique(a: seq<string>, b: seq<string>)
    requires StrictlySorted(a) && StrictlySorted(b) && Elems(a) == Elems(b)
    ensures a == b
    decreases |a|
  {
    assert b != [] ==> b[0] in Elems(b);
    if a != [] {
      assert a[0] in Elems(b);
      assert b != [];
      assert b[0] in Elems(a);
      if a[0] != b[0] {
        var i :| 0 <= i < |a| && a[i] == b[0];
        var j :| 0 <= j < |b| && b[j] == a[0];
        assert Below(a[0], b[0]) by { assert i > 0; }
        assert Below(b[0], a[0]) by { assert j > 0; }
        BelowTransitive(a[0], b[0], a[0]);
        BelowIrreflexive(a[0]);
      }
      assert a[0] !in Elems(a[1..]) by {
        BelowIrreflexiveAll(a);
      }
      assert b[0] !in Elems(b[1..]) by {
        BelowIrreflexiveAll(b);
      }
      assert Elems(a) == {a[0]} + Elems(a[1..]);
      assert Elems(b) == {b[0]} + Elems(b[1..]);
      SortedUnique(a[1..], b[1..]);
      assert a == [a[0]] + a[1..] && b == [b[0]] + b[1..];
    }
  }

  /** The head of a strictly sorted sequence does not occur again. */
  lemma BelowIrreflexiveAll(s: seq<string>)
    requires StrictlySorted(s) && s != []
    ensures s[0] !in s[1..]
  {
    if s[0] in s[1..] {
      var k :| 0 <= k < |s[1..]| && s[1..][k] == s[0];
      assert Below(s[0], s[k + 1]);
      BelowIrreflexive(s[0]);
    }
  }
}
