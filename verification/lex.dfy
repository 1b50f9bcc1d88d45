/**
 * The orderings the repository queries rely on: `ORDER BY` over several columns compares
 * rows lexicographically, column by column. A row's sort key is a sequence of integers, one
 * or more per column; this module defines the lexicographic order on such keys, filtering
 * (the `WHERE` clause) and sorting by a key.
 */
module Lex {

  /** a comes before b or equals it: at the first position where they differ a is smaller,
      or a is a prefix of b. */
  predicate Leq(a: seq<int>, b: seq<int>)
    decreases |a|
  {
    a == [] || (b != [] && (a[0] < b[0] || (a[0] == b[0] && Leq(a[1..], b[1..]))))
  }

  /** a comes strictly before b. */
  predicate Less(a: seq<int>, b: seq<int>)
  {
    !Leq(b, a)
  }

  lemma {:induction false} LeqReflexive(a: seq<int>)
    ensures Leq(a, a)
  {
    if a != [] {
      LeqReflexive(a[1..]);
    }
  }

  lemma {:induction false} LeqTotal(a: seq<int>, b: seq<int>)
    ensures Leq(a, b) || Leq(b, a)
  {
    if a != [] && b != [] && a[0] == b[0] {
      LeqTotal(a[1..], b[1..]);
    }
  }

  lemma {:induction false} LeqAntisymmetric(a: seq<int>, b: seq<int>)
    requires Leq(a, b) && Leq(b, a)
    ensures a == b
  {
    if a != [] {
      LeqAntisymmetric(a[1..], b[1..]);
      assert a == [a[0]] + a[1..] && b == [b[0]] + b[1..];
    }
  }

  lemma {:induction false} LeqTransitive(a: seq<int>, b: seq<int>, c: seq<int>)
    requires Leq(a, b) && Leq(b, c)
    ensures Leq(a, c)
  {
    if a != [] && b != [] && c != [] && a[0] == b[0] && b[0] == c[0] {
      LeqTransitive(a[1..], b[1..], c[1..]);
    }
  }

  /** Less is a strict order: irreflexive, and below-or-equal is implied by it. */
  lemma LessIsStrict(a: seq<int>, b: seq<int>)
    ensures !Less(a, a)
    ensures Less(a, b) ==> Leq(a, b) && a != b
    ensures Less(a, b) ==> !Less(b, a)
  {
    LeqReflexive(a);
    LeqTotal(a, b);
  }

  lemma LessTransitive(a: seq<int>, b: seq<int>, c: seq<int>)
    requires Less(a, b) && Less(b, c)
    ensures Less(a, c)
  {
    LessIsStrict(a, b);
    LessIsStrict(b, c);
    if Leq(c, a) {
      LeqTransitive(c, a, b);
    }
  }

  /** Keys that agree up to position i and differ there are ordered by that position. */
  lemma {:induction false} LessAtFirstDifference(a: seq<int>, b: seq<int>, i: nat)
    requires i < |a| && i < |b| && a[..i] == b[..i] && a[i] < b[i]
    ensures Less(a, b)
  {
    if i > 0 {
      assert a[0] == a[..i][0] && b[0] == b[..i][0];
      assert a[1..][..i - 1] == a[..i][1..] && b[1..][..i - 1] == b[..i][1..];
      LessAtFirstDifference(a[1..], b[1..], i - 1);
    }
  }

  /**
   * Comparing keys made of a leading part of a fixed width followed by a trailing part: the
   * leading parts decide unless they are equal.
   */
  lemma {:induction false} LeqConcat(a1: seq<int>, b1: seq<int>, a2: seq<int>, b2: seq<int>)
    requires |a1| == |a2|
    ensures Leq(a1 + b1, a2 + b2) <==> Less(a1, a2) || (a1 == a2 && Leq(b1, b2))
    decreases |a1|
  {
    if a1 == [] {
      assert a1 + b1 == b1 && a2 + b2 == b2;
      LeqReflexive(a1);
    } else {
      assert (a1 + b1)[0] == a1[0] && (a2 + b2)[0] == a2[0];
      assert (a1 + b1)[1..] == a1[1..] + b1 && (a2 + b2)[1..] == a2[1..] + b2;
      LeqConcat(a1[1..], b1, a2[1..], b2);
      if a1[0] == a2[0] && a1[1..] == a2[1..] {
        assert a1 == [a1[0]] + a1[1..] && a2 == [a2[0]] + a2[1..];
      }
      if a1 == a2 {
        LeqReflexive(a1[1..]);
      }
    }
  }

  /** Keys ordered as a whole are ordered on a leading part of fixed width. */
  lemma LeqLeading(a1: seq<int>, b1: seq<int>, a2: seq<int>, b2: seq<int>)
    requires |a1| == |a2| && Leq(a1 + b1, a2 + b2)
    ensures Leq(a1, a2)
  {
    LeqConcat(a1, b1, a2, b2);
    LessIsStrict(a1, a2);
    LeqReflexive(a1);
  }

  // ---------------------------------------------------------------------------------------------
  // Text columns

  /** `a.compareTo(b) < 0` on strings: a is a proper prefix of b, or smaller where they first differ. */
  predicate TextLess(a: string, b: string)
    decreases |a|
  {
    if a == [] then b != []
    else b != [] && (a[0] < b[0] || (a[0] == b[0] && TextLess(a[1..], b[1..])))
  }

  /**
   * A text column as a sort key for `DESC`: every character code c becomes -(c + 1) and an end
   * marker 0 follows, so a longer text sorts before any proper prefix of it.
   */
  function DescTextKey(s: string): (k: seq<int>)
    ensures |k| == |s| + 1 && k[|s|] == 0
    ensures forall i :: 0 <= i < |s| ==> k[i] == -(s[i] as int) - 1
  {
    seq(|s|, i requires 0 <= i < |s| => -(s[i] as int) - 1) + [0]
  }

  /**
   * Keys that lead with a text column in `DESC` order: the texts come out in descending order,
   * and rows with the same text are ordered by the rest of their keys.
   */
  lemma {:induction false} DescTextKeyOrder(a: string, b: string, x: seq<int>, y: seq<int>)
    requires Leq(DescTextKey(a) + x, DescTextKey(b) + y)
    ensures !TextLess(a, b)
    ensures a == b ==> Leq(x, y)
    decreases |a|
  {
    var ka, kb := DescTextKey(a) + x, DescTextKey(b) + y;
    if a == b {
      LeqConcat(DescTextKey(a), x, DescTextKey(b), y);
      LessIsStrict(DescTextKey(a), DescTextKey(a));
    }
    if a != [] && b != [] {
      assert ka[0] == -(a[0] as int) - 1 && kb[0] == -(b[0] as int) - 1;
      if a[0] == b[0] {
        assert ka[1..] == DescTextKey(a[1..]) + x;
        assert kb[1..] == DescTextKey(b[1..]) + y;
        DescTextKeyOrder(a[1..], b[1..], x, y);
      }
    } else if a == [] && b != [] {
      assert false;
    }
  }

  // ---------------------------------------------------------------------------------------------
  // WHERE and ORDER BY

  /** The rows of s that satisfy p, in their original order. */
  function Filter<T>(s: seq<T>, p: T -> bool): (r: seq<T>)
    ensures |r| <= |s|
    ensures forall k :: 0 <= k < |r| ==> p(r[k])
  {
    if s == [] then []
    else
      var rest := Filter(s[1..], p);
      if p(s[0]) then [s[0]] + rest else rest
  }

  /** Filtering keeps exactly the multiplicity of every row that satisfies the condition. */
  lemma {:induction false} FilterCount<T>(s: seq<T>, p: T -> bool, x: T)
    ensures multiset(Filter(s, p))[x] == if p(x) then multiset(s)[x] else 0
  {
    if s != [] {
      assert s == [s[0]] + s[1..];
      FilterCount(s[1..], p, x);
    }
  }

  /** Filtering a list with one more row at its end. */
  lemma {:induction false} FilterAppend<T>(s: seq<T>, x: T, p: T -> bool)
    ensures Filter(s + [x], p) == Filter(s, p) + (if p(x) then [x] else [])
  {
    if s == [] {
      assert s + [x] == [x];
    } else {
      assert (s + [x])[1..] == s[1..] + [x];
      FilterAppend(s[1..], x, p);
    }
  }

  /** Filtering on the conjunction of two conditions is filtering twice. */
  lemma {:induction false} FilterFilter<T>(s: seq<T>, p: T -> bool, q: T -> bool)
    ensures Filter(Filter(s, p), q) == Filter(s, x => p(x) && q(x))
  {
    if s != [] {
      FilterFilter(s[1..], p, q);
    }
  }

  /** Every row kept by a condition is kept by a weaker one. */
  lemma {:induction false} FilterAll<T>(s: seq<T>, p: T -> bool)
    requires forall k :: 0 <= k < |s| ==> p(s[k])
    ensures Filter(s, p) == s
  {
    if s != [] {
      assert s == [s[0]] + s[1..];
      FilterAll(s[1..], p);
    }
  }

  /** The rows are in ascending order of their keys. */
  predicate SortedBy<T>(s: seq<T>, key: T -> seq<int>)
  {
    forall i, j :: 0 <= i < j < |s| ==> Leq(key(s[i]), key(s[j]))
  }

  /** The key of y is at or below the key of every row of s. */
  predicate Below<T>(y: T, s: seq<T>, key: T -> seq<int>)
  {
    forall k :: 0 <= k < |s| ==> Leq(key(y), key(s[k]))
  }

  lemma SortedCons<T>(y: T, s: seq<T>, key: T -> seq<int>)
    requires SortedBy(s, key) && Below(y, s, key)
    ensures SortedBy([y] + s, key)
  {
    var r := [y] + s;
    forall i, j | 0 <= i < j < |r| ensures Leq(key(r[i]), key(r[j])) {
      assert r[j] == s[j - 1];
      if i > 0 {
        assert r[i] == s[i - 1];
      }
    }
  }

  lemma BelowSorted<T>(y: T, s: seq<T>, key: T -> seq<int>)
    requires SortedBy(s, key) && s != [] && Leq(key(y), key(s[0]))
    ensures Below(y, s, key)
  {
    forall k | 0 < k < |s| ensures Leq(key(y), key(s[k])) {
      LeqTransitive(key(y), key(s[0]), key(s[k]));
    }
  }

  lemma BelowPermutation<T>(y: T, s: seq<T>, t: seq<T>, key: T -> seq<int>)
    requires Below(y, s, key) && multiset(t) <= multiset(s)
    ensures Below(y, t, key)
  {
    forall k | 0 <= k < |t| ensures Leq(key(y), key(t[k])) {
      assert t[k] in multiset(s);
      var i :| 0 <= i < |s| && s[i] == t[k];
    }
  }

  /** Inserting x into a sorted list before the first row whose key is above x's. */
  function Insert<T>(x: T, s: seq<T>, key: T -> seq<int>): (r: seq<T>)
    requires SortedBy(s, key)
    ensures SortedBy(r, key)
    ensures multiset(r) == multiset(s) + multiset{x}
  {
    if s == [] then [x]
    else if Leq(key(x), key(s[0])) then
      BelowSorted(x, s, key);
      SortedCons(x, s, key);
      [x] + s
    else
      assert s == [s[0]] + s[1..];
      assert SortedBy(s[1..], key) by {
        forall i, j | 0 <= i < j < |s| - 1 ensures Leq(key(s[1..][i]), key(s[1..][j])) {
          assert s[1..][i] == s[i + 1] && s[1..][j] == s[j + 1];
        }
      }
      var rest := Insert(x, s[1..], key);
      assert Below(s[0], rest, key) by {
        LeqTotal(key(x), key(s[0]));
        LeqReflexive(key(s[0]));
        BelowSorted(s[0], s, key);
        assert Below(s[0], s[1..] + [x], key);
        assert multiset(s[1..] + [x]) == multiset(rest);
        BelowPermutation(s[0], s[1..] + [x], rest, key);
      }
      SortedCons(s[0], rest, key);
      [s[0]] + rest
  }

  /** `ORDER BY key`: the rows of s rearranged into ascending order of their keys. */
  function SortBy<T>(s: seq<T>, key: T -> seq<int>): (r: seq<T>)
    ensures SortedBy(r, key)
    ensures multiset(r) == multiset(s)
  {
    if s == [] then []
    else
      assert s == [s[0]] + s[1..];
      Insert(s[0], SortBy(s[1..], key), key)
  }

  /** A query result `SELECT … WHERE p ORDER BY key`. */
  function Query<T(!new)>(s: seq<T>, p: T -> bool, key: T -> seq<int>): (r: seq<T>)
    ensures SortedBy(r, key)
    ensures forall k :: 0 <= k < |r| ==> p(r[k])
    ensures forall x :: multiset(r)[x] == if p(x) then multiset(s)[x] else 0
  {
    var f := Filter(s, p);
    var r := SortBy(f, key);
    assert forall k :: 0 <= k < |r| ==> p(r[k]) by {
      forall k | 0 <= k < |r| ensures p(r[k]) {
        assert r[k] in multiset(f);
        var j :| 0 <= j < |f| && f[j] == r[k];
      }
    }
    assert forall x :: multiset(r)[x] == if p(x) then multiset(s)[x] else 0 by {
      forall x ensures multiset(r)[x] == if p(x) then multiset(s)[x] else 0 {
        FilterCount(s, p, x);
      }
    }
    r
  }
}
