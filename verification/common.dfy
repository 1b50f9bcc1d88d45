/**
 * Shared value types of the group-buying backend: optional values, the outcome of an
 * operation that may throw, Java's 32-bit `Integer`, entity identifiers, and the
 * `java.lang.String` and `java.util.List` operations the entities are built from.
 */
module Common {

  // ---------------------------------------------------------------------------------------------
  // Optional values and outcomes

  /** A nullable Java reference. */
  datatype Option<+T> = None | Some(value: T)

  /** The outcome of a Java `void` method that may throw. */
  datatype Outcome<+E> = Pass | Fail(error: E)

  /** The outcome of a Java method that returns a value or throws. */
  datatype Result<+T, +E> = Success(value: T) | Failure(error: E)

  /** The unchecked exceptions the modelled code throws; `Runtime` is a bare `RuntimeException`. */
  datatype Exception = IllegalState | IllegalArgument | NullPointer | Runtime

  /** Identifiers (`Long id` columns) of the entities that other entities refer to. */
  type ClientId = nat
  type SupplierId = nat
  type PoolId = nat
  type OrderId = nat

  /** `UUID.toString()`: always 36 characters. */
  type UuidText = s: string | |s| == 36 witness "00000000-0000-0000-0000-000000000000"

  function Min(a: int, b: int): (m: int)
    ensures m <= a && m <= b && (m == a || m == b)
  {
    if a <= b then a else b
  }

  function Max(a: int, b: int): (m: int)
    ensures m >= a && m >= b && (m == a || m == b)
  {
    if a >= b then a else b
  }

  // ---------------------------------------------------------------------------------------------
  // java.lang.Integer: 32-bit two's complement

  const INT_MIN: int := -0x8000_0000
  const INT_MAX: int := 0x7fff_ffff
  const LONG_MAX: int := 0x7fff_ffff_ffff_ffff

  newtype Int32 = x: int | -0x8000_0000 <= x < 0x8000_0000

  /** `x + 1` on a Java `int`: the result is the one 32-bit value congruent to x + 1. */
  function Increment(x: Int32): (r: Int32)
    ensures (r as int - (x as int + 1)) % 0x1_0000_0000 == 0
  {
    if x as int == INT_MAX then INT_MIN as Int32 else x + 1
  }

  /** `x - 1` on a Java `int`. */
  function Decrement(x: Int32): (r: Int32)
    ensures (r as int - (x as int - 1)) % 0x1_0000_0000 == 0
  {
    if x as int == INT_MIN then INT_MAX as Int32 else x - 1
  }

  /** `(count == null ? 0 : count) + 1` on a Java `Integer` counter. */
  function CountAfterIncrement(count: Option<Int32>): (r: Int32)
    ensures count.None? ==> r == 1
    ensures count.Some? && count.value as int < INT_MAX ==> r as int == count.value as int + 1
    ensures count.Some? && count.value as int == INT_MAX ==> r as int == INT_MIN
  {
    Increment(if count.None? then 0 else count.value)
  }

  // ---------------------------------------------------------------------------------------------
  // java.lang.String

  /** `String.trim` strips every leading and trailing character whose code is at most U+0020. */
  predicate Trimmable(c: char) { c <= ' ' }

  function TrimStart(s: string): (r: string)
    ensures |r| <= |s| && r == s[|s| - |r|..]
    ensures forall k :: 0 <= k < |s| - |r| ==> Trimmable(s[k])
    ensures r == [] || !Trimmable(r[0])
  {
    if s != [] && Trimmable(s[0]) then TrimStart(s[1..]) else s
  }

  function TrimEnd(s: string): (r: string)
    ensures |r| <= |s| && r == s[..|r|]
    ensures forall k :: |r| <= k < |s| ==> Trimmable(s[k])
    ensures r == [] || !Trimmable(r[|r| - 1])
  {
    if s != [] && Trimmable(s[|s| - 1]) then TrimEnd(s[..|s| - 1]) else s
  }

  /** `String.trim`. */
  function Trim(s: string): string
  {
    TrimEnd(TrimStart(s))
  }

  /** `s.trim().isEmpty()`. */
  predicate IsBlank(s: string)
  {
    Trim(s) == ""
  }

  /** A string is blank exactly when every one of its characters is trimmable. */
  lemma BlankIffAllTrimmable(s: string)
    ensures IsBlank(s) <==> forall k :: 0 <= k < |s| ==> Trimmable(s[k])
  {
  }

  /** A trimmed string has nothing left to trim. */
  lemma TrimIdempotent(s: string)
    ensures Trim(Trim(s)) == Trim(s)
  {
    var t := Trim(s);
    var u := TrimStart(s);
    if t != [] {
      assert t[0] == u[0];
    }
  }

  function LowerChar(ch: char): char
  {
    if 'A' <= ch <= 'Z' then (ch as int + 32) as char else ch
  }

  function UpperChar(ch: char): char
  {
    if 'a' <= ch <= 'z' then (ch as int - 32) as char else ch
  }

  /** The letter case a list normalises its entries to. */
  datatype Case = Lower | Upper

  function CaseChar(ch: char, c: Case): char
  {
    if c == Lower then LowerChar(ch) else UpperChar(ch)
  }

  /** `String.toLowerCase` or `String.toUpperCase`, on the ASCII letters. */
  function ToCase(s: string, c: Case): (r: string)
    ensures |r| == |s| && forall k :: 0 <= k < |s| ==> r[k] == CaseChar(s[k], c)
  {
    seq(|s|, k requires 0 <= k < |s| => CaseChar(s[k], c))
  }

  /** `String.toLowerCase` on the ASCII letters. */
  function ToLower(s: string): string
  {
    ToCase(s, Lower)
  }

  /** `String.toUpperCase` on the ASCII letters. */
  function ToUpper(s: string): string
  {
    ToCase(s, Upper)
  }

  /** Changing case twice to the same case changes nothing more. */
  lemma ToCaseIdempotent(s: string, c: Case)
    ensures ToCase(ToCase(s, c), c) == ToCase(s, c)
  {
  }

  /** Case mapping leaves the trimmable characters alone, so it commutes with `trim`. */
  lemma {:induction false} TrimToCase(s: string, c: Case)
    ensures Trim(ToCase(s, c)) == ToCase(Trim(s), c)
  {
    TrimStartToCase(s, c);
    TrimEndToCase(TrimStart(s), c);
  }

  lemma {:induction false} TrimStartToCase(s: string, c: Case)
    ensures TrimStart(ToCase(s, c)) == ToCase(TrimStart(s), c)
  {
    if s != [] {
      var t := ToCase(s, c);
      assert t[0] == CaseChar(s[0], c);
      if Trimmable(s[0]) {
        assert t[1..] == ToCase(s[1..], c);
        assert Trimmable(t[0]) && TrimStart(t) == TrimStart(t[1..]);
        TrimStartToCase(s[1..], c);
      } else {
        assert TrimStart(t) == t;
      }
    }
  }

  lemma {:induction false} TrimEndToCase(s: string, c: Case)
    ensures TrimEnd(ToCase(s, c)) == ToCase(TrimEnd(s), c)
  {
    if s != [] {
      var t := ToCase(s, c);
      assert t[|s| - 1] == CaseChar(s[|s| - 1], c);
      if Trimmable(s[|s| - 1]) {
        assert t[..|s| - 1] == ToCase(s[..|s| - 1], c);
        assert TrimEnd(t) == TrimEnd(t[..|s| - 1]);
        TrimEndToCase(s[..|s| - 1], c);
      } else {
        assert TrimEnd(t) == t;
      }
    }
  }

  /** `String.startsWith`. */
  predicate StartsWith(s: string, prefix: string)
  {
    |prefix| <= |s| && s[..|prefix|] == prefix
  }

  /** `String.endsWith`. */
  predicate EndsWith(s: string, suffix: string)
  {
    |suffix| <= |s| && s[|s| - |suffix|..] == suffix
  }

  /** Lower-casing keeps a suffix a suffix. */
  lemma ToLowerSuffix(s: string, t: string)
    requires EndsWith(s, t)
    ensures EndsWith(ToLower(s), ToLower(t))
  {
    assert ToLower(s)[|s| - |t|..] == ToLower(s[|s| - |t|..]);
  }

  lemma EndsWithTransitive(s: string, t: string, u: string)
    requires EndsWith(s, t) && EndsWith(t, u)
    ensures EndsWith(s, u)
  {
    assert s[|s| - |u|..] == s[|s| - |t|..][|t| - |u|..];
  }

  /** `String.contains`, scanning from the left. */
  predicate Contains(s: string, part: string)
    decreases |s|
  {
    StartsWith(s, part) || (s != [] && Contains(s[1..], part))
  }

  /** The part occurs in s starting at index i. */
  predicate OccursAt(s: string, part: string, i: int)
  {
    0 <= i <= |s| - |part| && s[i..i + |part|] == part
  }

  /** `String.contains` means the part occurs at some position. */
  lemma {:induction false} ContainsIffOccurs(s: string, part: string)
    ensures Contains(s, part) <==> exists i :: OccursAt(s, part, i)
  {
    if StartsWith(s, part) {
      assert OccursAt(s, part, 0);
    } else if s == [] {
    } else {
      ContainsIffOccurs(s[1..], part);
      if exists i :: OccursAt(s, part, i) {
        var i :| OccursAt(s, part, i);
        assert i != 0;
        assert s[1..][i - 1..i - 1 + |part|] == part;
        assert OccursAt(s[1..], part, i - 1);
      }
      if Contains(s[1..], part) {
        var i :| OccursAt(s[1..], part, i);
        assert s[i + 1..i + 1 + |part|] == part;
        assert OccursAt(s, part, i + 1);
      }
    }
  }

  /**
   * `String.replace(target, replacement)` with a literal target: every occurrence of the
   * target, found left to right without overlap, is replaced.
   */
  function Replace(s: string, target: string, replacement: string): string
    requires target != []
    decreases |s|
  {
    if |s| < |target| then s
    else if StartsWith(s, target) then replacement + Replace(s[|target|..], target, replacement)
    else [s[0]] + Replace(s[1..], target, replacement)
  }

  /** A string in which the target does not occur comes back from `replace` unchanged. */
  lemma {:induction false} ReplaceAbsent(s: string, target: string, replacement: string)
    requires target != [] && !Contains(s, target)
    ensures Replace(s, target, replacement) == s
  {
    if |s| >= |target| {
      ReplaceAbsent(s[1..], target, replacement);
      assert [s[0]] + s[1..] == s;
    }
  }

  /** A string that starts with the target has that occurrence replaced first. */
  lemma ReplaceLeading(p: string, s: string, target: string, replacement: string)
    requires target != [] && StartsWith(p, target)
    ensures Replace(p + s, target, replacement)
         == replacement + Replace(p[|target|..] + s, target, replacement)
  {
    assert (p + s)[..|target|] == p[..|target|];
    assert (p + s)[|target|..] == p[|target|..] + s;
  }

  /**
   * Replacing across a separator character that the target does not contain is the same as
   * replacing on each side of it: no occurrence can straddle the separator.
   */
  lemma {:induction false} ReplaceAcrossSeparator(a: string, sep: char, b: string, target: string, replacement: string)
    requires target != [] && sep !in target
    ensures Replace(a + [sep] + b, target, replacement)
         == Replace(a, target, replacement) + [sep] + Replace(b, target, replacement)
    decreases |a|
  {
    var s := a + [sep] + b;
    if |s| < |target| {
      if |a| >= |target| {
        assert false;
      }
      NoMatchInShort(a, target, replacement);
      NoMatchInShort(b, target, replacement);
    } else if StartsWith(s, target) {
      NoMatchAcrossSeparator(a, sep, b, target);
      assert a[..|target|] == target;
      assert s[|target|..] == a[|target|..] + [sep] + b;
      ReplaceAcrossSeparator(a[|target|..], sep, b, target, replacement);
    } else if a == [] {
      assert s[1..] == b;
      assert s[0] == sep;
    } else {
      assert s[1..] == a[1..] + [sep] + b;
      if |a| >= |target| {
        assert a[..|target|] == s[..|target|];
      }
      ReplaceAcrossSeparator(a[1..], sep, b, target, replacement);
      ReplaceStep(a, target, replacement);
    }
  }

  /** Where the target does not start, `replace` keeps the first character and moves on. */
  lemma ReplaceStep(a: string, target: string, replacement: string)
    requires target != [] && a != [] && !StartsWith(a, target)
    ensures Replace(a, target, replacement) == [a[0]] + Replace(a[1..], target, replacement)
  {
    if |a| < |target| {
      NoMatchInShort(a, target, replacement);
      NoMatchInShort(a[1..], target, replacement);
      assert [a[0]] + a[1..] == a;
    }
  }

  /** An occurrence of the target at the start cannot reach the separator. */
  lemma NoMatchAcrossSeparator(a: string, sep: char, b: string, target: string)
    requires sep !in target && StartsWith(a + [sep] + b, target)
    ensures |a| >= |target|
  {
    var s := a + [sep] + b;
    assert s[|a|] == sep;
    assert forall i :: 0 <= i < |target| ==> target[i] == s[i];
  }

  lemma NoMatchInShort(s: string, target: string, replacement: string)
    requires target != [] && |s| < |target|
    ensures Replace(s, target, replacement) == s
  {
  }

  function IsAsciiAlphanumeric(c: char): bool
  {
    ('a' <= c <= 'z') || ('A' <= c <= 'Z') || ('0' <= c <= '9')
  }

  /** `replaceAll("[^a-zA-Z0-9]", "_")`. */
  function ReplaceNonAlphanumeric(s: string): (r: string)
    ensures |r| == |s|
    ensures forall k :: 0 <= k < |s| ==> r[k] == (if IsAsciiAlphanumeric(s[k]) then s[k] else '_')
  {
    seq(|s|, k requires 0 <= k < |s| => if IsAsciiAlphanumeric(s[k]) then s[k] else '_')
  }

  /** `replaceAll("[^a-zA-Z0-9._-]", "_")`. */
  function ReplaceUnsafeFileNameChars(s: string): (r: string)
    ensures |r| == |s|
    ensures forall k :: 0 <= k < |s| ==>
      r[k] == (if IsAsciiAlphanumeric(s[k]) || s[k] in "._-" then s[k] else '_')
  {
    seq(|s|, k requires 0 <= k < |s| => if IsAsciiAlphanumeric(s[k]) || s[k] in "._-" then s[k] else '_')
  }

  /** `String.valueOf(long)`: decimal digits, with a leading minus sign when negative. */
  function DecimalString(n: int): (r: string)
    ensures r != []
    ensures n >= 0 ==> forall k :: 0 <= k < |r| ==> '0' <= r[k] <= '9'
    decreases if n < 0 then -n + 1 else n
  {
    if n < 0 then "-" + DecimalString(-n)
    else if n < 10 then [('0' as int + n) as char]
    else DecimalString(n / 10) + [('0' as int + n % 10) as char]
  }

  /** Java's string conversion of a nullable reference: `"null"` when it is absent. */
  function TextOrNull(s: Option<string>): string
  {
    if s.Some? then s.value else "null"
  }

  // ---------------------------------------------------------------------------------------------
  // java.util.List

  /** `List.remove(Object)`: removes the first element equal to x, if there is one. */
  function RemoveFirst<T(==)>(xs: seq<T>, x: T): (r: seq<T>)
    ensures multiset(r) == multiset(xs) - multiset{x}
    ensures x !in xs ==> r == xs
  {
    if xs == [] then []
    else if xs[0] == x then
      assert xs == [x] + xs[1..];
      xs[1..]
    else
      assert xs == [xs[0]] + xs[1..];
      assert x in xs <==> x in xs[1..];
      var rest := RemoveFirst(xs[1..], x);
      assert multiset([xs[0]] + rest) == multiset{xs[0]} + multiset(rest);
      [xs[0]] + rest
  }

  /**
   * `List.remove(Object)` removes the first copy of x and keeps the other elements in their
   * order: at the first index i holding x, the result is xs without its element i.
   */
  lemma {:induction false} RemoveFirstAt<T>(xs: seq<T>, x: T, i: int)
    requires 0 <= i < |xs| && xs[i] == x && x !in xs[..i]
    ensures RemoveFirst(xs, x) == xs[..i] + xs[i + 1..]
  {
    if i > 0 {
      assert xs[0] in xs[..i];
      assert xs[1..][..i - 1] == xs[1..i];
      RemoveFirstAt(xs[1..], x, i - 1);
      assert xs[..i] == [xs[0]] + xs[1..i];
      assert xs[1..][i..] == xs[i + 1..];
    }
  }

  /** No element occurs twice. */
  predicate Distinct<T(==)>(xs: seq<T>)
  {
    forall i, j :: 0 <= i < j < |xs| ==> xs[i] != xs[j]
  }

  /** Appending x unless the list already contains it (the `if (!list.contains(x)) list.add(x)` idiom). */
  function AddDistinct<T(==)>(xs: seq<T>, x: T): (r: seq<T>)
    ensures x in r && (forall k :: 0 <= k < |xs| ==> xs[k] in r)
    ensures forall k :: 0 <= k < |r| ==> r[k] in xs || r[k] == x
    ensures Distinct(xs) ==> Distinct(r)
  {
    if x in xs then xs else xs + [x]
  }

  /** Removing the element just appended to a list that did not contain it restores the list. */
  lemma {:induction false} RemoveAfterAdd<T>(xs: seq<T>, x: T)
    requires x !in xs
    ensures RemoveFirst(AddDistinct(xs, x), x) == xs
  {
    if xs != [] {
      assert (xs + [x])[1..] == xs[1..] + [x];
      RemoveAfterAdd(xs[1..], x);
    }
  }

  /** In a list without duplicates, removing x removes every occurrence of it. */
  lemma RemoveFromDistinct<T>(xs: seq<T>, x: T)
    requires Distinct(xs)
    ensures x !in RemoveFirst(xs, x) && Distinct(RemoveFirst(xs, x))
  {
    var r := RemoveFirst(xs, x);
    assert multiset(xs)[x] <= 1 by { DistinctCount(xs, x); }
    assert x !in multiset(r);
    assert Distinct(r) by {
      forall y ensures multiset(r)[y] <= 1 {
        DistinctCount(xs, y);
      }
      CountedOnce(r);
    }
  }

  lemma {:induction false} DistinctCount<T>(xs: seq<T>, x: T)
    requires Distinct(xs)
    ensures multiset(xs)[x] <= 1
  {
    if xs != [] {
      assert xs == [xs[0]] + xs[1..];
      assert Distinct(xs[1..]);
      DistinctCount(xs[1..], x);
      if xs[0] == x {
        assert x !in xs[1..];
      }
    }
  }

  lemma {:induction false} CountedOnce<T>(xs: seq<T>)
    requires forall y :: multiset(xs)[y] <= 1
    ensures Distinct(xs)
  {
    if xs != [] {
      assert xs == [xs[0]] + xs[1..];
      forall y ensures multiset(xs[1..])[y] <= 1 {
        assert multiset(xs)[y] == multiset([xs[0]])[y] + multiset(xs[1..])[y];
      }
      CountedOnce(xs[1..]);
      assert xs[0] !in xs[1..] by {
        assert multiset(xs)[xs[0]] == 1 + multiset(xs[1..])[xs[0]];
      }
      forall i, j | 0 <= i < j < |xs| ensures xs[i] != xs[j] {
        if i > 0 {
          assert xs[i] == xs[1..][i - 1] && xs[j] == xs[1..][j - 1];
        } else {
          assert xs[j] in xs[1..];
        }
      }
    }
  }

  // ---------------------------------------------------------------------------------------------
  // The string-list idioms of the entities

  /** `if (s != null && !s.trim().isEmpty()) list.add(s.trim())`. */
  function AddTrimmed(xs: seq<string>, s: Option<string>): (r: seq<string>)
    ensures s.None? || IsBlank(s.value) ==> r == xs
    ensures s.Some? && !IsBlank(s.value) ==> r == xs + [Trim(s.value)] && Trim(s.value) != ""
  {
    if s.None? || IsBlank(s.value) then xs else xs + [Trim(s.value)]
  }

  /** The entry a normalised list stores for s: `s.trim()` in lower or upper case. */
  function Normalized(s: string, c: Case): string
  {
    ToCase(Trim(s), c)
  }

  /** The normalised form of a string is blank exactly when the string itself is. */
  lemma NormalizedBlank(s: string, c: Case)
    ensures Normalized(s, c) == "" <==> IsBlank(s)
  {
  }

  /**
   * `if (s != null && !s.trim().isEmpty()) { n = normalise(s); if (!list.contains(n)) list.add(n); }`:
   * tags, colours and sizes.
   */
  function AddNormalized(xs: seq<string>, s: Option<string>, c: Case): (r: seq<string>)
    ensures s.None? || IsBlank(s.value) ==> r == xs
    ensures s.Some? && !IsBlank(s.value) ==> r == AddDistinct(xs, Normalized(s.value, c))
  {
    if s.None? || IsBlank(s.value) then xs else AddDistinct(xs, Normalized(s.value, c))
  }

  /** `if (s != null) list.remove(normalise-case(s))`: the removal does not trim. */
  function RemoveNormalized(xs: seq<string>, s: Option<string>, c: Case): (r: seq<string>)
    ensures s.None? ==> r == xs
    ensures s.Some? ==> r == RemoveFirst(xs, ToCase(s.value, c))
  {
    if s.None? then xs else RemoveFirst(xs, ToCase(s.value, c))
  }

  /** Adding the same entry twice leaves the list as one add does. */
  lemma AddNormalizedIdempotent(xs: seq<string>, s: Option<string>, c: Case)
    ensures AddNormalized(AddNormalized(xs, s, c), s, c) == AddNormalized(xs, s, c)
  {
  }

  /** A normalised list never holds an entry twice. */
  lemma AddNormalizedDistinct(xs: seq<string>, s: Option<string>, c: Case)
    requires Distinct(xs)
    ensures Distinct(AddNormalized(xs, s, c))
  {
  }

  /** Every entry of a list kept by AddNormalized is trimmed, in its case, and not empty. */
  predicate NormalizedList(xs: seq<string>, c: Case)
  {
    Distinct(xs) && forall k :: 0 <= k < |xs| ==> xs[k] != "" && Normalized(xs[k], c) == xs[k]
  }

  /** The normalised-list invariant survives every add. */
  lemma {:induction false} AddNormalizedKeepsInvariant(xs: seq<string>, s: Option<string>, c: Case)
    requires NormalizedList(xs, c)
    ensures NormalizedList(AddNormalized(xs, s, c), c)
  {
    if s.Some? && !IsBlank(s.value) {
      var n := Normalized(s.value, c);
      assert n != "" by {
        NormalizedBlank(s.value, c);
      }
      assert Normalized(n, c) == n by {
        TrimIdempotent(s.value);
        TrimToCase(Trim(s.value), c);
        ToCaseIdempotent(Trim(s.value), c);
      }
      var r := AddDistinct(xs, n);
      forall k | 0 <= k < |r| ensures r[k] != "" && Normalized(r[k], c) == r[k] {
        if r[k] != n {
          var j :| 0 <= j < |xs| && xs[j] == r[k];
        }
      }
    }
  }

  /** The normalised-list invariant survives every remove. */
  lemma {:induction false} RemoveNormalizedKeepsInvariant(xs: seq<string>, s: Option<string>, c: Case)
    requires NormalizedList(xs, c)
    ensures NormalizedList(RemoveNormalized(xs, s, c), c)
  {
    if s.Some? {
      var r := RemoveNormalized(xs, s, c);
      RemoveFromDistinct(xs, ToCase(s.value, c));
      forall k | 0 <= k < |r| ensures r[k] != "" && Normalized(r[k], c) == r[k] {
        assert r[k] in multiset(r);
        var j :| 0 <= j < |xs| && xs[j] == r[k];
      }
    }
  }

  /**
   * Removing an entry in its stored form undoes the add that stored it: for a list kept by
   * AddNormalized, `add(s)` followed by `remove(s.trim())` restores the list when s was new.
   */
  lemma AddThenRemoveNormalized(xs: seq<string>, s: string, c: Case)
    requires NormalizedList(xs, c) && !IsBlank(s) && Normalized(s, c) !in xs
    ensures RemoveNormalized(AddNormalized(xs, Some(s), c), Some(Trim(s)), c) == xs
  {
    RemoveAfterAdd(xs, Normalized(s, c));
  }
}
