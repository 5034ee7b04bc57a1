/** Python's ordering of strings and of tuples of strings, and the two
    table operations built on it: a stable sort by key columns
    (`sort_values` / `sorted`) and `drop_duplicates`, which keeps the first
    copy of every row. */
module Order {

  /** `a < b` on Python strings: lexicographic by code point. */
  predicate StrLt(a: string, b: string)
    decreases |a|
  {
    if a == [] then b != []
    else if b == [] then false
    else if a[0] != b[0] then a[0] < b[0]
    else StrLt(a[1..], b[1..])
  }

  lemma {:induction false} StrLtIrreflexive(a: string)
    ensures !StrLt(a, a)
    decreases |a|
  {
    if a != [] { StrLtIrreflexive(a[1..]); }
  }

  lemma {:induction false} StrLtTransitive(a: string, b: string, c: string)
    requires StrLt(a, b) && StrLt(b, c)
    ensures StrLt(a, c)
    decreases |a|
  {
    if a != [] && b != [] && c != [] && a[0] == b[0] == c[0] {
      StrLtTransitive(a[1..], b[1..], c[1..]);
    }
  }

  lemma {:induction false} StrLtTotal(a: string, b: string)
    ensures a == b || StrLt(a, b) || StrLt(b, a)
    decreases |a|
  {
    if a != [] && b != [] && a[0] == b[0] {
      StrLtTotal(a[1..], b[1..]);
      if a[1..] == b[1..] {
        assert a == [a[0]] + a[1..] && b == [b[0]] + b[1..];
      }
    }
  }

  /** `a < b` on Python tuples of strings: lexicographic, a proper prefix first. */
  predicate TupLt(a: seq<string>, b: seq<string>)
    decreases |a|
  {
    if a == [] then b != []
    else if b == [] then false
    else if a[0] != b[0] then StrLt(a[0], b[0])
    else TupLt(a[1..], b[1..])
  }

  /** `a <= b` on tuples. */
  predicate TupLe(a: seq<string>, b: seq<string>) {
    a == b || TupLt(a, b)
  }

  lemma {:induction false} TupLtIrreflexive(a: seq<string>)
    ensures !TupLt(a, a)
    decreases |a|
  {
    if a != [] { TupLtIrreflexive(a[1..]); }
  }

  lemma {:induction false} TupLtTransitive(a: seq<string>, b: seq<string>, c: seq<string>)
    requires TupLt(a, b) && TupLt(b, c)
    ensures TupLt(a, c)
    decreases |a|
  {
    if a != [] && b != [] && c != [] {
      if a[0] == b[0] && b[0] == c[0] {
        TupLtTransitive(a[1..], b[1..], c[1..]);
      } else if a[0] != b[0] && b[0] != c[0] {
        StrLtTransitive(a[0], b[0], c[0]);
        if a[0] == c[0] { StrLtIrreflexive(a[0]); StrLtTransitive(a[0], b[0], a[0]); }
      }
    }
  }

  lemma {:induction false} TupLtTotal(a: seq<string>, b: seq<string>)
    ensures a == b || TupLt(a, b) || TupLt(b, a)
    decreases |a|
  {
    if a != [] && b != [] {
      if a[0] == b[0] {
        TupLtTotal(a[1..], b[1..]);
        if a[1..] == b[1..] {
          assert a == [a[0]] + a[1..] && b == [b[0]] + b[1..];
        }
      } else {
        StrLtTotal(a[0], b[0]);
      }
    }
  }

  lemma TupLtAsymmetric(a: seq<string>, b: seq<string>)
    requires TupLt(a, b)
    ensures !TupLt(b, a) && a != b
  {
    TupLtIrreflexive(a);
    if TupLt(b, a) { TupLtTransitive(a, b, a); }
  }

  lemma TupLeTransitive(a: seq<string>, b: seq<string>, c: seq<string>)
    requires TupLe(a, b) && TupLe(b, c)
    ensures TupLe(a, c)
  {
    if a != b && b != c { TupLtTransitive(a, b, c); }
  }

  /** Every row's key is at most every later row's key. */
  predicate SortedBy<T>(s: seq<T>, key: T -> seq<string>) {
    forall i, j :: 0 <= i < j < |s| ==> TupLe(key(s[i]), key(s[j]))
  }

  /** Keys strictly increase, so in particular no two rows share a key. */
  predicate StrictlySortedBy<T>(s: seq<T>, key: T -> seq<string>) {
    forall i, j :: 0 <= i < j < |s| ==> TupLt(key(s[i]), key(s[j]))
  }

  predicate Distinct<T(==,!new)>(s: seq<T>) {
    forall i, j :: 0 <= i < j < |s| ==> s[i] != s[j]
  }

  /** Insert `x` after every row whose key is not larger than its own. */
  function InsertBy<T>(x: T, s: seq<T>, key: T -> seq<string>): (r: seq<T>)
    requires SortedBy(s, key)
    ensures SortedBy(r, key)
    ensures multiset(r) == multiset(s) + multiset{x}
  {
    if s == [] then [x]
    else if TupLt(key(x), key(s[0])) then
      forall j | 0 < j < |s| ensures TupLe(key(x), key(s[j])) {
        TupLeTransitive(key(x), key(s[0]), key(s[j]));
      }
      [x] + s
    else
      var t := InsertBy(x, s[1..], key);
      TupLtTotal(key(x), key(s[0]));
      assert multiset(s) == multiset{s[0]} + multiset(s[1..]) by { assert s == [s[0]] + s[1..]; }
      forall j | 0 <= j < |t| ensures TupLe(key(s[0]), key(t[j])) {
        assert t[j] in multiset(t);
        assert t[j] == x || t[j] in multiset(s[1..]);
        if t[j] != x {
          var k :| 0 <= k < |s[1..]| && s[1..][k] == t[j];
          assert s[k + 1] == t[j];
        }
      }
      [s[0]] + t
  }

  /** A stable sort by `key`, as `sort_values(columns)` and `sorted` perform it. */
  function SortBy<T>(s: seq<T>, key: T -> seq<string>): (r: seq<T>)
    ensures SortedBy(r, key)
    ensures multiset(r) == multiset(s)
  {
    if s == [] then []
    else
      assert s == s[..|s| - 1] + [s[|s| - 1]];
      InsertBy(s[|s| - 1], SortBy(s[..|s| - 1], key), key)
  }

  /** `drop_duplicates()`: the first copy of every row, in order. */
  function DropDuplicates<T(==,!new)>(s: seq<T>): (r: seq<T>)
    ensures Distinct(r)
    ensures forall x :: x in r <==> x in s
    ensures |r| <= |s|
  {
    if s == [] then []
    else
      var p := DropDuplicates(s[..|s| - 1]);
      var last := s[|s| - 1];
      assert forall x :: x in s <==> x in s[..|s| - 1] || x == last by {
        assert s == s[..|s| - 1] + [last];
      }
      if last in s[..|s| - 1] then p else p + [last]
  }

  /** Dropping duplicates keeps the survivors in their original order,
      so a sorted table stays sorted. */
  lemma {:induction false} DropDuplicatesKeepsSorted<T(!new)>(s: seq<T>, key: T -> seq<string>)
    requires SortedBy(s, key)
    ensures SortedBy(DropDuplicates(s), key)
  {
    if s != [] {
      var pre := s[..|s| - 1];
      var last := s[|s| - 1];
      assert SortedBy(pre, key);
      DropDuplicatesKeepsSorted(pre, key);
      var p := DropDuplicates(pre);
      if last !in pre {
        forall i | 0 <= i < |p| ensures TupLe(key(p[i]), key(last)) {
          assert p[i] in pre;
          var k :| 0 <= k < |pre| && pre[k] == p[i];
          assert s[k] == p[i];
        }
      }
    }
  }

  lemma DistinctAppend<T(!new)>(s: seq<T>, x: T)
    requires Distinct(s) && x !in s
    ensures Distinct(s + [x])
  {
    forall i, j | 0 <= i < j < |s + [x]| ensures (s + [x])[i] != (s + [x])[j] {
      if j == |s| {
        assert (s + [x])[i] == s[i];
      }
    }
  }

  /** Sorting by a key that tells rows apart, then dropping duplicates,
      leaves the rows in strictly increasing order. */
  lemma SortedDistinctIsStrict<T(!new)>(s: seq<T>, key: T -> seq<string>)
    requires SortedBy(s, key) && Distinct(s)
    requires forall x, y :: key(x) == key(y) ==> x == y
    ensures StrictlySortedBy(s, key)
  {
  }

  /** Two strictly sorted tables holding the same rows are the same table:
      the output of sort-then-dedup depends only on the set of input rows. */
  lemma {:induction false} StrictlySortedUnique<T(!new)>(a: seq<T>, b: seq<T>, key: T -> seq<string>)
    requires StrictlySortedBy(a, key) && StrictlySortedBy(b, key)
    requires forall x :: x in a <==> x in b
    ensures a == b
  {
    SameElementsBothEmpty(a, b);
    if a != [] {
      if a[0] != b[0] {
        assert b[0] in a && a[0] in b;
        var i :| 0 <= i < |a| && a[i] == b[0];
        var j :| 0 <= j < |b| && b[j] == a[0];
        TupLtAsymmetric(key(a[0]), key(a[i]));
        assert false;
      }
      forall x ensures x in a[1..] <==> x in b[1..] {
        if x in a[1..] {
          var i :| 1 <= i < |a| && a[i] == x;
          TupLtAsymmetric(key(a[0]), key(a[i]));
          assert x in b;
          var j :| 0 <= j < |b| && b[j] == x;
          assert j != 0;
        }
        if x in b[1..] {
          var j :| 1 <= j < |b| && b[j] == x;
          TupLtAsymmetric(key(b[0]), key(b[j]));
          assert x in a;
          var i :| 0 <= i < |a| && a[i] == x;
          assert i != 0;
        }
      }
      StrictlySortedUnique(a[1..], b[1..], key);
      assert a == [a[0]] + a[1..] && b == [b[0]] + b[1..];
    }
  }

  lemma SameElementsBothEmpty<T>(a: seq<T>, b: seq<T>)
    requires forall x :: x in a <==> x in b
    ensures a == [] <==> b == []
  {
    if a != [] { assert a[0] in b; }
    if b != [] { assert b[0] in a; }
  }

  /** Sort by every column, then drop duplicates: the distinct rows in
      strictly increasing order. */
  function SortedUnique<T(==,!new)>(s: seq<T>, key: T -> seq<string>): (r: seq<T>)
    requires forall x, y :: key(x) == key(y) ==> x == y
    ensures StrictlySortedBy(r, key)
    ensures forall x :: x in r <==> x in s
  {
    var sorted := SortBy(s, key);
    assert forall x :: x in sorted <==> x in s by {
      assert forall x :: x in sorted <==> x in multiset(sorted);
    }
    DropDuplicatesKeepsSorted(sorted, key);
    SortedDistinctIsStrict(DropDuplicates(sorted), key);
    DropDuplicates(sorted)
  }

  lemma {:induction false} DistinctMultiplicity<T(!new)>(s: seq<T>)
    ensures Distinct(s) <==> forall x :: multiset(s)[x] <= 1
  {
    if s != [] {
      var t := s[1..];
      DistinctMultiplicity(t);
      assert s == [s[0]] + t;
      assert multiset(s) == multiset{s[0]} + multiset(t);
      if Distinct(s) {
        forall j | 0 <= j < |t| ensures t[j] != s[0] { assert t[j] == s[j + 1]; }
        assert Distinct(t) by {
          forall i, j | 0 <= i < j < |t| ensures t[i] != t[j] { assert s[i + 1] != s[j + 1]; }
        }
      }
      if forall x :: multiset(s)[x] <= 1 {
        assert forall x :: multiset(t)[x] <= 1 by {
          forall x ensures multiset(t)[x] <= 1 { assert multiset(s)[x] >= multiset(t)[x]; }
        }
        assert multiset(s)[s[0]] == 1 + multiset(t)[s[0]];
        forall i, j | 0 <= i < j < |s| ensures s[i] != s[j] {
          if i == 0 { assert s[j] == t[j - 1]; assert s[j] in multiset(t); }
          else { assert s[i] == t[i - 1] && s[j] == t[j - 1]; }
        }
      }
    }
  }

  /** `drop_duplicates()` followed by a sort on a key that tells rows
      apart: every distinct element once, in strictly increasing order. */
  function DedupThenSort<T(==,!new)>(s: seq<T>, key: T -> seq<string>): (r: seq<T>)
    requires forall x, y :: key(x) == key(y) ==> x == y
    ensures StrictlySortedBy(r, key)
    ensures forall x :: x in r <==> x in s
  {
    var d := DropDuplicates(s);
    var t := SortBy(d, key);
    DistinctMultiplicity(d);
    DistinctMultiplicity(t);
    assert forall x :: x in t <==> x in multiset(d);
    SortedDistinctIsStrict(t, key);
    t
  }
}
