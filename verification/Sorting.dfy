/** Stable sorting by an integer key: what `Array.prototype.sort` promises. */
module Sorting {

  /** Inserts `x` after every element whose key is not greater. */
  function InsertBy<T>(x: T, s: seq<T>, key: T -> int): seq<T> {
    if s == [] then [x]
    else if key(x) < key(s[0]) then [x] + s
    else [s[0]] + InsertBy(x, s[1..], key)
  }

  function SortBy<T>(s: seq<T>, key: T -> int): (r: seq<T>) {
    if s == [] then [] else InsertBy(s[|s| - 1], SortBy(s[..|s| - 1], key), key)
  }

  predicate SortedBy<T>(s: seq<T>, key: T -> int) {
    forall i, j :: 0 <= i < j < |s| ==> key(s[i]) <= key(s[j])
  }

  lemma {:induction false} InsertCounts<T>(x: T, s: seq<T>, key: T -> int)
    ensures multiset(InsertBy(x, s, key)) == multiset(s) + multiset{x}
    decreases s
  {
    if s != [] {
      assert s == [s[0]] + s[1..];
      if key(x) >= key(s[0]) { InsertCounts(x, s[1..], key); }
    }
  }

  lemma SortedFirst<T>(first: T, rest: seq<T>, key: T -> int)
    requires SortedBy(rest, key) && forall y :: y in multiset(rest) ==> key(first) <= key(y)
    ensures SortedBy([first] + rest, key)
  {
    forall k | 0 <= k < |rest| ensures key(first) <= key(rest[k]) {
      assert rest[k] in multiset(rest);
    }
  }

  lemma FirstIsLeast<T>(s: seq<T>, key: T -> int)
    requires s != [] && SortedBy(s, key)
    ensures SortedBy(s[1..], key) && forall y :: y in multiset(s) ==> key(s[0]) <= key(y)
  {
    forall y | y in multiset(s) ensures key(s[0]) <= key(y) {
      var k :| 0 <= k < |s| && s[k] == y;
      assert k > 0 ==> key(s[0]) <= key(s[k]);
    }
  }

  lemma {:induction false} InsertKeeps<T>(x: T, s: seq<T>, key: T -> int)
    requires SortedBy(s, key)
    ensures SortedBy(InsertBy(x, s, key), key)
    ensures multiset(InsertBy(x, s, key)) == multiset(s) + multiset{x}
    decreases s
  {
    InsertCounts(x, s, key);
    if s != [] {
      FirstIsLeast(s, key);
      assert s == [s[0]] + s[1..];
      if key(x) < key(s[0]) {
        SortedFirst(x, s, key);
      } else {
        InsertKeeps(x, s[1..], key);
        SortedFirst(s[0], InsertBy(x, s[1..], key), key);
      }
    }
  }

  /** Sorting orders the elements and keeps each of them. */
  lemma {:induction false} SortKeeps<T>(s: seq<T>, key: T -> int)
    ensures SortedBy(SortBy(s, key), key)
    ensures multiset(SortBy(s, key)) == multiset(s)
    decreases s
  {
    if s != [] {
      var n := |s| - 1;
      SortKeeps(s[..n], key);
      InsertKeeps(s[n], SortBy(s[..n], key), key);
      assert s == s[..n] + [s[n]];
    }
  }

  function Filter<T>(s: seq<T>, p: T -> bool): (r: seq<T>)
    ensures |r| <= |s|
  {
    if s == [] then [] else (if p(s[0]) then [s[0]] else []) + Filter(s[1..], p)
  }

  lemma {:induction false} FilterMember<T>(s: seq<T>, p: T -> bool, x: T)
    ensures x in Filter(s, p) <==> x in s && p(x)
    decreases s
  {
    if s != [] {
      FilterMember(s[1..], p, x);
      assert s == [s[0]] + s[1..];
    }
  }

  lemma {:induction false} FilterConcat<T>(a: seq<T>, b: seq<T>, p: T -> bool)
    ensures Filter(a + b, p) == Filter(a, p) + Filter(b, p)
    decreases a
  {
    if a == [] {
      assert a + b == b;
    } else {
      var first := if p(a[0]) then [a[0]] else [];
      assert (a + b)[0] == a[0] && (a + b)[1..] == a[1..] + b;
      FilterConcat(a[1..], b, p);
      assert first + (Filter(a[1..], p) + Filter(b, p)) == first + Filter(a[1..], p) + Filter(b, p);
    }
  }

  lemma {:induction false} InsertCount<T>(x: T, s: seq<T>, key: T -> int, p: T -> bool)
    ensures |Filter(InsertBy(x, s, key), p)| == |Filter(s, p)| + (if p(x) then 1 else 0)
    decreases s
  {
    if s == [] || key(x) < key(s[0]) {
      assert InsertBy(x, s, key) == [x] + s;
      assert ([x] + s)[1..] == s;
    } else {
      InsertCount(x, s[1..], key, p);
      assert InsertBy(x, s, key)[1..] == InsertBy(x, s[1..], key);
    }
  }

  /** Sorting changes how many elements have a property by nothing. */
  lemma {:induction false} SortCount<T>(s: seq<T>, key: T -> int, p: T -> bool)
    ensures |Filter(SortBy(s, key), p)| == |Filter(s, p)|
    decreases s
  {
    if s != [] {
      var n := |s| - 1;
      SortCount(s[..n], key, p);
      InsertCount(s[n], SortBy(s[..n], key), key, p);
      FilterConcat(s[..n], [s[n]], p);
      assert s == s[..n] + [s[n]];
      assert [s[n]][1..] == [];
    }
  }

  lemma {:induction false} FilterSorted<T>(s: seq<T>, key: T -> int, p: T -> bool)
    requires SortedBy(s, key)
    ensures SortedBy(Filter(s, p), key)
    ensures multiset(Filter(s, p)) <= multiset(s)
    decreases s
  {
    if s != [] {
      FilterSorted(s[1..], key, p);
      assert s == [s[0]] + s[1..];
      forall y | y in Filter(s[1..], p) ensures key(s[0]) <= key(y) {
        FilterMember(s[1..], p, y);
        var k :| 0 <= k < |s[1..]| && s[1..][k] == y;
        assert s[k + 1] == y;
      }
    }
  }
}
