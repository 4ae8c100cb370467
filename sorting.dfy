/** The stable sort of `Array.prototype.sort` with a numeric comparator `(a, b) => key(a) - key(b)`:
    ascending by key, elements with equal keys keeping their input order. */
module Sorting {
  import opened Seqs

  /** `s` is in ascending order of `key`. */
  predicate SortedBy<T>(s: seq<T>, key: T -> int)
  {
    forall i, j :: 0 <= i < j < |s| ==> key(s[i]) <= key(s[j])
  }

  /** The elements of `s` whose key is `k`, in their order in `s`. */
  function KeyRun<T>(s: seq<T>, key: T -> int, k: int): seq<T>
  {
    if s == [] then [] else (if key(s[0]) == k then [s[0]] else []) + KeyRun(s[1..], key, k)
  }

  /** Any two elements with equal keys appear in `s` in an order allowed by `before`. */
  predicate TiesOrdered<T>(s: seq<T>, key: T -> int, before: (T, T) -> bool)
  {
    forall i, j :: 0 <= i < j < |s| && key(s[i]) == key(s[j]) ==> before(s[i], s[j])
  }

  /** Puts `x` into the sorted `s` after every element whose key is not above its own. */
  function Insert<T>(x: T, s: seq<T>, key: T -> int): (r: seq<T>)
    ensures multiset(r) == multiset(s) + multiset{x}
    ensures |r| == |s| + 1
  {
    if s == [] then [x]
    else if key(x) < key(s[0]) then [x] + s
    else
      assert s == [s[0]] + s[1..];
      [s[0]] + Insert(x, s[1..], key)
  }

  /** Insertion sort of `s` by `key`, inserting the elements in input order. */
  function SortBy<T>(s: seq<T>, key: T -> int): (r: seq<T>)
    ensures multiset(r) == multiset(s)
    ensures |r| == |s|
  {
    if s == [] then []
    else
      assert s == s[..|s| - 1] + [s[|s| - 1]];
      Insert(s[|s| - 1], SortBy(s[..|s| - 1], key), key)
  }

  /** The elements of `Insert(x, s, key)` are `x` and those of `s`. */
  lemma InsertElements<T>(x: T, s: seq<T>, key: T -> int, y: T)
    ensures y in Insert(x, s, key) <==> y == x || y in s
  {
    assert y in Insert(x, s, key) <==> y in multiset(Insert(x, s, key));
  }

  /** The tail of a sorted sequence is sorted, and no element is below the head. */
  lemma SortedTail<T>(s: seq<T>, key: T -> int)
    requires s != [] && SortedBy(s, key)
    ensures SortedBy(s[1..], key)
    ensures forall y :: y in s ==> key(s[0]) <= key(y)
  {
    forall y | y in s ensures key(s[0]) <= key(y) {
      var m :| 0 <= m < |s| && s[m] == y;
      if m > 0 {
        assert key(s[0]) <= key(s[m]);
      }
    }
  }

  lemma {:induction false} InsertSorted<T>(x: T, s: seq<T>, key: T -> int)
    requires SortedBy(s, key)
    ensures SortedBy(Insert(x, s, key), key)
  {
    if s != [] && key(x) >= key(s[0]) {
      var t := Insert(x, s[1..], key);
      SortedTail(s, key);
      InsertSorted(x, s[1..], key);
      forall j | 0 <= j < |t| ensures key(s[0]) <= key(t[j]) {
        assert t[j] in t;
        InsertElements(x, s[1..], key, t[j]);
      }
      var r := [s[0]] + t;
      forall i, j | 0 <= i < j < |r| ensures key(r[i]) <= key(r[j]) {
        assert r[j] == t[j - 1];
        if i > 0 {
          assert r[i] == t[i - 1];
        }
      }
    } else if s != [] {
      SortedTail(s, key);
      var r := [x] + s;
      forall i, j | 0 <= i < j < |r| ensures key(r[i]) <= key(r[j]) {
        assert r[j] == s[j - 1] && r[j] in s;
        if i > 0 {
          assert r[i] == s[i - 1];
        }
      }
    }
  }

  /** The result is in ascending key order. */
  lemma {:induction false} SortBySorted<T>(s: seq<T>, key: T -> int)
    ensures SortedBy(SortBy(s, key), key)
  {
    if s != [] {
      SortBySorted(s[..|s| - 1], key);
      InsertSorted(s[|s| - 1], SortBy(s[..|s| - 1], key), key);
    }
  }

  lemma {:induction false} KeyRunAppend<T>(a: seq<T>, b: seq<T>, key: T -> int, k: int)
    ensures KeyRun(a + b, key, k) == KeyRun(a, key, k) + KeyRun(b, key, k)
  {
    if a == [] {
      assert a + b == b;
    } else {
      var ab := a + b;
      assert ab != [] && ab[0] == a[0] && ab[1..] == a[1..] + b;
      var head := if key(a[0]) == k then [a[0]] else [];
      assert KeyRun(ab, key, k) == head + KeyRun(a[1..] + b, key, k);
      KeyRunAppend(a[1..], b, key, k);
      assert KeyRun(a, key, k) == head + KeyRun(a[1..], key, k);
    }
  }

  lemma {:induction false} KeyRunAbove<T>(s: seq<T>, key: T -> int, k: int)
    requires forall i :: 0 <= i < |s| ==> key(s[i]) > k
    ensures KeyRun(s, key, k) == []
  {
    if s != [] {
      KeyRunAbove(s[1..], key, k);
    }
  }

  lemma {:induction false} InsertKeyRun<T>(x: T, s: seq<T>, key: T -> int, k: int)
    requires SortedBy(s, key)
    ensures KeyRun(Insert(x, s, key), key, k) == KeyRun(s, key, k) + (if key(x) == k then [x] else [])
  {
    if s == [] {
    } else if key(x) < key(s[0]) {
      assert ([x] + s)[1..] == s;
      if key(x) == k {
        SortedTail(s, key);
        forall i | 0 <= i < |s| ensures key(s[i]) > k {
          assert s[i] in s;
        }
        KeyRunAbove(s, key, k);
      }
    } else {
      var t := Insert(x, s[1..], key);
      SortedTail(s, key);
      InsertKeyRun(x, s[1..], key, k);
      assert ([s[0]] + t)[0] == s[0] && ([s[0]] + t)[1..] == t;
      var head := if key(s[0]) == k then [s[0]] else [];
      calc {
        KeyRun(Insert(x, s, key), key, k);
        head + KeyRun(t, key, k);
        head + (KeyRun(s[1..], key, k) + (if key(x) == k then [x] else []));
        (head + KeyRun(s[1..], key, k)) + (if key(x) == k then [x] else []);
      }
    }
  }

  /** Stability: for every key, the elements carrying it come out in their input order. */
  lemma {:induction false} SortByStable<T>(s: seq<T>, key: T -> int, k: int)
    ensures KeyRun(SortBy(s, key), key, k) == KeyRun(s, key, k)
  {
    if s != [] {
      var init, last := s[..|s| - 1], s[|s| - 1];
      var tail := if key(last) == k then [last] else [];
      calc {
        KeyRun(SortBy(s, key), key, k);
        KeyRun(Insert(last, SortBy(init, key), key), key, k);
        { SortBySorted(init, key); InsertKeyRun(last, SortBy(init, key), key, k); }
        KeyRun(SortBy(init, key), key, k) + tail;
        { SortByStable(init, key, k); }
        KeyRun(init, key, k) + tail;
        { assert KeyRun([last], key, k) == tail; KeyRunAppend(init, [last], key, k); }
        KeyRun(init + [last], key, k);
        { assert s == init + [last]; }
        KeyRun(s, key, k);
      }
    }
  }

  /** Putting `y` in front keeps the ties ordered when `y` may come before each of its ties. */
  lemma TiesCons<T>(y: T, t: seq<T>, key: T -> int, before: (T, T) -> bool)
    requires TiesOrdered(t, key, before)
    requires forall z :: z in t && key(z) == key(y) ==> before(y, z)
    ensures TiesOrdered([y] + t, key, before)
  {
    var r := [y] + t;
    forall i, j | 0 <= i < j < |r| && key(r[i]) == key(r[j]) ensures before(r[i], r[j]) {
      assert r[j] == t[j - 1];
      if i > 0 {
        assert r[i] == t[i - 1];
      }
    }
  }

  lemma {:induction false} InsertTies<T>(x: T, s: seq<T>, key: T -> int, before: (T, T) -> bool)
    requires SortedBy(s, key) && TiesOrdered(s, key, before)
    requires forall y :: y in s && key(y) == key(x) ==> before(y, x)
    ensures TiesOrdered(Insert(x, s, key), key, before)
  {
    if s == [] {
    } else if key(x) < key(s[0]) {
      SortedTail(s, key);
      TiesCons(x, s, key, before);
    } else {
      var t := Insert(x, s[1..], key);
      assert TiesOrdered(s[1..], key, before) && SortedBy(s[1..], key);
      InsertTies(x, s[1..], key, before);
      forall z | z in t && key(z) == key(s[0]) ensures before(s[0], z) {
        InsertElements(x, s[1..], key, z);
        if z != x {
          var m :| 0 <= m < |s| - 1 && s[1..][m] == z;
          assert s[m + 1] == z;
        }
      }
      TiesCons(s[0], t, key, before);
    }
  }

  /** Elements with equal keys keep the relative order they had in the input: if every tie
      of `s` is ordered by `before`, so is every tie of the sorted result. */
  lemma {:induction false} SortByTies<T>(s: seq<T>, key: T -> int, before: (T, T) -> bool)
    requires TiesOrdered(s, key, before)
    ensures TiesOrdered(SortBy(s, key), key, before)
  {
    if s != [] {
      var init, last := s[..|s| - 1], s[|s| - 1];
      assert TiesOrdered(init, key, before);
      SortByTies(init, key, before);
      SortBySorted(init, key);
      var sorted := SortBy(init, key);
      forall y | y in sorted && key(y) == key(last) ensures before(y, last) {
        assert y in multiset(sorted);
        var m :| 0 <= m < |init| && init[m] == y;
        assert s[m] == y;
      }
      InsertTies(last, sorted, key, before);
    }
  }

  /** A permutation of a sequence without repetitions has none either. */
  lemma {:induction false} PermutationDistinct<T>(a: seq<T>, b: seq<T>)
    requires multiset(a) == multiset(b) && Distinct(a)
    ensures Distinct(b)
  {
    forall i, j | 0 <= i < j < |b| ensures b[i] != b[j] {
      if b[i] == b[j] {
        var x := b[i];
        assert b == b[..i] + [x] + b[i + 1..j] + [x] + b[j + 1..];
        assert multiset(b)[x] >= 2;
        DistinctCount(a, x);
        assert false;
      }
    }
  }

  lemma {:induction false} DistinctCount<T>(s: seq<T>, x: T)
    requires Distinct(s)
    ensures multiset(s)[x] <= 1
  {
    if s != [] {
      assert s == [s[0]] + s[1..];
      assert Distinct(s[1..]);
      DistinctCount(s[1..], x);
      if s[0] == x {
        assert x !in s[1..];
      }
    }
  }
}
