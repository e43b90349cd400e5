/**
 * A stable sort by key, the ordering every repository accessor and the
 * controller's medal-count re-sort rely on. Elements are ordered by the key
 * they project to; elements whose keys are equal keep their input order.
 */
module Sorting {

  /** `le` is total and transitive: a total preorder on keys. */
  ghost predicate TotalPreorder<K(!new)>(le: (K, K) -> bool)
  {
    (forall a, b :: le(a, b) || le(b, a)) &&
    (forall a, b, c :: le(a, b) && le(b, c) ==> le(a, c))
  }

  /** Keys that are each at most the other are equal. */
  ghost predicate Antisymmetric<K(!new)>(le: (K, K) -> bool)
  {
    forall a, b :: le(a, b) && le(b, a) ==> a == b
  }

  /** The order itself when ascending, the flipped order when descending. */
  function Direction<K>(le: (K, K) -> bool, ascending: bool): (K, K) -> bool
  {
    if ascending then le else (a, b) => le(b, a)
  }

  lemma DirectionPreorder<K(!new)>(le: (K, K) -> bool, ascending: bool)
    requires TotalPreorder(le)
    ensures TotalPreorder(Direction(le, ascending))
  {
  }

  /** Every earlier element's key is at most every later element's key. */
  ghost predicate Sorted<T, K>(s: seq<T>, key: T -> K, le: (K, K) -> bool)
  {
    forall i, j :: 0 <= i < j < |s| ==> le(key(s[i]), key(s[j]))
  }

  /** The subsequence of `s` whose elements have key `k`, in order. */
  function KeyFilter<T, K(==)>(s: seq<T>, key: T -> K, k: K): seq<T>
  {
    if s == [] then []
    else (if key(s[0]) == k then [s[0]] else []) + KeyFilter(s[1..], key, k)
  }

  /** Among elements with equal primary keys, the secondary keys ascend under `le2`. */
  ghost predicate TiesOrdered<T, K, K2>(s: seq<T>, key: T -> K, key2: T -> K2, le2: (K2, K2) -> bool)
  {
    forall i, j :: 0 <= i < j < |s| && key(s[i]) == key(s[j]) ==> le2(key2(s[i]), key2(s[j]))
  }

  /** Places `x` just before the first element whose key is not below `x`'s. */
  function Insert<T, K>(x: T, s: seq<T>, key: T -> K, le: (K, K) -> bool): seq<T>
  {
    if s == [] then [x]
    else if le(key(x), key(s[0])) then [x] + s
    else [s[0]] + Insert(x, s[1..], key, le)
  }

  lemma {:induction false} InsertPermutes<T, K>(x: T, s: seq<T>, key: T -> K, le: (K, K) -> bool)
    ensures multiset(Insert(x, s, key, le)) == multiset(s) + multiset{x}
  {
    if s != [] && !le(key(x), key(s[0])) {
      var rest := Insert(x, s[1..], key, le);
      InsertPermutes(x, s[1..], key, le);
      assert Insert(x, s, key, le) == [s[0]] + rest;
      assert multiset([s[0]] + rest) == multiset{s[0]} + multiset(rest);
      assert s == [s[0]] + s[1..];
      assert multiset(s) == multiset{s[0]} + multiset(s[1..]);
    }
  }

  /** Insertion sort: the first element goes in front of every later one with an equal key. */
  function SortBy<T, K>(s: seq<T>, key: T -> K, le: (K, K) -> bool): (r: seq<T>)
    ensures multiset(r) == multiset(s)
    ensures |r| == |s|
  {
    if s == [] then []
    else
      var rest := SortBy(s[1..], key, le);
      InsertPermutes(s[0], rest, key, le);
      assert s == [s[0]] + s[1..];
      Insert(s[0], rest, key, le)
  }

  /** A sorted sequence stays sorted when an element no greater than all of it goes in front. */
  lemma SortedCons<T, K>(x: T, s: seq<T>, key: T -> K, le: (K, K) -> bool)
    requires Sorted(s, key, le)
    requires forall j :: 0 <= j < |s| ==> le(key(x), key(s[j]))
    ensures Sorted([x] + s, key, le)
  {
    var r := [x] + s;
    forall i, j | 0 <= i < j < |r| ensures le(key(r[i]), key(r[j])) {
      assert r[j] == s[j - 1];
      if i > 0 {
        assert r[i] == s[i - 1];
      }
    }
  }

  lemma {:induction false} InsertSorted<T, K(!new)>(x: T, s: seq<T>, key: T -> K, le: (K, K) -> bool)
    requires TotalPreorder(le)
    requires Sorted(s, key, le)
    ensures Sorted(Insert(x, s, key, le), key, le)
  {
    if s == [] {
    } else if le(key(x), key(s[0])) {
      forall j | 0 <= j < |s| ensures le(key(x), key(s[j])) {
        if j > 0 {
          assert le(key(s[0]), key(s[j]));
        }
      }
      SortedCons(x, s, key, le);
    } else {
      var rest := Insert(x, s[1..], key, le);
      InsertSorted(x, s[1..], key, le);
      InsertPermutes(x, s[1..], key, le);
      forall j | 0 <= j < |rest| ensures le(key(s[0]), key(rest[j])) {
        assert rest[j] in multiset(rest);
        if rest[j] != x {
          assert rest[j] in multiset(s[1..]);
          var m :| 0 <= m < |s[1..]| && s[1..][m] == rest[j];
          assert s[m + 1] == rest[j];
        }
      }
      SortedCons(s[0], rest, key, le);
    }
  }

  /** The result of SortBy is ordered by key. */
  lemma {:induction false} SortBySorted<T, K(!new)>(s: seq<T>, key: T -> K, le: (K, K) -> bool)
    requires TotalPreorder(le)
    ensures Sorted(SortBy(s, key, le), key, le)
  {
    if s != [] {
      SortBySorted(s[1..], key, le);
      InsertSorted(s[0], SortBy(s[1..], key, le), key, le);
    }
  }

  lemma {:induction false} KeyFilterCons<T, K>(x: T, s: seq<T>, key: T -> K, k: K)
    ensures KeyFilter([x] + s, key, k) == (if key(x) == k then [x] else []) + KeyFilter(s, key, k)
  {
    assert ([x] + s)[0] == x;
    assert ([x] + s)[1..] == s;
  }

  lemma {:induction false} InsertKeyFilter<T, K>(x: T, s: seq<T>, key: T -> K, le: (K, K) -> bool, k: K)
    requires le(key(x), key(x))
    ensures KeyFilter(Insert(x, s, key, le), key, k)
         == (if key(x) == k then [x] else []) + KeyFilter(s, key, k)
  {
    if s == [] || le(key(x), key(s[0])) {
      KeyFilterCons(x, s, key, k);
    } else {
      // s[0]'s key differs from x's, since x's key is not below it
      InsertKeyFilter(x, s[1..], key, le, k);
      KeyFilterCons(s[0], Insert(x, s[1..], key, le), key, k);
    }
  }

  /** Stability: for every key, the elements with that key appear in input order. */
  lemma {:induction false} SortByStable<T, K(!new)>(s: seq<T>, key: T -> K, le: (K, K) -> bool, k: K)
    requires TotalPreorder(le)
    ensures KeyFilter(SortBy(s, key, le), key, k) == KeyFilter(s, key, k)
  {
    if s != [] {
      SortByStable(s[1..], key, le, k);
      assert le(key(s[0]), key(s[0]));
      InsertKeyFilter(s[0], SortBy(s[1..], key, le), key, le, k);
    }
  }

  /** Ties stay ordered when an element that precedes all its ties goes in front. */
  lemma TiesCons<T, K, K2>(x: T, s: seq<T>, key: T -> K, key2: T -> K2, le2: (K2, K2) -> bool)
    requires TiesOrdered(s, key, key2, le2)
    requires forall y :: y in s && key(y) == key(x) ==> le2(key2(x), key2(y))
    ensures TiesOrdered([x] + s, key, key2, le2)
  {
    var r := [x] + s;
    forall i, j | 0 <= i < j < |r| && key(r[i]) == key(r[j]) ensures le2(key2(r[i]), key2(r[j])) {
      assert r[j] == s[j - 1];
      if i > 0 {
        assert r[i] == s[i - 1];
      }
    }
  }

  lemma {:induction false} InsertTies<T, K, K2>(x: T, s: seq<T>, key: T -> K, le: (K, K) -> bool,
                                                key2: T -> K2, le2: (K2, K2) -> bool)
    requires le(key(x), key(x))
    requires TiesOrdered(s, key, key2, le2)
    requires forall y :: y in s && key(y) == key(x) ==> le2(key2(x), key2(y))
    ensures TiesOrdered(Insert(x, s, key, le), key, key2, le2)
  {
    if s == [] {
    } else if le(key(x), key(s[0])) {
      TiesCons(x, s, key, key2, le2);
    } else {
      var rest := Insert(x, s[1..], key, le);
      InsertTies(x, s[1..], key, le, key2, le2);
      InsertPermutes(x, s[1..], key, le);
      forall y | y in rest && key(y) == key(s[0]) ensures le2(key2(s[0]), key2(y)) {
        assert y in multiset(rest);
        assert y != x;
        assert y in multiset(s[1..]);
        var m :| 0 <= m < |s[1..]| && s[1..][m] == y;
        assert s[m + 1] == y;
      }
      TiesCons(s[0], rest, key, key2, le2);
    }
  }

  /**
   * Stability seen from a second order: if the input is already ordered by
   * `key2`, elements that tie on `key` come out ordered by `key2`.
   */
  lemma {:induction false} SortByKeepsSecondaryOrder<T, K(!new), K2>(s: seq<T>, key: T -> K, le: (K, K) -> bool,
                                                                       key2: T -> K2, le2: (K2, K2) -> bool)
    requires TotalPreorder(le)
    requires Sorted(s, key2, le2)
    ensures TiesOrdered(SortBy(s, key, le), key, key2, le2)
  {
    if s != [] {
      var rest := SortBy(s[1..], key, le);
      SortByKeepsSecondaryOrder(s[1..], key, le, key2, le2);
      forall y | y in rest && key(y) == key(s[0]) ensures le2(key2(s[0]), key2(y)) {
        assert y in multiset(s[1..]);
        var m :| 0 <= m < |s[1..]| && s[1..][m] == y;
        assert s[m + 1] == y;
      }
      assert le(key(s[0]), key(s[0]));
      InsertTies(s[0], rest, key, le, key2, le2);
    }
  }

  /** The elements of `s` in the opposite order. */
  function Reverse<T>(s: seq<T>): seq<T>
  {
    seq(|s|, i requires 0 <= i < |s| => s[|s| - 1 - i])
  }

  lemma {:induction false} ReversePermutes<T>(s: seq<T>)
    ensures multiset(Reverse(s)) == multiset(s)
  {
    if s != [] {
      ReversePermutes(s[1..]);
      assert Reverse(s) == Reverse(s[1..]) + [s[0]];
      assert s == [s[0]] + s[1..];
    }
  }

  lemma MultisetTail<T>(a: seq<T>, b: seq<T>)
    requires a != [] && b != [] && a[0] == b[0]
    requires multiset(a) == multiset(b)
    ensures multiset(a[1..]) == multiset(b[1..])
  {
    assert a == [a[0]] + a[1..] && b == [b[0]] + b[1..];
    assert multiset(a[1..]) == multiset(a) - multiset{a[0]};
    assert multiset(b[1..]) == multiset(b) - multiset{b[0]};
  }

  lemma SortedHeadsEqual<T(!new), K(!new)>(a: seq<T>, b: seq<T>, key: T -> K, le: (K, K) -> bool)
    requires a != [] && multiset(a) == multiset(b)
    requires Sorted(a, key, le) && Sorted(b, key, le)
    requires Antisymmetric(le)
    requires forall x, y :: x in a && y in a && key(x) == key(y) ==> x == y
    ensures b != [] && a[0] == b[0]
  {
    assert a[0] in multiset(b);
    var m :| 0 <= m < |b| && b[m] == a[0];
    assert b[0] in multiset(a);
    var n :| 0 <= n < |a| && a[n] == b[0];
  }

  /**
   * Two sorted arrangements of the same elements are equal when the order
   * on keys is antisymmetric and no two different elements share a key.
   */
  lemma {:induction false} SortedUnique<T(!new), K(!new)>(a: seq<T>, b: seq<T>, key: T -> K, le: (K, K) -> bool)
    requires multiset(a) == multiset(b)
    requires Sorted(a, key, le) && Sorted(b, key, le)
    requires Antisymmetric(le)
    requires forall x, y :: x in a && y in a && key(x) == key(y) ==> x == y
    ensures a == b
  {
    if a == [] {
      assert |b| == |multiset(b)| == 0;
    } else {
      SortedHeadsEqual(a, b, key, le);
      MultisetTail(a, b);
      SortedUnique(a[1..], b[1..], key, le);
      assert a == [a[0]] + a[1..] && b == [b[0]] + b[1..];
    }
  }

  /** Reversing a sequence sorted by `le` gives one sorted by the flipped order. */
  lemma ReverseSorted<T, K>(s: seq<T>, key: T -> K, le: (K, K) -> bool)
    requires Sorted(s, key, le)
    ensures Sorted(Reverse(s), key, Direction(le, false))
  {
    var r := Reverse(s);
    forall i, j | 0 <= i < j < |r| ensures Direction(le, false)(key(r[i]), key(r[j])) {
      assert r[i] == s[|s| - 1 - i] && r[j] == s[|s| - 1 - j];
    }
  }
}
