/**
 * The stable sort behind Java's `List.sort` and `Collections.sort`, for a
 * comparator that orders elements by an integer key. Both library sorts are
 * stable, so their result is fixed by the comparator: elements are in key
 * order and elements with equal keys keep their input order. Insertion sort
 * is used as the reference definition of that result.
 */
module Sorting {

  ghost predicate SortedBy<T>(s: seq<T>, key: T -> int) {
    forall i, j :: 0 <= i < j < |s| ==> key(s[i]) <= key(s[j])
  }

  /** Inserts x before the first element whose key is not smaller. */
  function Insert<T(==)>(x: T, s: seq<T>, key: T -> int): (r: seq<T>)
    ensures multiset(r) == multiset(s) + multiset{x}
    ensures |r| == |s| + 1
  {
    if s == [] || key(x) <= key(s[0]) then [x] + s
    else
      assert s == [s[0]] + s[1..];
      [s[0]] + Insert(x, s[1..], key)
  }

  lemma {:induction false} InsertSorted<T>(x: T, s: seq<T>, key: T -> int)
    requires SortedBy(s, key)
    ensures SortedBy(Insert(x, s, key), key)
  {
    if s != [] && key(x) > key(s[0]) {
      var rest := Insert(x, s[1..], key);
      InsertSorted(x, s[1..], key);
      forall j | 0 <= j < |rest| ensures key(s[0]) <= key(rest[j]) {
        assert rest[j] in multiset(rest);
        assert rest[j] == x || rest[j] in multiset(s[1..]);
        if rest[j] != x {
          var m :| 0 <= m < |s[1..]| && s[1..][m] == rest[j];
          assert s[m + 1] == rest[j];
        }
      }
      assert Insert(x, s, key) == [s[0]] + rest;
    }
  }

  /** The stably sorted permutation of s. */
  function SortByKey<T(==)>(s: seq<T>, key: T -> int): (r: seq<T>)
    ensures multiset(r) == multiset(s)
    ensures |r| == |s|
    ensures SortedBy(r, key)
  {
    if s == [] then []
    else
      assert s == [s[0]] + s[1..];
      InsertSorted(s[0], SortByKey(s[1..], key), key);
      Insert(s[0], SortByKey(s[1..], key), key)
  }

  /** The elements of s whose key is k, in order. */
  function WithKey<T>(s: seq<T>, key: T -> int, k: int): seq<T> {
    if s == [] then []
    else (if key(s[0]) == k then [s[0]] else []) + WithKey(s[1..], key, k)
  }

  lemma {:induction false} WithKeyInsert<T>(x: T, s: seq<T>, key: T -> int, k: int)
    ensures WithKey(Insert(x, s, key), key, k)
         == (if key(x) == k then [x] else []) + WithKey(s, key, k)
  {
    if s == [] || key(x) <= key(s[0]) {
      assert Insert(x, s, key) == [x] + s;
      WithKeyCons(x, s, key, k);
    } else {
      WithKeyInsert(x, s[1..], key, k);
      WithKeyInsertLater(x, s, key, k);
    }
  }

  /** The step of WithKeyInsert when x goes after the head: x and the head cannot both have key k. */
  lemma WithKeyInsertLater<T>(x: T, s: seq<T>, key: T -> int, k: int)
    requires s != [] && key(x) > key(s[0])
    requires WithKey(Insert(x, s[1..], key), key, k) == (if key(x) == k then [x] else []) + WithKey(s[1..], key, k)
    ensures WithKey(Insert(x, s, key), key, k) == (if key(x) == k then [x] else []) + WithKey(s, key, k)
  {
    var rest := Insert(x, s[1..], key);
    assert Insert(x, s, key) == [s[0]] + rest;
    WithKeyCons(s[0], rest, key, k);
    assert s == [s[0]] + s[1..];
    WithKeyCons(s[0], s[1..], key, k);
    var hx := if key(x) == k then [x] else [];
    var hs := if key(s[0]) == k then [s[0]] else [];
    SwapOneEmpty(hs, hx, WithKey(s[1..], key, k));
  }

  lemma SwapOneEmpty<T>(a: seq<T>, b: seq<T>, t: seq<T>)
    requires a == [] || b == []
    ensures a + (b + t) == b + (a + t)
  {
    if a == [] {
      assert a + (b + t) == b + t;
    } else {
      assert b + (a + t) == a + t;
    }
  }

  lemma WithKeyCons<T>(y: T, t: seq<T>, key: T -> int, k: int)
    ensures WithKey([y] + t, key, k) == (if key(y) == k then [y] else []) + WithKey(t, key, k)
  {
    assert ([y] + t)[1..] == t;
  }

  /** Stability: for every key, the elements with that key keep their order. */
  lemma {:induction false} SortIsStable<T>(s: seq<T>, key: T -> int, k: int)
    ensures WithKey(SortByKey(s, key), key, k) == WithKey(s, key, k)
  {
    if s != [] {
      SortIsStable(s[1..], key, k);
      WithKeyInsert(s[0], SortByKey(s[1..], key), key, k);
    }
  }

  /** The number of elements satisfying p. */
  function CountWhere<T>(s: seq<T>, p: T -> bool): nat {
    if s == [] then 0 else (if p(s[0]) then 1 else 0) + CountWhere(s[1..], p)
  }

  lemma {:induction false} CountAppend<T>(a: seq<T>, b: seq<T>, p: T -> bool)
    ensures CountWhere(a + b, p) == CountWhere(a, p) + CountWhere(b, p)
  {
    if a != [] {
      assert (a + b)[1..] == a[1..] + b;
      CountAppend(a[1..], b, p);
    } else {
      assert a + b == b;
    }
  }

  lemma {:induction false} CountInsert<T>(x: T, s: seq<T>, key: T -> int, p: T -> bool)
    ensures CountWhere(Insert(x, s, key), p) == (if p(x) then 1 else 0) + CountWhere(s, p)
  {
    if s == [] || key(x) <= key(s[0]) {
      assert ([x] + s)[1..] == s;
    } else {
      CountInsert(x, s[1..], key, p);
      assert ([s[0]] + Insert(x, s[1..], key))[1..] == Insert(x, s[1..], key);
    }
  }

  /** Sorting does not change how many elements satisfy a predicate. */
  lemma {:induction false} CountSort<T>(s: seq<T>, key: T -> int, p: T -> bool)
    ensures CountWhere(SortByKey(s, key), p) == CountWhere(s, p)
  {
    if s != [] {
      CountSort(s[1..], key, p);
      CountInsert(s[0], SortByKey(s[1..], key), key, p);
    }
  }

  /** Two different positions satisfying p make the count at least two. */
  lemma {:induction false} CountTwo<T>(s: seq<T>, p: T -> bool, i: int, j: int)
    requires 0 <= i < j < |s| && p(s[i]) && p(s[j])
    ensures CountWhere(s, p) >= 2
  {
    if i == 0 {
      CountAtLeastOne(s[1..], p, j - 1);
    } else {
      CountTwo(s[1..], p, i - 1, j - 1);
    }
  }

  lemma {:induction false} CountAtLeastOne<T>(s: seq<T>, p: T -> bool, i: int)
    requires 0 <= i < |s| && p(s[i])
    ensures CountWhere(s, p) >= 1
  {
    if i > 0 {
      CountAtLeastOne(s[1..], p, i - 1);
    }
  }

  /**
   * Any two stable sorts agree: a sequence that is sorted, a permutation of s
   * and keeps the order of every key class is SortByKey(s, key).
   */
  lemma {:induction false} StableSortUnique<T>(s: seq<T>, r: seq<T>, key: T -> int)
    requires SortedBy(r, key)
    requires forall k :: WithKey(r, key, k) == WithKey(s, key, k)
    ensures r == SortByKey(s, key)
  {
    var q := SortByKey(s, key);
    forall k ensures WithKey(r, key, k) == WithKey(q, key, k) {
      SortIsStable(s, key, k);
    }
    SortedUniqueByClasses(r, q, key);
  }

  lemma {:induction false} SortedUniqueByClasses<T>(r: seq<T>, q: seq<T>, key: T -> int)
    requires SortedBy(r, key) && SortedBy(q, key)
    requires forall k :: WithKey(r, key, k) == WithKey(q, key, k)
    ensures r == q
    decreases |r| + |q|
  {
    WithKeyOfHead(r, key);
    WithKeyOfHead(q, key);
    if r != [] && q != [] {
      // Both heads open the smallest key class, so they are the same element.
      var kr := key(r[0]);
      WithKeyBelowHead(r, key);
      WithKeyBelowHead(q, key);
      assert kr == key(q[0]);
      assert r[0] == q[0] by {
        assert WithKey(r, key, kr) == WithKey(q, key, kr);
      }
      forall k ensures WithKey(r[1..], key, k) == WithKey(q[1..], key, k) {
        WithKeyTail(r, key, k);
        WithKeyTail(q, key, k);
        assert WithKey(r, key, k) == WithKey(q, key, k);
      }
      SortedTail(r, key);
      SortedTail(q, key);
      SortedUniqueByClasses(r[1..], q[1..], key);
      assert r == [r[0]] + r[1..] && q == [q[0]] + q[1..];
    }
  }

  lemma WithKeyOfHead<T>(s: seq<T>, key: T -> int)
    ensures s != [] ==> WithKey(s, key, key(s[0])) != [] && WithKey(s, key, key(s[0]))[0] == s[0]
  {
  }

  /** Dropping the head drops it from its own key class only. */
  lemma WithKeyTail<T>(s: seq<T>, key: T -> int, k: int)
    requires s != []
    ensures WithKey(s[1..], key, k) == if key(s[0]) == k then WithKey(s, key, k)[1..] else WithKey(s, key, k)
  {
    if key(s[0]) == k {
      assert WithKey(s, key, k) == [s[0]] + WithKey(s[1..], key, k);
    } else {
      assert WithKey(s, key, k) == [] + WithKey(s[1..], key, k);
    }
  }

  lemma SortedTail<T>(s: seq<T>, key: T -> int)
    requires SortedBy(s, key) && s != []
    ensures SortedBy(s[1..], key)
  {
    forall i, j | 0 <= i < j < |s| - 1 ensures key(s[1..][i]) <= key(s[1..][j]) {
      assert s[1..][i] == s[i + 1] && s[1..][j] == s[j + 1];
    }
  }

  /** In a sorted sequence no element has a key below the head's. */
  lemma {:induction false} WithKeyBelowHead<T>(s: seq<T>, key: T -> int)
    requires SortedBy(s, key) && s != []
    ensures forall k :: k < key(s[0]) ==> WithKey(s, key, k) == []
    decreases |s|
  {
    if |s| > 1 {
      assert SortedBy(s[1..], key);
      WithKeyBelowHead(s[1..], key);
    }
  }
  lemma {:induction false} CountNone<T>(s: seq<T>, p: T -> bool)
    requires forall i :: 0 <= i < |s| ==> !p(s[i])
    ensures CountWhere(s, p) == 0
  {
    if s != [] {
      CountNone(s[1..], p);
    }
  }

  /** When no two positions satisfy p, at most one element is counted. */
  lemma {:induction false} CountAtMostOne<T>(s: seq<T>, p: T -> bool)
    requires forall i, j :: 0 <= i < j < |s| && p(s[i]) ==> !p(s[j])
    ensures CountWhere(s, p) <= 1
  {
    if s != [] {
      if p(s[0]) {
        CountNone(s[1..], p);
      } else {
        CountAtMostOne(s[1..], p);
      }
    }
  }

  function EqualTo(v: int): int -> bool {
    (x: int) => x == v
  }

  predicate StrictlyAscending(s: seq<int>) {
    forall i, j :: 0 <= i < j < |s| ==> s[i] < s[j]
  }

  /** Sorting a list of distinct integers gives a strictly ascending list. */
  lemma SortDistinct(s: seq<int>, key: int -> int)
    requires forall i, j :: 0 <= i < j < |s| ==> s[i] != s[j]
    requires forall x :: key(x) == x
    ensures StrictlyAscending(SortByKey(s, key))
  {
    var r := SortByKey(s, key);
    forall i, j | 0 <= i < j < |r| ensures r[i] < r[j] {
      if r[i] == r[j] {
        var p := EqualTo(r[i]);
        CountAtMostOne(s, p);
        CountSort(s, key, p);
        CountTwo(r, p, i, j);
        assert false;
      }
    }
  }

  /** A strictly ascending list is fixed by its elements. */
  lemma {:induction false} StrictlyAscendingUnique(x: seq<int>, y: seq<int>)
    requires StrictlyAscending(x) && StrictlyAscending(y)
    requires forall v :: v in x <==> v in y
    ensures x == y
    decreases |x|
  {
    if x != [] {
      assert x[0] in x;
    }
    if y != [] {
      assert y[0] in y;
    }
    if x != [] && y != [] {
      assert x[0] == y[0];
      assert x == [x[0]] + x[1..] && y == [y[0]] + y[1..];
      forall v ensures v in x[1..] <==> v in y[1..] {
        if v in x[1..] {
          var i :| 0 <= i < |x[1..]| && x[1..][i] == v;
          assert x[i + 1] == v && v > x[0];
          assert v in y && v != y[0];
          assert v in [y[0]] + y[1..];
        }
        if v in y[1..] {
          var i :| 0 <= i < |y[1..]| && y[1..][i] == v;
          assert y[i + 1] == v && v > y[0];
          assert v in x && v != x[0];
          assert v in [x[0]] + x[1..];
        }
      }
      StrictlyAscendingUnique(x[1..], y[1..]);
    }
  }
}
