/**
 * `Array.prototype.sort` with a consistent comparator whose result depends
 * only on a numeric key, ordering by DESCENDING key. The sort is stable, so
 * the outcome is fully determined: it is written here as an insertion sort,
 * and `SortedStableUnique` shows that every other stable descending
 * arrangement of the same elements is the same sequence.
 */
module StableSort {
  import opened FirstWins

  /** Keys never increase from left to right. */
  predicate SortedDesc<T>(s: seq<T>, key: T -> real) {
    forall i, j :: 0 <= i < j < |s| ==> key(s[i]) >= key(s[j])
  }

  /** The elements of `s` whose key is `k`, in their order in `s`. */
  function WithKey<T>(s: seq<T>, key: T -> real, k: real): seq<T>
    decreases |s|
  {
    if s == [] then [] else (if key(s[0]) == k then [s[0]] else []) + WithKey(s[1..], key, k)
  }

  /** Puts `x` before the first element whose key is not greater than its own. */
  function Insert<T>(x: T, s: seq<T>, key: T -> real): (r: seq<T>)
    ensures multiset(r) == multiset(s) + multiset{x}
    decreases |s|
  {
    if s == [] || key(x) >= key(s[0]) then [x] + s
    else
      assert s == [s[0]] + s[1..];
      [s[0]] + Insert(x, s[1..], key)
  }

  lemma {:induction false} InsertKeepsSorted<T>(x: T, s: seq<T>, key: T -> real)
    requires SortedDesc(s, key)
    ensures SortedDesc(Insert(x, s, key), key)
    decreases |s|
  {
    if s != [] && key(x) < key(s[0]) {
      var rest := Insert(x, s[1..], key);
      var r := [s[0]] + rest;
      InsertKeepsSorted(x, s[1..], key);
      assert s == [s[0]] + s[1..];
      forall j | 0 < j < |r| ensures key(r[0]) >= key(r[j]) {
        assert r[j] in multiset(rest);
        assert r[j] == x || r[j] in multiset(s[1..]);
      }
      assert forall i, j :: 0 < i < j < |r| ==> r[i] == rest[i - 1] && r[j] == rest[j - 1];
    }
  }

  /** Among the elements with any one key, `x` lands first and the others keep their order. */
  lemma {:induction false} InsertKeepsKeyOrder<T>(x: T, s: seq<T>, key: T -> real, k: real)
    ensures WithKey(Insert(x, s, key), key, k) == (if key(x) == k then [x] else []) + WithKey(s, key, k)
    decreases |s|
  {
    if s == [] || key(x) >= key(s[0]) {
      assert ([x] + s)[1..] == s;
    } else {
      var rest := Insert(x, s[1..], key);
      assert ([s[0]] + rest)[1..] == rest;
      InsertKeepsKeyOrder(x, s[1..], key, k);
    }
  }

  /** The stable sort by descending key. */
  function Sort<T>(s: seq<T>, key: T -> real): (r: seq<T>)
    ensures multiset(r) == multiset(s)
    ensures SortedDesc(r, key)
    ensures forall k :: WithKey(r, key, k) == WithKey(s, key, k)
    decreases |s|
  {
    if s == [] then []
    else
      var sorted := Sort(s[1..], key);
      assert s == [s[0]] + s[1..];
      InsertKeepsSorted(s[0], sorted, key);
      assert forall k :: WithKey(Insert(s[0], sorted, key), key, k) == WithKey(s, key, k) by {
        forall k ensures WithKey(Insert(s[0], sorted, key), key, k) == WithKey(s, key, k) {
          InsertKeepsKeyOrder(s[0], sorted, key, k);
        }
      }
      Insert(s[0], sorted, key)
  }

  /** The elements of `WithKey(s, key, k)` are exactly the elements of `s` with key `k`. */
  lemma {:induction false} WithKeyMembers<T>(s: seq<T>, key: T -> real, k: real)
    ensures forall x :: x in WithKey(s, key, k) <==> x in s && key(x) == k
    decreases |s|
  {
    if s != [] {
      WithKeyMembers(s[1..], key, k);
      assert s == [s[0]] + s[1..];
      forall x ensures x in s <==> x == s[0] || x in s[1..] {
      }
    }
  }

  /** The first element of a descending sequence carries its greatest key. */
  lemma FirstKeyIsGreatest<T>(s: seq<T>, key: T -> real, x: T)
    requires SortedDesc(s, key) && x in s
    ensures key(x) <= key(s[0])
  {
    var i :| 0 <= i < |s| && s[i] == x;
    if i > 0 {
      assert key(s[0]) >= key(s[i]);
    }
  }

  /**
   * Two descending sequences that list the elements of every key in the same
   * order are equal: a stable descending sort has only one possible result.
   */
  lemma {:induction false} SortedStableUnique<T>(a: seq<T>, b: seq<T>, key: T -> real)
    requires SortedDesc(a, key) && SortedDesc(b, key)
    requires forall k :: WithKey(a, key, k) == WithKey(b, key, k)
    ensures a == b
    decreases |a|
  {
    // a key present in one sequence is present in the other, so both are empty or neither
    assert a != [] ==> WithKey(b, key, key(a[0])) != [];
    assert b != [] ==> WithKey(a, key, key(b[0])) != [];
    if a != [] {
      var ka, kb := key(a[0]), key(b[0]);
      assert kb <= ka by {
        var w := WithKey(a, key, kb);
        assert w == WithKey(b, key, kb) && w != [];
        WithKeyMembers(a, key, kb);
        assert w[0] in w;
        FirstKeyIsGreatest(a, key, w[0]);
      }
      assert ka <= kb by {
        var w := WithKey(b, key, ka);
        assert w == WithKey(a, key, ka) && w != [];
        WithKeyMembers(b, key, ka);
        assert w[0] in w;
        FirstKeyIsGreatest(b, key, w[0]);
      }
      assert a[0] == b[0] by {
        assert WithKey(a, key, ka)[0] == a[0];
        assert WithKey(b, key, ka)[0] == b[0];
      }
      forall k ensures WithKey(a[1..], key, k) == WithKey(b[1..], key, k) {
        var head := if ka == k then [a[0]] else [];
        assert WithKey(a, key, k) == head + WithKey(a[1..], key, k);
        assert WithKey(b, key, k) == head + WithKey(b[1..], key, k);
        assert WithKey(a[1..], key, k) == WithKey(a, key, k)[|head|..];
        assert WithKey(b[1..], key, k) == WithKey(b, key, k)[|head|..];
      }
      assert SortedDesc(a[1..], key) && SortedDesc(b[1..], key);
      SortedStableUnique(a[1..], b[1..], key);
      assert a == [a[0]] + a[1..] && b == [b[0]] + b[1..];
    }
  }

  /** Inserting an element whose identity no element has keeps identities distinct. */
  lemma {:induction false} InsertKeepsDistinct<T, K>(x: T, s: seq<T>, key: T -> real, id: T -> K)
    requires KeysDistinct(s, id)
    requires forall i :: 0 <= i < |s| ==> id(s[i]) != id(x)
    ensures KeysDistinct(Insert(x, s, key), id)
    decreases |s|
  {
    if s != [] && key(x) < key(s[0]) {
      var rest := Insert(x, s[1..], key);
      var r := [s[0]] + rest;
      assert KeysDistinct(s[1..], id);
      InsertKeepsDistinct(x, s[1..], key, id);
      forall j | 0 < j < |r| ensures id(r[0]) != id(r[j]) {
        assert r[j] in multiset(rest);
        assert r[j] == x || r[j] in multiset(s[1..]);
        if r[j] != x {
          var m :| 0 <= m < |s[1..]| && s[1..][m] == r[j];
          assert s[m + 1] == r[j];
        }
      }
      assert forall i, j :: 0 < i < j < |r| ==> r[i] == rest[i - 1] && r[j] == rest[j - 1];
    }
  }

  /** Sorting keeps the elements' identities distinct when they were. */
  lemma {:induction false} SortKeepsDistinct<T, K>(s: seq<T>, key: T -> real, id: T -> K)
    requires KeysDistinct(s, id)
    ensures KeysDistinct(Sort(s, key), id)
    decreases |s|
  {
    if s != [] {
      var sorted := Sort(s[1..], key);
      assert KeysDistinct(s[1..], id);
      SortKeepsDistinct(s[1..], key, id);
      forall i | 0 <= i < |sorted| ensures id(sorted[i]) != id(s[0]) {
        assert sorted[i] in multiset(s[1..]);
        var m :| 0 <= m < |s[1..]| && s[1..][m] == sorted[i];
        assert s[m + 1] == sorted[i];
      }
      InsertKeepsDistinct(s[0], sorted, key, id);
    }
  }
}
