/**
 * "First accepted occurrence wins": the deduplication both the rating loader
 * and the movie accumulation perform. Each input is turned into an optional
 * candidate; a candidate is kept unless an earlier KEPT candidate has the same
 * key. The result is characterised independently as the candidates standing
 * at first-of-their-key positions, in input order.
 */
module FirstWins {
  import opened Optional

  /** Some element of `xs` has key `k`. */
  predicate HasKey<U, K(==)>(xs: seq<U>, key: U -> K, k: K) {
    exists i :: 0 <= i < |xs| && key(xs[i]) == k
  }

  /** No two elements of `xs` share a key. */
  predicate KeysDistinct<U, K(==)>(xs: seq<U>, key: U -> K) {
    forall i, j :: 0 <= i < j < |xs| ==> key(xs[i]) != key(xs[j])
  }

  /** The left-to-right scan: keep a candidate whose key no kept candidate has yet. */
  function KeepFirst<T, U, K(==)>(s: seq<T>, cand: T -> Option<U>, key: U -> K): seq<U>
    decreases |s|
  {
    if s == [] then []
    else
      var kept := KeepFirst(s[..|s| - 1], cand, key);
      match cand(s[|s| - 1])
      case None => kept
      case Some(u) => if HasKey(kept, key, key(u)) then kept else kept + [u]
  }

  /** Position `j` of `s` carries a candidate with key `k`. */
  predicate CandidateWithKey<T, U, K(==)>(s: seq<T>, cand: T -> Option<U>, key: U -> K, j: int, k: K) {
    0 <= j < |s| && cand(s[j]).Some? && key(cand(s[j]).value) == k
  }

  /** Position `i` carries a candidate and no earlier position carries one with the same key. */
  predicate FirstOfKey<T, U, K(==)>(s: seq<T>, cand: T -> Option<U>, key: U -> K, i: int) {
    && 0 <= i < |s|
    && cand(s[i]).Some?
    && forall j :: 0 <= j < i ==> !CandidateWithKey(s, cand, key, j, key(cand(s[i]).value))
  }

  /** The candidates at the first-of-key positions among the first `n`, in position order. */
  function FirstOccurrences<T, U, K(==)>(s: seq<T>, cand: T -> Option<U>, key: U -> K, n: nat): seq<U>
    requires n <= |s|
  {
    if n == 0 then []
    else
      FirstOccurrences(s, cand, key, n - 1)
        + if FirstOfKey(s, cand, key, n - 1) then [cand(s[n - 1]).value] else []
  }

  /** A key is among the kept candidates exactly when some input position has a candidate with that key. */
  lemma {:induction false} KeptKeys<T, U, K>(s: seq<T>, cand: T -> Option<U>, key: U -> K, k: K)
    ensures HasKey(KeepFirst(s, cand, key), key, k) <==> exists j :: CandidateWithKey(s, cand, key, j, k)
    decreases |s|
  {
    if s != [] {
      var init := s[..|s| - 1];
      var kept := KeepFirst(init, cand, key);
      var r := KeepFirst(s, cand, key);
      var c := cand(s[|s| - 1]);
      KeptKeys(init, cand, key, k);
      // the candidates of s are those of its initial part and the last one
      assert (exists j :: CandidateWithKey(s, cand, key, j, k)) <==>
        (exists j :: CandidateWithKey(init, cand, key, j, k)) || CandidateWithKey(s, cand, key, |s| - 1, k)
      by {
        if exists j :: CandidateWithKey(init, cand, key, j, k) {
          var j :| CandidateWithKey(init, cand, key, j, k);
          assert CandidateWithKey(s, cand, key, j, k);
        }
        if exists j :: CandidateWithKey(s, cand, key, j, k) {
          var j :| CandidateWithKey(s, cand, key, j, k);
          if j < |s| - 1 {
            assert CandidateWithKey(init, cand, key, j, k);
          }
        }
      }
      // the scan's last step adds the last candidate's key when it is new
      if c.Some? && !HasKey(kept, key, key(c.value)) {
        assert r == kept + [c.value];
        assert HasKey(r, key, k) <==> HasKey(kept, key, k) || key(c.value) == k by {
          if HasKey(r, key, k) {
            var i :| 0 <= i < |r| && key(r[i]) == k;
            if i < |kept| {
              assert key(kept[i]) == k;
            }
          }
          if HasKey(kept, key, k) {
            var i :| 0 <= i < |kept| && key(kept[i]) == k;
            assert key(r[i]) == k;
          }
          if key(c.value) == k {
            assert key(r[|kept|]) == k;
          }
        }
      } else {
        assert r == kept;
      }
    }
  }

  /** The scan keeps exactly the first-of-key candidates, in input order. */
  lemma {:induction false} KeepFirstIsFirstOccurrences<T, U, K>(s: seq<T>, cand: T -> Option<U>, key: U -> K)
    ensures KeepFirst(s, cand, key) == FirstOccurrences(s, cand, key, |s|)
  {
    PrefixKeepsFirstOccurrences(s, cand, key, |s|);
    assert s[..|s|] == s;
  }

  lemma {:induction false} PrefixKeepsFirstOccurrences<T, U, K>(s: seq<T>, cand: T -> Option<U>, key: U -> K, n: nat)
    requires n <= |s|
    ensures KeepFirst(s[..n], cand, key) == FirstOccurrences(s, cand, key, n)
  {
    if n > 0 {
      var p := s[..n];
      var init := s[..n - 1];
      assert p[..|p| - 1] == init;
      PrefixKeepsFirstOccurrences(s, cand, key, n - 1);
      var c := cand(s[n - 1]);
      if c.Some? {
        var k := key(c.value);
        KeptKeys(init, cand, key, k);
        if exists j :: CandidateWithKey(init, cand, key, j, k) {
          var j :| CandidateWithKey(init, cand, key, j, k);
          assert CandidateWithKey(s, cand, key, j, k);
          assert !FirstOfKey(s, cand, key, n - 1);
        } else {
          forall j | 0 <= j < n - 1
            ensures !CandidateWithKey(s, cand, key, j, k)
          {
            assert !CandidateWithKey(init, cand, key, j, k);
          }
          assert FirstOfKey(s, cand, key, n - 1);
        }
      }
    }
  }

  /** No two kept candidates share a key. */
  lemma {:induction false} KeptKeysDistinct<T, U, K>(s: seq<T>, cand: T -> Option<U>, key: U -> K)
    ensures KeysDistinct(KeepFirst(s, cand, key), key)
    decreases |s|
  {
    if s != [] {
      var kept := KeepFirst(s[..|s| - 1], cand, key);
      KeptKeysDistinct(s[..|s| - 1], cand, key);
      var c := cand(s[|s| - 1]);
      if c.Some? && !HasKey(kept, key, key(c.value)) {
        var r := kept + [c.value];
        assert KeepFirst(s, cand, key) == r;
        forall i, j | 0 <= i < j < |r| ensures key(r[i]) != key(r[j]) {
          assert r[i] == kept[i];
          if j == |kept| {
            assert r[j] == c.value;
            assert !(0 <= i < |kept| && key(kept[i]) == key(c.value));
            assert key(r[i]) != key(r[j]);
          } else {
            assert r[j] == kept[j];
            assert key(kept[i]) != key(kept[j]);
          }
        }
      }
    }
  }

  /** Every kept value is the candidate of some input position, and a first-of-key candidate is kept. */
  lemma {:induction false} KeptAreCandidates<T, U, K>(s: seq<T>, cand: T -> Option<U>, key: U -> K)
    ensures forall x :: x in KeepFirst(s, cand, key) <==>
      exists i :: FirstOfKey(s, cand, key, i) && cand(s[i]) == Some(x)
  {
    KeepFirstIsFirstOccurrences(s, cand, key);
    forall n | 0 <= n <= |s|
      ensures forall x :: (x in FirstOccurrences(s, cand, key, n)
        <==> exists i :: i < n && FirstOfKey(s, cand, key, i) && cand(s[i]) == Some(x))
    {
      OccurrenceMembers(s, cand, key, n);
    }
  }

  lemma {:induction false} OccurrenceMembers<T, U, K>(s: seq<T>, cand: T -> Option<U>, key: U -> K, n: nat)
    requires n <= |s|
    ensures forall x :: (x in FirstOccurrences(s, cand, key, n)
      <==> exists i :: i < n && FirstOfKey(s, cand, key, i) && cand(s[i]) == Some(x))
  {
    if n > 0 {
      OccurrenceMembers(s, cand, key, n - 1);
    }
  }
}
