/** Sequence operations standing in for the store's `where`, `orderBy` and
    `distinct` query clauses. */
module Seqs {

  /** The elements of `s` that satisfy `keep`, in their original order. */
  function Filter<T(!new)>(s: seq<T>, keep: T -> bool): (r: seq<T>)
    ensures |r| <= |s|
    ensures forall x :: x in r <==> x in s && keep(x)
    ensures forall x :: multiset(r)[x] == if keep(x) then multiset(s)[x] else 0
  {
    if |s| == 0 then []
    else
      assert s == [s[0]] + s[1..];
      if keep(s[0]) then [s[0]] + Filter(s[1..], keep) else Filter(s[1..], keep)
  }

  /** `s` is in non-decreasing order of `key`. */
  predicate SortedBy<T>(s: seq<T>, key: T -> int) {
    forall i, j :: 0 <= i < j < |s| ==> key(s[i]) <= key(s[j])
  }

  /** `s` is in strictly increasing order of `key`: no key occurs twice. */
  predicate StrictlySortedBy<T>(s: seq<T>, key: T -> int) {
    forall i, j :: 0 <= i < j < |s| ==> key(s[i]) < key(s[j])
  }

  /** Inserts `x` into the sorted sequence `s`, before the first element whose key is not smaller. */
  function Insert<T>(x: T, s: seq<T>, key: T -> int): (r: seq<T>)
    requires SortedBy(s, key)
    ensures SortedBy(r, key)
    ensures multiset(r) == multiset(s) + multiset{x}
  {
    if |s| == 0 then [x]
    else if key(x) <= key(s[0]) then
      ConsSorted(x, s, key);
      [x] + s
    else
      var rest := Insert(x, s[1..], key);
      InsertBehind(x, s, key, rest);
      [s[0]] + rest
  }

  lemma ConsSorted<T>(x: T, s: seq<T>, key: T -> int)
    requires SortedBy(s, key) && (|s| > 0 ==> key(x) <= key(s[0]))
    ensures SortedBy([x] + s, key)
  {
    var t := [x] + s;
    forall i, j | 0 <= i < j < |t| ensures key(t[i]) <= key(t[j]) {
      assert t[j] == s[j - 1];
      if i > 0 {
        assert t[i] == s[i - 1];
      } else if j > 1 {
        assert key(s[0]) <= key(s[j - 1]);
      }
    }
  }

  lemma SortedHeadIsLeast<T>(s: seq<T>, key: T -> int, z: T)
    requires SortedBy(s, key) && z in s
    ensures key(s[0]) <= key(z)
  {
    var k :| 0 <= k < |s| && s[k] == z;
    if k > 0 {
      assert key(s[0]) <= key(s[k]);
    }
  }

  lemma InsertBehind<T>(x: T, s: seq<T>, key: T -> int, rest: seq<T>)
    requires SortedBy(s, key) && |s| > 0 && key(s[0]) < key(x)
    requires SortedBy(rest, key) && multiset(rest) == multiset(s[1..]) + multiset{x}
    ensures SortedBy([s[0]] + rest, key)
    ensures multiset([s[0]] + rest) == multiset(s) + multiset{x}
  {
    assert s == [s[0]] + s[1..];
    if |rest| > 0 {
      var z := rest[0];
      assert z in multiset(rest);
      if z != x {
        assert z in s[1..];
        assert z in s;
        SortedHeadIsLeast(s, key, z);
      }
    }
    ConsSorted(s[0], rest, key);
  }

  /** A permutation of `s` in non-decreasing order of `key`; the order among equal keys is not specified. */
  function SortByKey<T>(s: seq<T>, key: T -> int): (r: seq<T>)
    ensures SortedBy(r, key)
    ensures multiset(r) == multiset(s)
    ensures |r| == |s|
  {
    if |s| == 0 then []
    else
      assert s == [s[0]] + s[1..];
      Insert(s[0], SortByKey(s[1..], key), key)
  }

  /** The set of keys that occur in `s`. */
  function KeySet<T>(s: seq<T>, key: T -> int): set<int> {
    set i | 0 <= i < |s| :: key(s[i])
  }

  lemma KeySetSnoc<T>(s: seq<T>, x: T, key: T -> int)
    ensures KeySet(s + [x], key) == KeySet(s, key) + {key(x)}
  {
    var t := s + [x];
    forall k | k in KeySet(t, key) ensures k in KeySet(s, key) + {key(x)} {
      var i :| 0 <= i < |t| && key(t[i]) == k;
      if i < |s| { assert t[i] == s[i]; }
    }
    forall k | k in KeySet(s, key) ensures k in KeySet(t, key) {
      var i :| 0 <= i < |s| && key(s[i]) == k;
      assert t[i] == s[i];
    }
    assert t[|s|] == x;
  }

  lemma StrictlySortedSnoc<T>(r: seq<T>, x: T, key: T -> int)
    requires StrictlySortedBy(r, key)
    requires |r| > 0 ==> key(r[|r|-1]) < key(x)
    ensures StrictlySortedBy(r + [x], key)
  {
    var t := r + [x];
    forall i, j | 0 <= i < j < |t| ensures key(t[i]) < key(t[j]) {
      if j < |r| {
        assert t[i] == r[i] && t[j] == r[j];
      } else if i < |r| - 1 {
        assert t[i] == r[i] && key(r[i]) < key(r[|r|-1]);
      }
    }
  }

  lemma KeyInKeySet<T>(s: seq<T>, i: nat, key: T -> int)
    requires i < |s|
    ensures key(s[i]) in KeySet(s, key)
  {
  }

  /** The keys of the first `n` elements of `s`. */
  ghost function KeysBelow<T>(s: seq<T>, key: T -> int, n: nat): set<int>
    requires n <= |s|
  {
    set i | 0 <= i < n :: key(s[i])
  }

  lemma KeysBelowStep<T>(s: seq<T>, key: T -> int, n: nat)
    requires n < |s|
    ensures KeysBelow(s, key, n + 1) == KeysBelow(s, key, n) + {key(s[n])}
  {
    forall k | k in KeysBelow(s, key, n + 1) ensures k in KeysBelow(s, key, n) + {key(s[n])} {
      var i :| 0 <= i < n + 1 && key(s[i]) == k;
    }
  }

  /** Keeps one element of every run of equal keys in a sorted sequence. */
  function DistinctByKey<T>(s: seq<T>, key: T -> int): (r: seq<T>)
    requires SortedBy(s, key)
    ensures StrictlySortedBy(r, key)
    ensures AllIn(r, s)
  {
    if |s| == 0 then [] else DistinctUpTo(s, key, |s|)
  }

  /** `DistinctByKey` of the first `n` elements of `s`; it keeps the first element of every run. */
  function DistinctUpTo<T>(s: seq<T>, key: T -> int, n: nat): (r: seq<T>)
    requires SortedBy(s, key) && 1 <= n <= |s|
    ensures StrictlySortedBy(r, key)
    ensures AllIn(r, s)
    ensures |r| > 0 && key(r[|r| - 1]) == key(s[n - 1])
  {
    if n == 1 then [s[0]]
    else
      var r0 := DistinctUpTo(s, key, n - 1);
      var r := if key(s[n - 1]) == key(s[n - 2]) then r0 else r0 + [s[n - 1]];
      DistinctStep(s, key, n, r0, r);
      r
  }

  /** Every element of `r` occurs in `s`. */
  ghost predicate AllIn<T>(r: seq<T>, s: seq<T>) {
    forall i :: 0 <= i < |r| ==> r[i] in s
  }

  /** One step of `DistinctUpTo`: what holds of the result for `n - 1` elements extends to `n`. */
  lemma DistinctStep<T>(s: seq<T>, key: T -> int, n: nat, r0: seq<T>, r: seq<T>)
    requires SortedBy(s, key) && 1 < n <= |s|
    requires StrictlySortedBy(r0, key) && AllIn(r0, s)
    requires |r0| > 0 && key(r0[|r0| - 1]) == key(s[n - 2])
    requires r == if key(s[n - 1]) == key(s[n - 2]) then r0 else r0 + [s[n - 1]]
    ensures StrictlySortedBy(r, key) && AllIn(r, s)
    ensures |r| > 0 && key(r[|r| - 1]) == key(s[n - 1])
  {
    if key(s[n - 1]) != key(s[n - 2]) {
      assert key(s[n - 2]) <= key(s[n - 1]);
      StrictlySortedSnoc(r0, s[n - 1], key);
      forall i | 0 <= i < |r| ensures r[i] in s {
        if i < |r0| { assert r[i] == r0[i]; }
      }
    }
  }

  /** Dropping repeated keys loses no key: every key of the first `n` elements is the key of some kept element. */
  lemma {:induction false} DistinctUpToKeepsKeys<T>(s: seq<T>, key: T -> int, n: nat)
    requires SortedBy(s, key) && 1 <= n <= |s|
    ensures KeySet(DistinctUpTo(s, key, n), key) == KeysBelow(s, key, n)
  {
    if n == 1 {
      DistinctKeysFirst(s, key);
    } else {
      DistinctUpToKeepsKeys(s, key, n - 1);
      KeysBelowStep(s, key, n - 1);
      DistinctKeysStep(s, key, n);
    }
  }

  lemma DistinctKeysFirst<T>(s: seq<T>, key: T -> int)
    requires SortedBy(s, key) && 1 <= |s|
    ensures KeySet(DistinctUpTo(s, key, 1), key) == KeysBelow(s, key, 1)
  {
    assert DistinctUpTo(s, key, 1) == [s[0]];
    assert KeysBelow(s, key, 1) == {key(s[0])};
  }

  lemma DistinctKeysStep<T>(s: seq<T>, key: T -> int, n: nat)
    requires SortedBy(s, key) && 1 < n <= |s|
    requires KeySet(DistinctUpTo(s, key, n - 1), key) == KeysBelow(s, key, n - 1)
    requires KeysBelow(s, key, n) == KeysBelow(s, key, n - 1) + {key(s[n - 1])}
    ensures KeySet(DistinctUpTo(s, key, n), key) == KeysBelow(s, key, n)
  {
    var r0 := DistinctUpTo(s, key, n - 1);
    var x := s[n - 1];
    if key(x) == key(s[n - 2]) {
      assert DistinctUpTo(s, key, n) == r0;
      assert key(s[n - 2]) in KeysBelow(s, key, n - 1);
      AddPresent(KeysBelow(s, key, n - 1), key(x));
    } else {
      assert DistinctUpTo(s, key, n) == r0 + [x];
      KeySetSnoc(r0, x, key);
    }
  }

  lemma AddPresent(a: set<int>, x: int)
    requires x in a
    ensures a + {x} == a
  {
  }

  /** Dropping repeated keys loses no key: every key of `s` is the key of some kept element. */
  lemma DistinctByKeyKeepsKeys<T>(s: seq<T>, key: T -> int)
    requires SortedBy(s, key)
    ensures KeySet(DistinctByKey(s, key), key) == KeySet(s, key)
  {
    if |s| > 0 {
      DistinctUpToKeepsKeys(s, key, |s|);
      assert KeysBelow(s, key, |s|) == KeySet(s, key);
    }
  }

  /** The position in `DistinctByKey(s, key)` of an element with the key of `s[j]`. */
  lemma KeptIndex<T>(s: seq<T>, key: T -> int, j: nat) returns (i: nat)
    requires SortedBy(s, key) && j < |s|
    ensures i < |DistinctByKey(s, key)| && key(DistinctByKey(s, key)[i]) == key(s[j])
  {
    KeyInKeySet(s, j, key);
    DistinctByKeyKeepsKeys(s, key);
    var r := DistinctByKey(s, key);
    assert key(s[j]) in KeySet(r, key);
    i :| 0 <= i < |r| && key(r[i]) == key(s[j]);
  }
}
