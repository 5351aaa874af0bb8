/**
 * The stable descending sort that the engine obtains from the standard
 * library (`sort_by` with a reversed comparison).  It is specified once here
 * by an insertion sort; any stable sort on the same key returns the same
 * sequence (sorted, and per key value in input order).
 */
module Sorting {

  predicate SortedDesc<T>(s: seq<T>, key: T -> real)
  {
    forall i, j :: 0 <= i < j < |s| ==> key(s[i]) >= key(s[j])
  }

  /** Places `x` before the first element whose key is not larger than its own. */
  function InsertDesc<T>(x: T, s: seq<T>, key: T -> real): (r: seq<T>)
    ensures |r| == |s| + 1
    ensures multiset(r) == multiset(s) + multiset{x}
  {
    if |s| == 0 then [x]
    else if key(s[0]) > key(x) then
      assert s == [s[0]] + s[1..];
      [s[0]] + InsertDesc(x, s[1..], key)
    else [x] + s
  }

  function SortDesc<T>(s: seq<T>, key: T -> real): (r: seq<T>)
    ensures |r| == |s|
    ensures multiset(r) == multiset(s)
  {
    if |s| == 0 then []
    else
      assert s == [s[0]] + s[1..];
      InsertDesc(s[0], SortDesc(s[1..], key), key)
  }

  /** The elements of `s` whose key is `k`, in order. */
  function WithKey<T>(s: seq<T>, key: T -> real, k: real): seq<T>
  {
    if |s| == 0 then []
    else KeyPart(s[0], key, k) + WithKey(s[1..], key, k)
  }

  lemma {:induction false} InsertSorted<T>(x: T, s: seq<T>, key: T -> real)
    requires SortedDesc(s, key)
    ensures SortedDesc(InsertDesc(x, s, key), key)
  {
    if |s| > 0 && key(s[0]) > key(x) {
      InsertSorted(x, s[1..], key);
      var t := InsertDesc(x, s[1..], key);
      assert multiset(t) == multiset(s[1..]) + multiset{x};
      forall j | 0 <= j < |t| ensures key(s[0]) >= key(t[j]) {
        assert t[j] in multiset(t);
        if t[j] != x {
          assert t[j] in multiset(s[1..]);
          var m :| 0 <= m < |s[1..]| && s[1..][m] == t[j];
          assert s[1..][m] == s[m + 1];
        }
      }
    }
  }

  /** The tail of a sorted sequence is sorted, and its head has the largest key. */
  lemma SortedTail<T>(s: seq<T>, key: T -> real)
    requires SortedDesc(s, key) && |s| > 0
    ensures SortedDesc(s[1..], key)
    ensures forall z :: z in s ==> key(s[0]) >= key(z)
  {
    forall i, j | 0 <= i < j < |s[1..]| ensures key(s[1..][i]) >= key(s[1..][j]) {
      assert s[1..][i] == s[i + 1] && s[1..][j] == s[j + 1];
    }
    forall z | z in s ensures key(s[0]) >= key(z) {
      var m :| 0 <= m < |s| && s[m] == z;
    }
  }

  /** A key at least every key of a sorted sequence can be put in front of it. */
  lemma SortedCons<T>(y: T, t: seq<T>, key: T -> real)
    requires SortedDesc(t, key) && forall z :: z in t ==> key(y) >= key(z)
    ensures SortedDesc([y] + t, key)
  {
    var r := [y] + t;
    forall i, j | 0 <= i < j < |r| ensures key(r[i]) >= key(r[j]) {
      assert r[j] == t[j - 1];
      if i > 0 {
        assert r[i] == t[i - 1];
      }
    }
  }

  /** Dropping the last element keeps a sequence sorted. */
  lemma SortedPrefix<T>(s: seq<T>, key: T -> real)
    requires SortedDesc(s, key) && |s| > 0
    ensures SortedDesc(s[..|s| - 1], key)
  {
    var p := s[..|s| - 1];
    forall i, j | 0 <= i < j < |p| ensures key(p[i]) >= key(p[j]) {
      assert p[i] == s[i] && p[j] == s[j];
    }
  }

  /** The sort returns its input rearranged in non-increasing key order. */
  lemma {:induction false} SortDescSorted<T>(s: seq<T>, key: T -> real)
    ensures SortedDesc(SortDesc(s, key), key)
  {
    if |s| > 0 {
      SortDescSorted(s[1..], key);
      InsertSorted(s[0], SortDesc(s[1..], key), key);
    }
  }

  lemma {:induction false} InsertWithKey<T>(x: T, s: seq<T>, key: T -> real, k: real)
    ensures WithKey(InsertDesc(x, s, key), key, k) == KeyPart(x, key, k) + WithKey(s, key, k)
  {
    if |s| == 0 {
      WithKeyCons(x, [], key, k);
    } else if key(s[0]) > key(x) {
      InsertWithKey(x, s[1..], key, k);
      InsertWithKeyLater(x, s, key, k);
    } else {
      assert InsertDesc(x, s, key) == [x] + s;
      WithKeyCons(x, s, key, k);
    }
  }

  /** The step of `InsertWithKey` where `x` goes after the head. */
  lemma InsertWithKeyLater<T>(x: T, s: seq<T>, key: T -> real, k: real)
    requires |s| > 0 && key(s[0]) > key(x)
    requires WithKey(InsertDesc(x, s[1..], key), key, k) == KeyPart(x, key, k) + WithKey(s[1..], key, k)
    ensures WithKey(InsertDesc(x, s, key), key, k) == KeyPart(x, key, k) + WithKey(s, key, k)
  {
    var t := InsertDesc(x, s[1..], key);
    var w := WithKey(s[1..], key, k);
    assert InsertDesc(x, s, key) == [s[0]] + t;
    WithKeyCons(s[0], t, key, k);
    assert s == [s[0]] + s[1..];
    WithKeyCons(s[0], s[1..], key, k);
    // at most one of x and s[0] has key k, so their contributions commute
    assert KeyPart(x, key, k) == [] || KeyPart(s[0], key, k) == [];
    CommuteParts(KeyPart(s[0], key, k), KeyPart(x, key, k), w);
  }

  lemma CommuteParts<T>(a: seq<T>, b: seq<T>, w: seq<T>)
    requires a == [] || b == []
    ensures a + (b + w) == b + (a + w)
  {
    if a == [] {
      assert a + (b + w) == b + w == b + (a + w);
    } else {
      assert a + (b + w) == a + w == b + (a + w);
    }
  }

  /** `[y]` when `y` has key `k`, and nothing otherwise. */
  function KeyPart<T>(y: T, key: T -> real, k: real): seq<T>
  {
    if key(y) == k then [y] else []
  }

  lemma WithKeyCons<T>(y: T, t: seq<T>, key: T -> real, k: real)
    ensures WithKey([y] + t, key, k) == KeyPart(y, key, k) + WithKey(t, key, k)
  {
    assert ([y] + t)[1..] == t;
  }

  /**
   * Stability: for every key value, the elements carrying it appear in the
   * output in the same order as in the input.
   */
  lemma {:induction false} SortDescStable<T>(s: seq<T>, key: T -> real, k: real)
    ensures WithKey(SortDesc(s, key), key, k) == WithKey(s, key, k)
  {
    if |s| > 0 {
      SortDescStable(s[1..], key, k);
      InsertWithKey(s[0], SortDesc(s[1..], key), key, k);
    }
  }

  /** Sorting an already sorted sequence changes nothing. */
  lemma {:induction false} SortDescOfSorted<T>(s: seq<T>, key: T -> real)
    requires SortedDesc(s, key)
    ensures SortDesc(s, key) == s
  {
    if |s| > 0 {
      SortedTail(s, key);
      SortDescOfSorted(s[1..], key);
      if |s| > 1 {
        assert s[1..][0] in s;
      }
      InsertFront(s[0], s[1..], key);
      assert s == [s[0]] + s[1..];
    }
  }

  /** An element with a key at least that of the head goes in front. */
  lemma InsertFront<T>(x: T, t: seq<T>, key: T -> real)
    requires |t| > 0 ==> key(x) >= key(t[0])
    ensures InsertDesc(x, t, key) == [x] + t
  {
  }

  predicate Distinct<T(==)>(s: seq<T>)
  {
    forall i, j :: 0 <= i < j < |s| ==> s[i] != s[j]
  }

  lemma {:induction false} InsertDistinct<T>(x: T, s: seq<T>, key: T -> real)
    requires Distinct(s) && x !in s
    ensures Distinct(InsertDesc(x, s, key))
  {
    if |s| > 0 && key(s[0]) > key(x) {
      assert Distinct(s[1..]) by {
        forall i, j | 0 <= i < j < |s[1..]| ensures s[1..][i] != s[1..][j] {
          assert s[1..][i] == s[i + 1] && s[1..][j] == s[j + 1];
        }
      }
      assert x !in s[1..] by {
        forall k | 0 <= k < |s[1..]| ensures s[1..][k] != x {
          assert s[1..][k] == s[k + 1];
        }
      }
      InsertDistinct(x, s[1..], key);
      var t := InsertDesc(x, s[1..], key);
      assert s[0] !in s[1..] by {
        forall k | 0 <= k < |s[1..]| ensures s[1..][k] != s[0] {
          assert s[1..][k] == s[k + 1];
        }
      }
      assert s[0] !in multiset(t);
      var r := [s[0]] + t;
      forall i, j | 0 <= i < j < |r| ensures r[i] != r[j] {
        assert r[j] == t[j - 1];
        if i > 0 {
          assert r[i] == t[i - 1];
        }
      }
    }
  }

  /** Sorting a sequence without repeated elements gives one without repeated elements. */
  lemma {:induction false} SortDescDistinct<T>(s: seq<T>, key: T -> real)
    requires Distinct(s)
    ensures Distinct(SortDesc(s, key))
  {
    if |s| > 0 {
      assert Distinct(s[1..]) by {
        forall i, j | 0 <= i < j < |s[1..]| ensures s[1..][i] != s[1..][j] {
          assert s[1..][i] == s[i + 1] && s[1..][j] == s[j + 1];
        }
      }
      SortDescDistinct(s[1..], key);
      var t := SortDesc(s[1..], key);
      assert s[0] !in s[1..] by {
        forall k | 0 <= k < |s[1..]| ensures s[1..][k] != s[0] {
          assert s[1..][k] == s[k + 1];
        }
      }
      assert s[0] !in multiset(t);
      InsertDistinct(s[0], t, key);
    }
  }
}
