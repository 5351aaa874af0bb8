/**
 * Greedy non-maximum suppression over detections sorted by confidence.
 *
 * Both generations of the layout detector sort their boxes by descending
 * probability and then walk them once, keeping a box unless one of the boxes
 * kept so far suppresses it; they differ only in the suppression test, which
 * is a parameter here (`supp(kept, candidate, threshold)`).
 */
module Nms {
  import opened Sorting

  predicate SuppressedBy<T>(kept: seq<T>, x: T, supp: (T, T, real) -> bool, thr: real)
  {
    exists i :: 0 <= i < |kept| && supp(kept[i], x, thr)
  }

  /** No box of `s` is suppressed by one before it. */
  predicate Independent<T>(s: seq<T>, supp: (T, T, real) -> bool, thr: real)
  {
    forall i, j :: 0 <= i < j < |s| ==> !supp(s[i], s[j], thr)
  }

  /** The boxes the greedy walk over `s` keeps, in the order it keeps them. */
  function Survivors<T>(s: seq<T>, supp: (T, T, real) -> bool, thr: real): (r: seq<T>)
    ensures |r| <= |s|
    ensures multiset(r) <= multiset(s)
  {
    if |s| == 0 then []
    else
      var kept := Survivors(s[..|s| - 1], supp, thr);
      assert s == s[..|s| - 1] + [s[|s| - 1]];
      if SuppressedBy(kept, s[|s| - 1], supp, thr) then kept else kept + [s[|s| - 1]]
  }

  /** NMS as the detector runs it: stable sort by descending key, then the greedy walk. */
  function Suppress<T>(s: seq<T>, key: T -> real, supp: (T, T, real) -> bool, thr: real): seq<T>
  {
    Survivors(SortDesc(s, key), supp, thr)
  }

  /**
   * The in-place walk: after sorting, `kept` survivors are swapped to the
   * front and the vector is truncated to them (here: `kept` is returned and
   * `a[..kept]` holds them).
   */
  method SuppressInPlace<T>(a: array<T>, key: T -> real, supp: (T, T, real) -> bool, thr: real)
    returns (kept: nat)
    modifies a
    ensures kept <= a.Length
    ensures a[..kept] == Suppress(old(a[..]), key, supp, thr)
  {
    var sorted := SortDesc(a[..], key);
    forall i | 0 <= i < a.Length {
      a[i] := sorted[i];
    }
    assert a[..] == sorted;
    kept := WalkInPlace(a, supp, thr);
  }

  /** The swap-to-front walk over an already sorted array. */
  method WalkInPlace<T>(a: array<T>, supp: (T, T, real) -> bool, thr: real) returns (kept: nat)
    modifies a
    ensures kept <= a.Length
    ensures a[..kept] == Survivors(old(a[..]), supp, thr)
  {
    ghost var sorted := a[..];
    kept := 0;
    var index := 0;
    while index < a.Length
      invariant 0 <= kept <= index <= a.Length
      invariant a[..kept] == Survivors(sorted[..index], supp, thr)
      invariant a[index..] == sorted[index..]
    {
      kept := WalkTurn(a, kept, index, sorted, supp, thr);
      index := index + 1;
    }
    assert sorted[..a.Length] == sorted;
  }

  /** The loop body of the walk: keep the candidate at `index` by swapping it behind the survivors, or drop it. */
  method WalkTurn<T>(a: array<T>, kept: nat, index: nat, ghost sorted: seq<T>, supp: (T, T, real) -> bool, thr: real)
    returns (newKept: nat)
    modifies a
    requires kept <= index < a.Length == |sorted|
    requires a[..kept] == Survivors(sorted[..index], supp, thr)
    requires a[index..] == sorted[index..]
    ensures newKept <= index + 1
    ensures a[..newKept] == Survivors(sorted[..index + 1], supp, thr)
    ensures a[index + 1..] == sorted[index + 1..]
  {
    var drop := IsSuppressed(a, kept, a[index], supp, thr);
    ghost var before := a[..];
    assert before[..kept] == a[..kept];
    if !drop {
      a[kept], a[index] := a[index], a[kept];
    }
    WalkStep(sorted, before, a[..], kept, index, drop, supp, thr);
    newKept := if drop then kept else kept + 1;
    assert a[..newKept] == a[..][..newKept];
    assert a[index + 1..] == a[..][index + 1..];
  }

  /**
   * One turn of the walk: the candidate at `index` is swapped behind the
   * `kept` survivors unless one of them suppresses it.
   */
  lemma WalkStep<T>(sorted: seq<T>, before: seq<T>, after: seq<T>, kept: nat, index: nat, drop: bool,
                    supp: (T, T, real) -> bool, thr: real)
    requires kept <= index < |sorted| == |before|
    requires before[..kept] == Survivors(sorted[..index], supp, thr)
    requires before[index..] == sorted[index..]
    requires drop == SuppressedBy(before[..kept], before[index], supp, thr)
    requires after == if drop then before else before[kept := before[index]][index := before[kept]]
    ensures after[..if drop then kept else kept + 1] == Survivors(sorted[..index + 1], supp, thr)
    ensures after[index + 1..] == sorted[index + 1..]
  {
    assert before[index] == sorted[index] by { assert before[index..][0] == sorted[index..][0]; }
    SurvivorsStep(sorted, index, supp, thr);
    assert before[index + 1..] == sorted[index + 1..] by {
      assert before[index..][1..] == before[index + 1..];
      assert sorted[index..][1..] == sorted[index + 1..];
    }
    if !drop {
      SwapFacts(before, after, kept, index);
    }
  }

  /** What the swap of positions `k <= i` does to the parts the walk tracks. */
  lemma SwapFacts<T>(before: seq<T>, after: seq<T>, k: nat, i: nat)
    requires k <= i < |before| == |after|
    requires after == before[k := before[i]][i := before[k]]
    ensures after[..k + 1] == before[..k] + [before[i]]
    ensures after[i + 1..] == before[i + 1..]
  {
  }

  /** One step of the greedy walk over a growing prefix. */
  lemma SurvivorsStep<T>(s: seq<T>, i: nat, supp: (T, T, real) -> bool, thr: real)
    requires i < |s|
    ensures Survivors(s[..i + 1], supp, thr)
         == if SuppressedBy(Survivors(s[..i], supp, thr), s[i], supp, thr)
            then Survivors(s[..i], supp, thr)
            else Survivors(s[..i], supp, thr) + [s[i]]
  {
    assert s[..i + 1][..i] == s[..i];
    assert s[..i + 1][i] == s[i];
  }

  /** The inner scan: does one of the first `kept` boxes suppress `x`? (stops at the first that does) */
  method IsSuppressed<T>(a: array<T>, kept: nat, x: T, supp: (T, T, real) -> bool, thr: real)
    returns (drop: bool)
    requires kept <= a.Length
    ensures drop == SuppressedBy(a[..kept], x, supp, thr)
  {
    drop := false;
    var prev := 0;
    while prev < kept && !drop
      invariant 0 <= prev <= kept
      invariant drop <==> exists p :: 0 <= p < prev && supp(a[p], x, thr)
    {
      if supp(a[prev], x, thr) {
        drop := true;
      }
      prev := prev + 1;
    }
    if drop {
      var p :| 0 <= p < prev && supp(a[p], x, thr);
      assert a[..kept][p] == a[p];
    }
    if SuppressedBy(a[..kept], x, supp, thr) {
      var p :| 0 <= p < kept && supp(a[..kept][p], x, thr);
      assert a[..kept][p] == a[p];
    }
  }

  // ---------------------------------------------------------------------------
  // Properties of the greedy walk
  // ---------------------------------------------------------------------------

  /** No survivor is suppressed by a survivor kept before it. */
  lemma {:induction false} SurvivorsPairwise<T>(s: seq<T>, supp: (T, T, real) -> bool, thr: real)
    ensures Independent(Survivors(s, supp, thr), supp, thr)
  {
    if |s| > 0 {
      var kept := Survivors(s[..|s| - 1], supp, thr);
      var x := s[|s| - 1];
      SurvivorsPairwise(s[..|s| - 1], supp, thr);
      if !SuppressedBy(kept, x, supp, thr) {
        var r := kept + [x];
        assert r == Survivors(s, supp, thr);
        forall i, j | 0 <= i < j < |r| ensures !supp(r[i], r[j], thr) {
          assert r[i] == kept[i];
          if j < |kept| {
            assert r[j] == kept[j];
            assert !supp(kept[i], kept[j], thr);
          } else {
            assert r[j] == x;
            assert !supp(kept[i], x, thr);
          }
        }
      }
    }
  }

  /** `x` survived, or a survivor with at least its key suppresses it. */
  ghost predicate CoveredBy<T>(r: seq<T>, x: T, key: T -> real, supp: (T, T, real) -> bool, thr: real)
  {
    x in r || exists i :: 0 <= i < |r| && key(r[i]) >= key(x) && supp(r[i], x, thr)
  }

  lemma CoveredByExtend<T>(r: seq<T>, extra: seq<T>, x: T, key: T -> real, supp: (T, T, real) -> bool, thr: real)
    requires CoveredBy(r, x, key, supp, thr)
    ensures CoveredBy(r + extra, x, key, supp, thr)
  {
    if x !in r {
      var i :| 0 <= i < |r| && key(r[i]) >= key(x) && supp(r[i], x, thr);
      assert (r + extra)[i] == r[i];
    }
  }

  /**
   * Over a walk in non-increasing key order, every box survives or is
   * suppressed by a survivor whose key is at least its own.
   */
  lemma {:induction false} SurvivorsCover<T>(s: seq<T>, key: T -> real, supp: (T, T, real) -> bool, thr: real)
    requires SortedDesc(s, key)
    ensures forall j :: 0 <= j < |s| ==> CoveredBy(Survivors(s, supp, thr), s[j], key, supp, thr)
  {
    if |s| > 0 {
      var prefix := s[..|s| - 1];
      var x := s[|s| - 1];
      var kept := Survivors(prefix, supp, thr);
      var r := Survivors(s, supp, thr);
      SortedPrefix(s, key);
      SurvivorsCover(prefix, key, supp, thr);
      var extra := if SuppressedBy(kept, x, supp, thr) then [] else [x];
      assert r == kept + extra;
      forall j | 0 <= j < |s| ensures CoveredBy(r, s[j], key, supp, thr) {
        if j < |s| - 1 {
          assert s[j] == prefix[j];
          CoveredByExtend(kept, extra, s[j], key, supp, thr);
        } else {
          LastCovered(s, key, supp, thr);
        }
      }
    }
  }

  lemma LastCovered<T>(s: seq<T>, key: T -> real, supp: (T, T, real) -> bool, thr: real)
    requires SortedDesc(s, key) && |s| > 0
    ensures CoveredBy(Survivors(s, supp, thr), s[|s| - 1], key, supp, thr)
  {
    var prefix := s[..|s| - 1];
    var x := s[|s| - 1];
    var kept := Survivors(prefix, supp, thr);
    if SuppressedBy(kept, x, supp, thr) {
      var i :| 0 <= i < |kept| && supp(kept[i], x, thr);
      assert kept[i] in multiset(kept);
      var m := InMultisetAt(kept[i], prefix);
      assert prefix[m] == s[m];
    } else {
      assert Survivors(s, supp, thr) == kept + [x];
    }
  }

  /** The first box of the walk (the most confident one) always survives. */
  lemma {:induction false} SurvivorsKeepFirst<T>(s: seq<T>, supp: (T, T, real) -> bool, thr: real)
    requires |s| > 0
    ensures var r := Survivors(s, supp, thr); |r| > 0 && r[0] == s[0]
  {
    if |s| > 1 {
      SurvivorsKeepFirst(s[..|s| - 1], supp, thr);
    }
  }

  lemma InMultisetAt<T>(x: T, s: seq<T>) returns (k: nat)
    requires x in multiset(s)
    ensures k < |s| && s[k] == x
  {
    k :| 0 <= k < |s| && s[k] == x;
  }

  /** The walk keeps the order of its input: survivors of a sorted walk are sorted. */
  lemma {:induction false} SurvivorsSorted<T>(s: seq<T>, key: T -> real, supp: (T, T, real) -> bool, thr: real)
    requires SortedDesc(s, key)
    ensures SortedDesc(Survivors(s, supp, thr), key)
  {
    if |s| > 0 {
      var prefix := s[..|s| - 1];
      SortedPrefix(s, key);
      SurvivorsSorted(prefix, key, supp, thr);
      var kept := Survivors(prefix, supp, thr);
      var r := Survivors(s, supp, thr);
      if r != kept {
        forall i | 0 <= i < |kept| ensures key(kept[i]) >= key(s[|s| - 1]) {
          assert kept[i] in multiset(kept);
          var k := InMultisetAt(kept[i], prefix);
          assert prefix[k] == s[k];
        }
        forall i, j | 0 <= i < j < |r| ensures key(r[i]) >= key(r[j]) {
          assert r[i] == kept[i];
          if j < |kept| {
            assert r[j] == kept[j];
          }
        }
      }
    }
  }

  /** A walk over boxes none of which suppresses a later one keeps them all. */
  lemma {:induction false} SurvivorsOfIndependent<T>(s: seq<T>, supp: (T, T, real) -> bool, thr: real)
    requires Independent(s, supp, thr)
    ensures Survivors(s, supp, thr) == s
  {
    if |s| > 0 {
      var prefix := s[..|s| - 1];
      IndependentPrefix(s, supp, thr);
      SurvivorsOfIndependent(prefix, supp, thr);
      assert s == prefix + [s[|s| - 1]];
    }
  }

  /** Dropping the last box keeps a sequence independent, and nothing before the last box suppresses it. */
  lemma IndependentPrefix<T>(s: seq<T>, supp: (T, T, real) -> bool, thr: real)
    requires Independent(s, supp, thr) && |s| > 0
    ensures Independent(s[..|s| - 1], supp, thr)
    ensures !SuppressedBy(s[..|s| - 1], s[|s| - 1], supp, thr)
  {
    var prefix := s[..|s| - 1];
    forall i, j | 0 <= i < j < |prefix| ensures !supp(prefix[i], prefix[j], thr) {
      assert prefix[i] == s[i] && prefix[j] == s[j];
    }
    forall i | 0 <= i < |prefix| ensures !supp(prefix[i], s[|s| - 1], thr) {
      assert prefix[i] == s[i];
    }
  }

  /** Running NMS on its own output changes nothing. */
  lemma SuppressIdempotent<T>(s: seq<T>, key: T -> real, supp: (T, T, real) -> bool, thr: real)
    ensures Suppress(Suppress(s, key, supp, thr), key, supp, thr) == Suppress(s, key, supp, thr)
  {
    var once := Suppress(s, key, supp, thr);
    SortDescSorted(s, key);
    SurvivorsSorted(SortDesc(s, key), key, supp, thr);
    SortDescOfSorted(once, key);
    SurvivorsPairwise(SortDesc(s, key), supp, thr);
    SurvivorsOfIndependent(once, supp, thr);
  }
}
