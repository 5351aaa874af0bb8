/**
 * Title levels: the heights of the title elements are clustered (the
 * clustering itself is an input here: its centroids and the centroid each
 * title is assigned to), the centroids are ranked from tallest to shortest,
 * and each title gets the rank of its centroid as its level.
 */
module Titles {
  import opened Sorting
  import Elements

  /** Levels are stored in a byte. */
  const LEVEL_MODULUS: nat := 256

  type TitleLevel = n: nat | n < LEVEL_MODULUS

  /** Height of centroid `i`. */
  function Height(centroids: seq<real>): int -> real
  {
    (i: int) => if 0 <= i < |centroids| then centroids[i] else 0.0
  }

  function Indices(k: nat): (r: seq<int>)
    ensures |r| == k && forall i :: 0 <= i < k ==> r[i] == i
  {
    if k == 0 then [] else Indices(k - 1) + [k - 1]
  }

  /** The centroid indices from tallest to shortest (ties in index order): a permutation of 0 .. k-1. */
  function Order(centroids: seq<real>): (o: seq<int>)
    ensures |o| == |centroids| && Distinct(o)
    ensures forall j :: 0 <= j < |o| ==> 0 <= o[j] < |centroids|
    ensures forall i :: 0 <= i < |centroids| ==> i in o
    ensures SortedDesc(o, Height(centroids))
  {
    SortedIndices(centroids);
    SortDesc(Indices(|centroids|), Height(centroids))
  }

  /** Position of `x` in `s`. */
  function IndexOf(s: seq<int>, x: int): (p: nat)
    requires x in s
    ensures p < |s| && s[p] == x && x !in s[..p]
  {
    if s[0] == x then 0 else 1 + IndexOf(s[1..], x)
  }

  lemma SortedIndices(centroids: seq<real>)
    ensures var o := SortDesc(Indices(|centroids|), Height(centroids));
      |o| == |centroids| && Distinct(o)
      && (forall j :: 0 <= j < |o| ==> 0 <= o[j] < |centroids|)
      && (forall i :: 0 <= i < |centroids| ==> i in o)
      && SortedDesc(o, Height(centroids))
  {
    var ix := Indices(|centroids|);
    assert Distinct(ix);
    SortDescDistinct(ix, Height(centroids));
    SortDescSorted(ix, Height(centroids));
    PermutedIndices(ix, SortDesc(ix, Height(centroids)));
  }

  /** A rearrangement of 0 .. k-1 holds exactly the indices below k. */
  lemma PermutedIndices(ix: seq<int>, o: seq<int>)
    requires multiset(o) == multiset(ix) && forall i :: 0 <= i < |ix| ==> ix[i] == i
    ensures forall j :: 0 <= j < |o| ==> 0 <= o[j] < |ix|
    ensures forall i :: 0 <= i < |ix| ==> i in o
  {
    forall j | 0 <= j < |o| ensures 0 <= o[j] < |ix| {
      assert o[j] in multiset(o);
      var m :| 0 <= m < |ix| && ix[m] == o[j];
    }
    forall i | 0 <= i < |ix| ensures i in o {
      assert ix[i] == i;
      assert i in multiset(ix);
      assert i in multiset(o);
    }
  }

  /**
   * `centroid_lvl`: the level of each centroid, its rank in height order
   * (the inverse permutation of the order), truncated to a byte.
   */
  function CentroidLevels(centroids: seq<real>): (lv: seq<TitleLevel>)
    ensures |lv| == |centroids|
  {
    var o := Order(centroids);
    seq(|centroids|, j requires 0 <= j < |centroids| => (IndexOf(o, j) % LEVEL_MODULUS) as TitleLevel)
  }

  /** The level of centroid j is its rank in height order, in a byte. */
  lemma LevelAt(centroids: seq<real>, j: nat)
    requires j < |centroids|
    ensures j in Order(centroids)
    ensures CentroidLevels(centroids)[j] == IndexOf(Order(centroids), j) % LEVEL_MODULUS
  {
  }

  /** The centroid of rank i gets level i (in a byte). */
  lemma LevelsInvertOrder(centroids: seq<real>, i: nat)
    requires i < |centroids|
    ensures var o := Order(centroids); 0 <= o[i] < |centroids| && CentroidLevels(centroids)[o[i]] == i % LEVEL_MODULUS
  {
    var o := Order(centroids);
    LevelAt(centroids, o[i]);
    var p := IndexOf(o, o[i]);
    assert o[p] == o[i];
  }

  lemma LevelsDistinct(centroids: seq<real>)
    requires |centroids| <= LEVEL_MODULUS
    ensures var lv := CentroidLevels(centroids);
      Distinct(lv) && forall j :: 0 <= j < |lv| ==> lv[j] < |centroids|
  {
    var o := Order(centroids);
    var lv := CentroidLevels(centroids);
    forall j | 0 <= j < |lv| ensures lv[j] == IndexOf(o, j) {
      LevelAt(centroids, j);
      ModBelow(IndexOf(o, j));
    }
    forall a, b | 0 <= a < b < |lv| ensures lv[a] != lv[b] {
      assert o[IndexOf(o, a)] != o[IndexOf(o, b)];
    }
  }

  lemma TallerLower(centroids: seq<real>, a: nat, b: nat)
    requires |centroids| <= LEVEL_MODULUS && a < |centroids| && b < |centroids| && centroids[a] > centroids[b]
    ensures CentroidLevels(centroids)[a] < CentroidLevels(centroids)[b]
  {
    var o := Order(centroids);
    var h := Height(centroids);
    LevelAt(centroids, a);
    LevelAt(centroids, b);
    var pa, pb := IndexOf(o, a), IndexOf(o, b);
    assert h(o[pa]) == centroids[a] && h(o[pb]) == centroids[b];
    RankOrder(o, h, pa, pb);
    ModBelow(pa);
    ModBelow(pb);
  }

  lemma ModBelow(x: nat)
    requires x < LEVEL_MODULUS
    ensures x % LEVEL_MODULUS == x
  {
  }

  /** In a sorted order, a strictly larger key comes strictly earlier. */
  lemma RankOrder(o: seq<int>, h: int -> real, pa: nat, pb: nat)
    requires SortedDesc(o, h) && pa < |o| && pb < |o| && h(o[pa]) > h(o[pb])
    ensures pa < pb
  {
    var ha, hb := h(o[pa]), h(o[pb]);
    assert pa < pb || hb >= ha;
  }

  lemma TallestFirst(centroids: seq<real>)
    requires 0 < |centroids|
    ensures var a := Order(centroids)[0];
      0 <= a < |centroids| && CentroidLevels(centroids)[a] == 0
      && forall b :: 0 <= b < |centroids| ==> centroids[a] >= centroids[b]
  {
    var o := Order(centroids);
    var h := Height(centroids);
    LevelsInvertOrder(centroids, 0);
    forall b | 0 <= b < |centroids| ensures centroids[o[0]] >= centroids[b] {
      var pb := IndexOf(o, b);
      if pb > 0 {
        assert h(o[0]) >= h(o[pb]);
      }
    }
  }

  /**
   * With at most 256 centroids the levels are a permutation of 0 .. k-1;
   * a strictly taller centroid has a strictly smaller level, and a tallest
   * centroid (the first one among equals) has level 0.
   */
  lemma CentroidLevelsSpec(centroids: seq<real>)
    requires |centroids| <= LEVEL_MODULUS
    ensures var lv := CentroidLevels(centroids);
      Distinct(lv) && (forall j :: 0 <= j < |lv| ==> lv[j] < |centroids|)
      && (forall a, b :: 0 <= a < |centroids| && 0 <= b < |centroids| && centroids[a] > centroids[b] ==> lv[a] < lv[b])
      && (|centroids| > 0 ==> exists a :: 0 <= a < |centroids| && lv[a] == 0
                                && forall b :: 0 <= b < |centroids| ==> centroids[a] >= centroids[b])
  {
    LevelsDistinct(centroids);
    forall a, b | 0 <= a < |centroids| && 0 <= b < |centroids| && centroids[a] > centroids[b]
      ensures CentroidLevels(centroids)[a] < CentroidLevels(centroids)[b]
    {
      TallerLower(centroids, a, b);
    }
    if |centroids| > 0 {
      TallestFirst(centroids);
    }
  }

  /** The level key of a title: its page and its id. */
  function Key(e: Elements.Element): (nat, nat) { (e.pageId, e.id) }

  /** Assignments valid for the titles they are paired with (the pairing stops at the shorter list). */
  predicate ValidAssignments(titles: seq<Elements.Element>, assignments: seq<nat>, k: nat)
  {
    forall i :: 0 <= i < |titles| && i < |assignments| ==> assignments[i] < k
  }

  function Min(a: nat, b: nat): nat { if a <= b then a else b }

  /** The map after inserting the first `n` paired titles, later ones overwriting earlier ones. */
  function Inserted(titles: seq<Elements.Element>, assignments: seq<nat>, levels: seq<TitleLevel>, n: nat)
    : map<(nat, nat), TitleLevel>
    requires n <= |titles| && n <= |assignments| && ValidAssignments(titles, assignments, |levels|)
  {
    if n == 0 then map[]
    else Inserted(titles, assignments, levels, n - 1)[Key(titles[n - 1]) := levels[assignments[n - 1]]]
  }

  /**
   * The result of `title_levels_kmeans`, with `centroids` and `assignments`
   * the clustering's output for the titles' heights.
   */
  function TitleLevelsOf(titles: seq<Elements.Element>, buckets: nat, centroids: seq<real>, assignments: seq<nat>)
    : map<(nat, nat), TitleLevel>
    requires ValidAssignments(titles, assignments, |centroids|)
  {
    if |titles| <= buckets then map[]
    else Inserted(titles, assignments, CentroidLevels(centroids), Min(|titles|, |assignments|))
  }

  /** `title_levels_kmeans` around the clustering: the level computation and the insertion loop. */
  method TitleLevelsKmeans(titles: seq<Elements.Element>, buckets: nat, centroids: seq<real>, assignments: seq<nat>)
    returns (titleLevel: map<(nat, nat), TitleLevel>)
    requires ValidAssignments(titles, assignments, |centroids|)
    ensures titleLevel == TitleLevelsOf(titles, buckets, centroids, assignments)
  {
    if |titles| <= buckets {
      return map[];
    }
    var centroidLvl := CentroidLevels(centroids);
    titleLevel := InsertLevels(titles, assignments, centroidLvl);
  }

  /** The insertion loop: each paired title gets its centroid's level, later titles overwriting earlier ones. */
  method InsertLevels(titles: seq<Elements.Element>, assignments: seq<nat>, levels: seq<TitleLevel>)
    returns (titleLevel: map<(nat, nat), TitleLevel>)
    requires ValidAssignments(titles, assignments, |levels|)
    ensures titleLevel == Inserted(titles, assignments, levels, Min(|titles|, |assignments|))
  {
    titleLevel := map[];
    var n := 0;
    while n < |titles| && n < |assignments|
      invariant n <= |titles| && n <= |assignments|
      invariant titleLevel == Inserted(titles, assignments, levels, n)
    {
      titleLevel := titleLevel[Key(titles[n]) := levels[assignments[n]]];
      n := n + 1;
    }
  }

  lemma {:induction false} InsertedSize(titles: seq<Elements.Element>, assignments: seq<nat>, levels: seq<TitleLevel>, n: nat)
    requires n <= |titles| && n <= |assignments| && ValidAssignments(titles, assignments, |levels|)
    ensures |Inserted(titles, assignments, levels, n)| <= n
  {
    if n > 0 {
      InsertedSize(titles, assignments, levels, n - 1);
      var prev := Inserted(titles, assignments, levels, n - 1);
      var m := Inserted(titles, assignments, levels, n);
      var key := Key(titles[n - 1]);
      assert m.Keys == prev.Keys + {key};
      if key in prev {
        assert m.Keys == prev.Keys;
      } else {
        assert |m.Keys| == |prev.Keys| + 1;
      }
    }
  }

  /** Some of the first `n` paired titles has `key` and receives level `v`. */
  predicate SetBy(titles: seq<Elements.Element>, assignments: seq<nat>, levels: seq<TitleLevel>, n: nat, key: (nat, nat), v: TitleLevel)
    requires n <= |titles| && n <= |assignments| && ValidAssignments(titles, assignments, |levels|)
  {
    exists i :: 0 <= i < n && Key(titles[i]) == key && v == levels[assignments[i]]
  }

  lemma {:induction false} InsertedEntries(titles: seq<Elements.Element>, assignments: seq<nat>, levels: seq<TitleLevel>, n: nat)
    requires n <= |titles| && n <= |assignments| && ValidAssignments(titles, assignments, |levels|)
    ensures forall key: (nat, nat) :: key in Inserted(titles, assignments, levels, n) ==>
      SetBy(titles, assignments, levels, n, key, Inserted(titles, assignments, levels, n)[key])
  {
    if n > 0 {
      InsertedEntries(titles, assignments, levels, n - 1);
      var prev := Inserted(titles, assignments, levels, n - 1);
      var cur := Inserted(titles, assignments, levels, n);
      forall key: (nat, nat) | key in cur
        ensures SetBy(titles, assignments, levels, n, key, cur[key])
      {
        if key == Key(titles[n - 1]) {
          assert cur[key] == levels[assignments[n - 1]];
        } else {
          assert key in prev && cur[key] == prev[key];
          var i :| 0 <= i < n - 1 && Key(titles[i]) == key && prev[key] == levels[assignments[i]];
          assert 0 <= i < n && Key(titles[i]) == key && cur[key] == levels[assignments[i]];
        }
      }
    }
  }

  lemma {:induction false} InsertedLatest(titles: seq<Elements.Element>, assignments: seq<nat>, levels: seq<TitleLevel>, n: nat, i: nat)
    requires n <= |titles| && n <= |assignments| && ValidAssignments(titles, assignments, |levels|)
    requires i < n && forall j :: i < j < n ==> Key(titles[j]) != Key(titles[i])
    ensures var m := Inserted(titles, assignments, levels, n);
      Key(titles[i]) in m && m[Key(titles[i])] == levels[assignments[i]]
  {
    if i < n - 1 {
      InsertedLatest(titles, assignments, levels, n - 1, i);
    }
  }

  /**
   * Every key is a paired title's; there are at most as many entries as
   * titles; a title receives its centroid's level unless a later title has
   * the same key.
   */
  lemma InsertedSpec(titles: seq<Elements.Element>, assignments: seq<nat>, levels: seq<TitleLevel>, n: nat)
    requires n <= |titles| && n <= |assignments| && ValidAssignments(titles, assignments, |levels|)
    ensures var m := Inserted(titles, assignments, levels, n);
      |m| <= n
      && (forall key: (nat, nat) :: key in m ==> SetBy(titles, assignments, levels, n, key, m[key]))
      && (forall i :: 0 <= i < n && (forall j :: i < j < n ==> Key(titles[j]) != Key(titles[i]))
            ==> Key(titles[i]) in m && m[Key(titles[i])] == levels[assignments[i]])
  {
    InsertedSize(titles, assignments, levels, n);
    InsertedEntries(titles, assignments, levels, n);
    forall i | 0 <= i < n && (forall j :: i < j < n ==> Key(titles[j]) != Key(titles[i]))
      ensures Key(titles[i]) in Inserted(titles, assignments, levels, n)
    {
      InsertedLatest(titles, assignments, levels, n, i);
    }
    forall i | 0 <= i < n && (forall j :: i < j < n ==> Key(titles[j]) != Key(titles[i]))
      ensures Inserted(titles, assignments, levels, n)[Key(titles[i])] == levels[assignments[i]]
    {
      InsertedLatest(titles, assignments, levels, n, i);
    }
  }

  /** No levels for at most `buckets` titles; otherwise every level is below the number of centroids and of buckets. */
  lemma TitleLevelsSpec(titles: seq<Elements.Element>, buckets: nat, centroids: seq<real>, assignments: seq<nat>)
    requires ValidAssignments(titles, assignments, |centroids|) && |centroids| == buckets
    ensures var m := TitleLevelsOf(titles, buckets, centroids, assignments);
      (|titles| <= buckets ==> m == map[])
      && |m| <= |titles|
      && forall key :: key in m ==> m[key] < buckets
  {
    if |titles| > buckets {
      var lv := CentroidLevels(centroids);
      var n := Min(|titles|, |assignments|);
      InsertedSize(titles, assignments, lv, n);
      InsertedEntries(titles, assignments, lv, n);
      LevelsBelow(centroids);
    }
  }

  lemma LevelsBelow(centroids: seq<real>)
    ensures forall j :: 0 <= j < |centroids| ==> CentroidLevels(centroids)[j] < |centroids|
  {
    forall j | 0 <= j < |centroids| ensures CentroidLevels(centroids)[j] < |centroids| {
      LevelAt(centroids, j);
    }
  }
}
