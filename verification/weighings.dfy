/** The weighing enumerator `measures(n)`: for each pan size k from 1 to n/2,
    every 2k-subset of the pearls and every k-subset of it as the left pan,
    with the rest of the subset, sorted, as the right pan. */
module Weighings {
  import opened Sequences
  import opened Subsets
  import opened Scale

  /** A legal weighing of n pearls: two disjoint, equally sized, non-empty
      pans of at most n/2 pearls each, each listed in increasing order. */
  predicate WellFormed(w: Weighing, n: nat) {
    && 1 <= |w.left| <= n / 2
    && |w.right| == |w.left|
    && StrictlyIncreasing(w.left)
    && StrictlyIncreasing(w.right)
    && (forall x :: x in w.left ==> x !in w.right)
    && PansWithin(w, n)
  }

  /** The members of xs not in ys, in the order of xs: on an increasing xs
      this is `sorted(set(xs).difference(ys))`. */
  function Without(xs: seq<nat>, ys: seq<nat>): (r: seq<nat>)
    ensures forall x :: x in r <==> x in xs && x !in ys
    ensures StrictlyIncreasing(xs) ==> StrictlyIncreasing(r)
  {
    if xs == [] then []
    else
      var rest := Without(xs[1..], ys);
      assert xs == [xs[0]] + xs[1..];
      assert StrictlyIncreasing(xs) && xs[0] !in ys ==> StrictlyIncreasing([xs[0]] + rest) by {
        if StrictlyIncreasing(xs) && xs[0] !in ys {
          forall y | y in rest ensures xs[0] < y {
            TailAboveHead(xs, y);
          }
          PrependIncreasing(xs[0], rest);
        }
      }
      (if xs[0] in ys then [] else [xs[0]]) + rest
  }

  /** The members of xs that are also in ys, in the order of xs. */
  function Within(xs: seq<nat>, ys: seq<nat>): (r: seq<nat>)
    ensures forall x :: x in r <==> x in xs && x in ys
    ensures StrictlyIncreasing(xs) ==> StrictlyIncreasing(r)
  {
    if xs == [] then []
    else
      var rest := Within(xs[1..], ys);
      assert xs == [xs[0]] + xs[1..];
      assert StrictlyIncreasing(xs) && xs[0] in ys ==> StrictlyIncreasing([xs[0]] + rest) by {
        if StrictlyIncreasing(xs) && xs[0] in ys {
          forall y | y in rest ensures xs[0] < y {
            TailAboveHead(xs, y);
          }
          PrependIncreasing(xs[0], rest);
        }
      }
      (if xs[0] in ys then [xs[0]] else []) + rest
  }

  /** Removing a duplicate-free part ys of a duplicate-free xs leaves |xs| - |ys| values. */
  lemma WithoutLength(xs: seq<nat>, ys: seq<nat>)
    requires StrictlyIncreasing(xs) && StrictlyIncreasing(ys)
    requires forall y :: y in ys ==> y in xs
    ensures |Without(xs, ys)| == |xs| - |ys|
  {
    var r := Without(xs, ys);
    DistinctCard(xs);
    DistinctCard(ys);
    DistinctCard(r);
    assert Elems(r) == Elems(xs) - Elems(ys);
    assert Elems(xs) == Elems(r) + Elems(ys);
    assert Elems(r) * Elems(ys) == {};
  }

  /** The weighings that split the subset inv into a left pan of k pearls and
      the rest: lines 18-20 of the enumerator for one subset. */
  function SplitsOf(inv: seq<nat>, k: nat): (r: seq<Weighing>)
    ensures |r| == Binomial(|inv|, k)
  {
    var lefts := Combinations(inv, k);
    seq(|lefts|, j requires 0 <= j < |lefts| => Weighing(lefts[j], Without(inv, lefts[j])))
  }

  /** The weighings with k pearls on each pan (lines 16-20 for one k): the
      splits of every 2k-subset of the pearls, one subset after the other. */
  function Level(n: nat, k: nat): seq<Weighing> {
    var invs := Combinations(Range(n), 2 * k);
    Flatten(seq(|invs|, i requires 0 <= i < |invs| => SplitsOf(invs[i], k)))
  }

  /** The levels for pan sizes 1 .. n/2, in that order (line 16). */
  function Levels(n: nat): seq<seq<Weighing>> {
    seq(n / 2, i requires 0 <= i < n / 2 => Level(n, i + 1))
  }

  lemma LevelsAt(n: nat, i: nat)
    requires i < n / 2
    ensures |Levels(n)| == n / 2 && Levels(n)[i] == Level(n, i + 1)
  {
  }

  /** `measures(n)`: every weighing the solver considers, each one legal. */
  function Measures(n: nat): (r: seq<Weighing>)
    ensures forall j :: 0 <= j < |r| ==> WellFormed(r[j], n)
  {
    var r := Flatten(Levels(n));
    forall j | 0 <= j < |r| ensures WellFormed(r[j], n) {
      FlattenedWellFormed(n, j);
    }
    r
  }

  lemma FlattenedWellFormed(n: nat, j: nat)
    requires j < |Flatten(Levels(n))|
    ensures WellFormed(Flatten(Levels(n))[j], n)
  {
    var i, m := FlattenIndex(Levels(n), j);
    LevelsWellFormed(n, i, m);
  }

  lemma LevelsWellFormed(n: nat, i: nat, m: nat)
    requires i < |Levels(n)| && m < |Levels(n)[i]|
    ensures WellFormed(Levels(n)[i][m], n)
  {
    LevelsAt(n, i);
    LevelWellFormed(n, i + 1, m);
  }

  lemma LevelWellFormed(n: nat, k: nat, j: nat)
    requires 1 <= k <= n / 2 && j < |Level(n, k)|
    ensures WellFormed(Level(n, k)[j], n)
  {
    var invs := Combinations(Range(n), 2 * k);
    var splits := seq(|invs|, i requires 0 <= i < |invs| => SplitsOf(invs[i], k));
    var i, m := FlattenIndex(splits, j);
    assert splits[i] == SplitsOf(invs[i], k);
    CombinationsFacts(Range(n), 2 * k);
    forall x | x in invs[i] ensures x < n {
      assert x in Range(n);
    }
    SplitsOfWellFormed(n, invs[i], k);
  }

  lemma SplitsOfWellFormed(n: nat, inv: seq<nat>, k: nat)
    requires 1 <= k <= n / 2
    requires StrictlyIncreasing(inv) && |inv| == 2 * k
    requires forall x :: x in inv ==> x < n
    ensures forall j :: 0 <= j < |SplitsOf(inv, k)| ==>
      WellFormed(SplitsOf(inv, k)[j], n) && |SplitsOf(inv, k)[j].left| == k
  {
    var lefts := Combinations(inv, k);
    CombinationsFacts(inv, k);
    forall j | 0 <= j < |lefts| ensures WellFormed(SplitsOf(inv, k)[j], n) && |SplitsOf(inv, k)[j].left| == k {
      var left := lefts[j];
      WithoutLength(inv, left);
      var w := Weighing(left, Without(inv, left));
      assert SplitsOf(inv, k)[j] == w;
      forall i | 0 <= i < |left| ensures left[i] < n {
        assert left[i] in left;
      }
      forall i | 0 <= i < |w.right| ensures w.right[i] < n {
        assert w.right[i] in w.right;
      }
    }
  }

  /** The pearls a legal weighing involves, in increasing order: the
      `pearls_involved` subset it is drawn from. */
  lemma InvolvedPearls(n: nat, w: Weighing) returns (inv: seq<nat>)
    requires WellFormed(w, n)
    ensures StrictlyIncreasing(inv) && |inv| == 2 * |w.left|
    ensures forall x :: x in inv <==> x in w.left || x in w.right
    ensures forall x :: x in inv ==> x in Range(n)
  {
    var both := w.left + w.right;
    inv := Within(Range(n), both);
    forall x | x in both ensures x in Range(n) {
      if x in w.left {
        var i :| 0 <= i < |w.left| && w.left[i] == x;
        assert x < n;
      } else {
        var i :| 0 <= i < |w.right| && w.right[i] == x;
        assert x < n;
      }
    }
    assert forall x :: x in inv <==> x in w.left || x in w.right;
    UnionCard(inv, w.left, w.right);
  }

  /** An increasing list of the values of two disjoint increasing lists is as long as both together. */
  lemma UnionCard(inv: seq<nat>, a: seq<nat>, b: seq<nat>)
    requires StrictlyIncreasing(inv) && StrictlyIncreasing(a) && StrictlyIncreasing(b)
    requires forall x :: x in a ==> x !in b
    requires forall x :: x in inv <==> x in a || x in b
    ensures |inv| == |a| + |b|
  {
    DistinctCard(inv);
    DistinctCard(a);
    DistinctCard(b);
    assert Elems(inv) == Elems(a) + Elems(b);
    assert Elems(a) * Elems(b) == {};
  }

  /** Every split of an enumerated subset is in its level. */
  lemma LevelContains(n: nat, k: nat, inv: seq<nat>, j: nat) returns (p: nat)
    requires inv in Combinations(Range(n), 2 * k) && j < |SplitsOf(inv, k)|
    ensures p < |Level(n, k)| && Level(n, k)[p] == SplitsOf(inv, k)[j]
  {
    var invs := Combinations(Range(n), 2 * k);
    var a :| 0 <= a < |invs| && invs[a] == inv;
    var splits := seq(|invs|, i requires 0 <= i < |invs| => SplitsOf(invs[i], k));
    assert splits[a] == SplitsOf(inv, k);
    p := FlattenContains(splits, a, j);
  }

  /** Every level of pan size 1 .. n/2 is part of `measures(n)`. */
  lemma MeasuresContains(n: nat, k: nat, p: nat) returns (q: nat)
    requires 1 <= k <= n / 2 && p < |Level(n, k)|
    ensures q < |Measures(n)| && Measures(n)[q] == Level(n, k)[p]
  {
    LevelsAt(n, k - 1);
    q := FlattenContains(Levels(n), k - 1, p);
  }

  /** Every legal weighing is among the splits of the pearls it involves. */
  lemma SplitOfInvolved(n: nat, w: Weighing) returns (inv: seq<nat>, j: nat)
    requires WellFormed(w, n)
    ensures inv in Combinations(Range(n), 2 * |w.left|)
    ensures j < |SplitsOf(inv, |w.left|)| && SplitsOf(inv, |w.left|)[j] == w
  {
    var k := |w.left|;
    inv := InvolvedPearls(n, w);
    CombinationsComplete(Range(n), inv);
    CombinationsComplete(inv, w.left);
    // the right pan is the sorted rest of the subset
    IncreasingUnique(Without(inv, w.left), w.right);
    var lefts := Combinations(inv, k);
    j :| 0 <= j < |lefts| && lefts[j] == w.left;
  }

  /** Every legal weighing is enumerated. */
  lemma MeasuresComplete(n: nat, w: Weighing)
    requires WellFormed(w, n)
    ensures w in Measures(n)
  {
    var inv, j := SplitOfInvolved(n, w);
    var p := LevelContains(n, |w.left|, inv, j);
    var q := MeasuresContains(n, |w.left|, p);
  }

  /** `measures(n)` yields exactly the legal weighings of n pearls. In
      particular both orientations of every pair of pans are enumerated. */
  lemma MeasuresExactly(n: nat, w: Weighing)
    ensures w in Measures(n) <==> WellFormed(w, n)
  {
    if WellFormed(w, n) {
      MeasuresComplete(n, w);
    }
    if w in Measures(n) {
      var j :| 0 <= j < |Measures(n)| && Measures(n)[j] == w;
    }
  }

  /** Swapping the pans of an enumerated weighing gives an enumerated weighing. */
  lemma MeasuresMirrored(n: nat, w: Weighing)
    requires w in Measures(n)
    ensures Weighing(w.right, w.left) in Measures(n)
  {
    MeasuresExactly(n, w);
    MeasuresExactly(n, Weighing(w.right, w.left));
  }
}
