/** `itertools.combinations` on index lists: every k-element sub-sequence,
    in lexicographic order of positions. */
module Subsets {
  import opened Sequences

  /** Puts x in front of every combination in cs. */
  function PrependAll(x: nat, cs: seq<seq<nat>>): seq<seq<nat>> {
    seq(|cs|, j requires 0 <= j < |cs| => [x] + cs[j])
  }

  /** Pascal's triangle. */
  function Binomial(n: nat, k: nat): nat {
    if k == 0 then 1 else if n == 0 then 0 else Binomial(n - 1, k - 1) + Binomial(n - 1, k)
  }

  /** All k-element sub-sequences of xs: those that take xs[0] first, then
      those that skip it, which is the order `itertools.combinations` emits.
      There are C(|xs|, k) of them. */
  function Combinations(xs: seq<nat>, k: nat): (r: seq<seq<nat>>)
    ensures |r| == Binomial(|xs|, k)
    decreases |xs|
  {
    if k == 0 then [[]]
    else if |xs| == 0 then []
    else PrependAll(xs[0], Combinations(xs[1..], k - 1)) + Combinations(xs[1..], k)
  }

  /** Every combination has k values, all taken from xs, and on an
      increasing xs every combination is increasing too. */
  lemma {:induction false} CombinationsFacts(xs: seq<nat>, k: nat)
    ensures forall j :: 0 <= j < |Combinations(xs, k)| ==> |Combinations(xs, k)[j]| == k
    ensures forall j, x :: 0 <= j < |Combinations(xs, k)| && x in Combinations(xs, k)[j] ==> x in xs
    ensures StrictlyIncreasing(xs) ==>
      forall j :: 0 <= j < |Combinations(xs, k)| ==> StrictlyIncreasing(Combinations(xs, k)[j])
    decreases |xs|
  {
    if k > 0 && |xs| > 0 {
      var taken := Combinations(xs[1..], k - 1);
      var skipped := Combinations(xs[1..], k);
      CombinationsFacts(xs[1..], k - 1);
      CombinationsFacts(xs[1..], k);
      var r := PrependAll(xs[0], taken) + skipped;
      assert Combinations(xs, k) == r;
      assert xs == [xs[0]] + xs[1..];
      forall j | 0 <= j < |r|
        ensures |r[j]| == k
        ensures forall x :: x in r[j] ==> x in xs
        ensures StrictlyIncreasing(xs) ==> StrictlyIncreasing(r[j])
      {
        if j < |taken| {
          assert r[j] == [xs[0]] + taken[j];
          if StrictlyIncreasing(xs) {
            forall y | y in taken[j] ensures xs[0] < y {
              TailAboveHead(xs, y);
            }
            PrependIncreasing(xs[0], taken[j]);
          }
        } else {
          assert r[j] == skipped[j - |taken|];
        }
      }
    }
  }

  /** Every increasing choice of k values of an increasing xs is enumerated. */
  lemma {:induction false} CombinationsComplete(xs: seq<nat>, c: seq<nat>)
    requires StrictlyIncreasing(xs) && StrictlyIncreasing(c)
    requires forall x :: x in c ==> x in xs
    ensures c in Combinations(xs, |c|)
    decreases |xs|
  {
    if |c| > 0 {
      assert c[0] in c;
      assert |xs| > 0;
      if c[0] == xs[0] {
        forall x | x in c[1..] ensures x in xs[1..] {
          TailAboveHead(c, x);
          assert x in xs;
          assert xs == [xs[0]] + xs[1..];
        }
        CombinationsComplete(xs[1..], c[1..]);
        var taken := Combinations(xs[1..], |c| - 1);
        var j :| 0 <= j < |taken| && taken[j] == c[1..];
        assert c == [xs[0]] + taken[j];
        assert PrependAll(xs[0], taken)[j] == c;
      } else {
        var k :| 0 <= k < |xs| && xs[k] == c[0];
        assert xs[0] < c[0];
        forall x | x in c ensures x in xs[1..] {
          var i :| 0 <= i < |c| && c[i] == x;
          assert c[0] <= c[i];
          assert x in xs;
          assert xs == [xs[0]] + xs[1..];
        }
        CombinationsComplete(xs[1..], c);
      }
    }
  }
}
