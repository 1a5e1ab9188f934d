/** The recursive search: `solve`, `browse_solutions`, `min_with_limit` and
    the entry point `pearl_cutting_sooner`. */
module Solver {
  import opened Scale
  import opened Weighings
  import opened Hypotheses
  import opened Partition
  import opened Powers

  /** x is the least value of s. */
  predicate IsMinOf(x: int, s: seq<int>) {
    && (exists j :: 0 <= j < |s| && x == s[j])
    && (forall j :: 0 <= j < |s| ==> x <= s[j])
  }

  /** `min(a, b)`: the smaller of the two. */
  function Min(a: int, b: int): (r: int)
    ensures r <= a && r <= b && (r == a || r == b)
  {
    if b < a then b else a
  }

  /** `min_with_limit`: a running minimum over s that returns as soon as it
      is at most limit. The first value on its own is never compared with the
      limit; the check starts with the second. The result is a value of s,
      and it is the least one unless it is at most the limit. */
  function MinWithLimit(s: seq<int>, limit: int): (r: int)
    requires |s| >= 1
    ensures exists j :: 0 <= j < |s| && r == s[j]
    ensures forall j :: 0 <= j < |s| ==> r <= s[j] || r <= limit
    decreases |s|
  {
    if |s| == 1 then s[0]
    else
      var m := Min(s[0], s[1]);
      if m <= limit then m
      else
        var rest := [m] + s[2..];
        var r := MinWithLimit(rest, limit);
        assert forall j :: 2 <= j < |s| ==> s[j] == rest[j - 1];
        assert exists j :: 0 <= j < |s| && r == s[j] by {
          var k :| 0 <= k < |rest| && r == rest[k];
          if k == 0 {
            assert r == s[0] || r == s[1];
          } else {
            assert r == s[k + 1];
          }
        }
        assert r <= m || r <= limit by {
          assert rest[0] == m;
        }
        r
  }

  /** The early exit loses nothing when no value lies below the limit: the
      result is then the least value. */
  lemma EarlyExitSound(s: seq<int>, limit: int)
    requires |s| >= 1
    requires forall j :: 0 <= j < |s| ==> limit <= s[j]
    ensures IsMinOf(MinWithLimit(s, limit), s)
  {
  }

  /** When some value is at most the limit, the search stops at one that is
      at most the limit too (but maybe not the least). */
  lemma EarlyExitBelowLimit(s: seq<int>, limit: int, i: nat)
    requires i < |s| && s[i] <= limit
    ensures MinWithLimit(s, limit) <= limit
  {
  }

  /** Where `min_with_limit` stops: after the k-th value, where k is the first
      position from 1 on at which the running minimum is at most the limit,
      or the last position. The result is the least of the values consumed,
      and every value before an exit at position 2 or later lies above the
      limit. */
  lemma {:induction false} MinWithLimitStops(s: seq<int>, limit: int) returns (k: nat)
    requires |s| >= 1
    ensures k < |s|
    ensures IsMinOf(MinWithLimit(s, limit), s[..k + 1])
    ensures k == |s| - 1 || (1 <= k && MinWithLimit(s, limit) <= limit)
    ensures forall j :: 2 <= k && 0 <= j < k ==> limit < s[j]
    decreases |s|
  {
    if |s| == 1 {
      k := 0;
      assert s[..1] == s;
    } else {
      var m := Min(s[0], s[1]);
      if m <= limit {
        k := 1;
        assert s[..2] == [s[0], s[1]];
      } else {
        var rest := [m] + s[2..];
        var kr := MinWithLimitStops(rest, limit);
        k := kr + 1;
        var r := MinWithLimit(s, limit);
        assert r == MinWithLimit(rest, limit);
        assert forall j :: 1 <= j < |rest| ==> rest[j] == s[j + 1];
        assert forall j :: 0 <= j < k ==> limit < s[j] by {
          forall j | 0 <= j < k ensures limit < s[j] {
            if j >= 2 {
              assert rest[j - 1] == s[j];
            }
          }
        }
        PrefixMin(s, rest, kr, r);
      }
    }
  }

  /** The least of the first kr + 1 values of [min(s[0], s[1])] + s[2..] is
      the least of the first kr + 2 values of s. */
  lemma PrefixMin(s: seq<int>, rest: seq<int>, kr: nat, r: int)
    requires |s| >= 2 && rest == [Min(s[0], s[1])] + s[2..] && kr < |rest|
    requires IsMinOf(r, rest[..kr + 1])
    ensures IsMinOf(r, s[..kr + 2])
  {
    var p := rest[..kr + 1];
    var q := s[..kr + 2];
    assert forall j :: 1 <= j < |p| ==> p[j] == q[j + 1];
    var i :| 0 <= i < |p| && r == p[i];
    if i == 0 {
      assert r == q[0] || r == q[1];
    } else {
      assert r == q[i + 1];
    }
    forall j | 0 <= j < |q| ensures r <= q[j] {
      if j <= 1 {
        assert r <= p[0];
      } else {
        assert r <= p[j - 1];
      }
    }
  }

  /** `solve(population, n)`: the number of weighings the search needs to
      single out the hypothesis. It is 0 for one hypothesis, and otherwise
      lies between the base-3 logarithm of the population size, rounded up,
      and the population size minus one. */
  function Solve(pop: seq<Signature>, n: nat): (r: nat)
    requires n >= 3 && ValidPopulation(pop, n)
    ensures r == 0 <==> |pop| == 1
    ensures CeilLog3(|pop|) <= r <= |pop| - 1
    decreases |pop|, 2, 0
  {
    if |pop| == 1 then 0
    else
      SplittingWeighingExists(pop, n);
      KeptAreBranchings(pop, n);
      var bss := PopulationsAfterMeasures(pop, n);
      var limit := CeilLog3(|pop|) - 1;
      var vals := BrowseSolutions(pop, n, bss);
      var m := MinWithLimit(vals, limit);
      assert CeilLog3(|pop|) - 1 <= m <= |pop| - 2 by {
        var j :| 0 <= j < |vals| && m == vals[j];
      }
      1 + m
  }

  /** `browse_solutions`: for each kept branch list, the number of weighings
      its worst branch still needs. Every such value is at least the
      population's base-3 logarithm (rounded up) minus one, because the
      largest branch holds at least a third of the population. */
  function BrowseSolutions(pop: seq<Signature>, n: nat, bss: seq<seq<seq<Signature>>>): (r: seq<nat>)
    requires n >= 3
    requires forall j :: 0 <= j < |bss| ==> IsBranching(pop, n, bss[j])
    ensures |r| == |bss|
    ensures forall j :: 0 <= j < |r| ==> CeilLog3(|pop|) - 1 <= r[j] <= |pop| - 2
    decreases |pop|, 1, 0
  {
    var r := seq(|bss|, j requires 0 <= j < |bss| =>
      assert IsBranching(pop, n, bss[j]);
      WorstCase(pop, n, bss[j]));
    assert forall j :: 0 <= j < |r| ==> CeilLog3(|pop|) - 1 <= r[j] by {
      forall j | 0 <= j < |r| ensures CeilLog3(|pop|) - 1 <= r[j] {
        LargestGroupBound(pop, n, bss[j]);
        CeilLog3OfThird(|pop|, MaxSize(bss[j]));
      }
    }
    assert forall j :: 0 <= j < |r| ==> r[j] <= |pop| - 2 by {
      forall j | 0 <= j < |r| ensures r[j] <= |pop| - 2 {
        BranchesSmaller(pop, n, bss[j]);
      }
    }
    r
  }

  /** `max(solve(b, n) for b in branches)`: the cost of the worst branch. It
      lies between the base-3 logarithm of the largest group, rounded up, and
      that group's size minus one. */
  function WorstCase(pop: seq<Signature>, n: nat, gs: seq<seq<Signature>>): (r: nat)
    requires n >= 3 && |gs| >= 1
    requires forall j :: 0 <= j < |gs| ==> ValidPopulation(gs[j], n) && |gs[j]| < |pop|
    ensures CeilLog3(MaxSize(gs)) <= r <= MaxSize(gs) - 1
    decreases |pop|, 0, 0
  {
    var costs := seq(|gs|, j requires 0 <= j < |gs| => Solve(gs[j], n));
    var r := MaxOf(costs);
    WorstOfCosts(gs, costs, r);
    r
  }

  /** The worst branch is the costliest group: one of the groups costs that
      much and none costs more. */
  lemma WorstCaseIsWorst(pop: seq<Signature>, n: nat, gs: seq<seq<Signature>>)
    requires n >= 3 && |gs| >= 1
    requires forall j :: 0 <= j < |gs| ==> ValidPopulation(gs[j], n) && |gs[j]| < |pop|
    ensures forall j :: 0 <= j < |gs| ==> Solve(gs[j], n) <= WorstCase(pop, n, gs)
    ensures exists j :: 0 <= j < |gs| && WorstCase(pop, n, gs) == Solve(gs[j], n)
  {
    var costs := seq(|gs|, j requires 0 <= j < |gs| => Solve(gs[j], n));
    var r := WorstCase(pop, n, gs);
    assert r == MaxOf(costs);
    forall j | 0 <= j < |gs| ensures Solve(gs[j], n) <= r {
      assert costs[j] == Solve(gs[j], n);
    }
    var k :| 0 <= k < |costs| && r == costs[k];
    assert costs[k] == Solve(gs[k], n);
  }

  /** `max` over a non-empty list: one of its values, and none is larger. */
  function MaxOf(s: seq<nat>): (r: nat)
    requires |s| >= 1
    ensures exists j :: 0 <= j < |s| && r == s[j]
    ensures forall j :: 0 <= j < |s| ==> s[j] <= r
  {
    if |s| == 1 then s[0]
    else
      var rest := MaxOf(s[1..]);
      assert forall j :: 1 <= j < |s| ==> s[j] == s[1..][j - 1];
      if s[0] < rest then rest else s[0]
  }

  /** The largest of per-group costs, each between the logarithm of its group
      and its size minus one, lies between the logarithm of the largest group
      and that group's size minus one. */
  lemma WorstOfCosts(gs: seq<seq<Signature>>, costs: seq<nat>, r: nat)
    requires |costs| == |gs| >= 1
    requires forall j :: 0 <= j < |gs| ==> CeilLog3(|gs[j]|) <= costs[j] <= |gs[j]| - 1
    requires exists j :: 0 <= j < |costs| && r == costs[j]
    requires forall j :: 0 <= j < |costs| ==> costs[j] <= r
    ensures CeilLog3(MaxSize(gs)) <= r <= MaxSize(gs) - 1
  {
    MaxSizeAttained(gs);
    MaxSizeBounds(gs);
    var jm :| 0 <= jm < |gs| && |gs[jm]| == MaxSize(gs);
    assert costs[jm] <= r;
    var k :| 0 <= k < |costs| && r == costs[k];
    assert |gs[k]| <= MaxSize(gs);
  }

  /** One step of the search, spelled out: the kept branch lists are all
      branchings, there is at least one, and the answer is one more than the
      early-exit minimum over their worst branches. */
  lemma SolveStep(pop: seq<Signature>, n: nat)
    requires n >= 3 && ValidPopulation(pop, n) && |pop| >= 2
    ensures |PopulationsAfterMeasures(pop, n)| >= 1
    ensures forall j :: 0 <= j < |PopulationsAfterMeasures(pop, n)| ==>
      IsBranching(pop, n, PopulationsAfterMeasures(pop, n)[j])
    ensures Solve(pop, n) == 1 + MinWithLimit(
      BrowseSolutions(pop, n, PopulationsAfterMeasures(pop, n)), CeilLog3(|pop|) - 1)
  {
    KeptBranchings(pop, n);
    var vals := BrowseSolutions(pop, n, PopulationsAfterMeasures(pop, n));
    assert Solve(pop, n) == 1 + MinWithLimit(vals, CeilLog3(|pop|) - 1);
  }

  /** The early exit of `solve` costs nothing: its answer is one more than the
      full minimum over the kept branch lists, as if every one were browsed. */
  lemma EarlyExitIsFullMinimum(pop: seq<Signature>, n: nat)
    requires n >= 3 && ValidPopulation(pop, n) && |pop| >= 2
    ensures forall j :: 0 <= j < |PopulationsAfterMeasures(pop, n)| ==>
      IsBranching(pop, n, PopulationsAfterMeasures(pop, n)[j])
    ensures IsMinOf(Solve(pop, n) - 1, BrowseSolutions(pop, n, PopulationsAfterMeasures(pop, n)))
  {
    SolveStep(pop, n);
    var vals := BrowseSolutions(pop, n, PopulationsAfterMeasures(pop, n));
    EarlyExitSound(vals, CeilLog3(|pop|) - 1);
  }

  /** The kept branch lists of a population of two or more: at least one,
      each a branching. */
  lemma KeptBranchings(pop: seq<Signature>, n: nat)
    requires n >= 3 && ValidPopulation(pop, n) && |pop| >= 2
    ensures |PopulationsAfterMeasures(pop, n)| >= 1
    ensures forall j :: 0 <= j < |PopulationsAfterMeasures(pop, n)| ==>
      IsBranching(pop, n, PopulationsAfterMeasures(pop, n)[j])
  {
    SplittingWeighingExists(pop, n);
    KeptAreBranchings(pop, n);
  }

  /** The value browsed for the i-th kept branch list is its worst branch. */
  lemma BrowseAt(pop: seq<Signature>, n: nat, bss: seq<seq<seq<Signature>>>, i: nat)
    requires n >= 3
    requires forall j :: 0 <= j < |bss| ==> IsBranching(pop, n, bss[j])
    requires i < |bss|
    ensures BrowseSolutions(pop, n, bss)[i] == WorstCase(pop, n, bss[i])
  {
  }

  /** The search settles on one of the informative legal weighings: its
      answer is one more than the cost of that weighing's worst branch. */
  lemma SolveChoosesWeighing(pop: seq<Signature>, n: nat) returns (w: Weighing)
    requires n >= 3 && ValidPopulation(pop, n) && |pop| >= 2
    ensures WellFormed(w, n)
    ensures IsBranching(pop, n, Branches(pop, n, w))
    ensures Solve(pop, n) == 1 + WorstCase(pop, n, Branches(pop, n, w))
  {
    SolveStep(pop, n);
    var bss := PopulationsAfterMeasures(pop, n);
    var vals := BrowseSolutions(pop, n, bss);
    var m := MinWithLimit(vals, CeilLog3(|pop|) - 1);
    var i :| 0 <= i < |vals| && m == vals[i];
    BrowseAt(pop, n, bss, i);
    w := KeptComesFromWeighing(pop, n, bss, i);
    MeasuresExactly(n, w);
  }

  /** No informative legal weighing does better than the search's answer,
      the early exit notwithstanding: stopping only happens at the lower
      bound that every weighing's worst branch respects. */
  lemma SolveBeatsEveryWeighing(pop: seq<Signature>, n: nat, w: Weighing)
    requires n >= 3 && ValidPopulation(pop, n) && WellFormed(w, n)
    requires IsBranching(pop, n, Branches(pop, n, w))
    ensures Solve(pop, n) <= 1 + WorstCase(pop, n, Branches(pop, n, w))
  {
    var bs := Branches(pop, n, w);
    assert |pop| >= 2 by {
      assert ValidPopulation(bs[0], n) && |bs[0]| < |pop|;
    }
    SolveStep(pop, n);
    MeasuresExactly(n, w);
    var i := InformativeIsKept(pop, n, w);
    var bss := PopulationsAfterMeasures(pop, n);
    BrowseAt(pop, n, bss, i);
    var vals := BrowseSolutions(pop, n, bss);
    var limit := CeilLog3(|pop|) - 1;
    var m := MinWithLimit(vals, limit);
    assert m <= vals[i] || m <= limit;
    assert limit <= vals[i];
  }

  /** The worst branch of a branching is smaller than the population by at least one. */
  lemma BranchesSmaller(pop: seq<Signature>, n: nat, bs: seq<seq<Signature>>)
    requires IsBranching(pop, n, bs)
    ensures MaxSize(bs) <= |pop| - 1
  {
    MaxSizeAttained(bs);
  }

  /** The answer of `pearl_cutting_sooner`: None means the puzzle has no
      solution for that many pearls. */
  datatype Option<T> = None | Some(value: T)

  /** `pearl_cutting_sooner(n)`: nothing for n <= 2; otherwise the number of
      weighings needed for the 2n hypotheses "pearl i is heavy" and "pearl i
      is light", which is at least log3(2n) rounded up and below 2n. */
  function PearlCuttingSooner(n: int): (r: Option<nat>)
    ensures r.None? <==> n <= 2
    ensures r.Some? ==> CeilLog3(2 * n) <= r.value <= 2 * n - 1
  {
    if n <= 2 then None
    else Some(Solve(InitialPopulation(n), n))
  }
}
