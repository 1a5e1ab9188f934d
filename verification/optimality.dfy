/** What the answer of the search means: `solve` returns the least depth of a
    weighing strategy that singles out the hypothesis. A strategy may use any
    legal weighing (exactly those `measures(n)` enumerates) and may choose
    the next weighing after seeing the previous outcomes. */
module Optimality {
  import opened Scale
  import opened Weighings
  import opened Hypotheses
  import opened Partition
  import opened Powers
  import opened Solver

  /** A decision tree of weighings: stop, or weigh w and go on with the
      strategy next[j] when the outcome is that of the j-th group of w. */
  datatype Strategy = Done | Weigh(w: Weighing, next: seq<Strategy>)

  /** The number of weighings the strategy makes in the worst case. */
  function Depth(s: Strategy): nat {
    match s
    case Done => 0
    case Weigh(_, next) =>
      if next == [] then 1 else 1 + MaxOf(NextDepths(next))
  }

  /** The depths of the continuations. */
  function NextDepths(next: seq<Strategy>): seq<nat> {
    seq(|next|, j requires 0 <= j < |next| => Depth(next[j]))
  }

  /** Every continuation is shallower than the strategy. */
  lemma DepthOfNext(s: Strategy, j: nat)
    requires s.Weigh? && j < |s.next|
    ensures Depth(s.next[j]) < Depth(s)
  {
    assert NextDepths(s.next)[j] == Depth(s.next[j]);
  }

  /** The strategy ends with at most one hypothesis left on every path:
      every weighing is legal and has one continuation per outcome group. */
  predicate Identifies(s: Strategy, pop: seq<Signature>, n: nat)
    requires PopulationOver(pop, n)
  {
    match s
    case Done => |pop| <= 1
    case Weigh(w, next) =>
      && WellFormed(w, n)
      && |next| == |Branches(pop, n, w)|
      && forall j :: 0 <= j < |next| ==> Identifies(next[j], Branches(pop, n, w)[j], n)
  }

  /** A strategy of depth d tells apart at most 3^d hypotheses: each
      weighing has three outcomes. */
  lemma {:induction false} StrategyLowerBound(s: Strategy, pop: seq<Signature>, n: nat)
    requires PopulationOver(pop, n) && Identifies(s, pop, n)
    ensures |pop| <= Pow3(Depth(s))
    decreases s, 1
  {
    if s.Weigh? {
      var bs := Branches(pop, n, s.w);
      forall j | 0 <= j < |bs| ensures |bs[j]| <= Pow3(Depth(s) - 1) {
        BranchLowerBound(s, bs[j], n, j);
      }
      assert Depth(s) >= 1;
      var p := Pow3(Depth(s) - 1);
      Pow3Succ(Depth(s));
      BranchesUnion(pop, n, s.w);
      SumSizesBound(bs, p);
      AtMostThreeTimes(|bs|, p);
    }
  }

  /** Each group after the first weighing is within the power of three the
      rest of the strategy allows. */
  lemma {:induction false} BranchLowerBound(s: Strategy, g: seq<Signature>, n: nat, j: nat)
    requires s.Weigh? && j < |s.next|
    requires PopulationOver(g, n) && Identifies(s.next[j], g, n)
    ensures Depth(s) >= 1 && |g| <= Pow3(Depth(s) - 1)
    decreases s, 0
  {
    StrategyLowerBound(s.next[j], g, n);
    WithinNextDepth(s, j, |g|);
  }

  /** What fits in 3^(depth of a continuation) fits in 3^(depth - 1). */
  lemma WithinNextDepth(s: Strategy, j: nat, x: nat)
    requires s.Weigh? && j < |s.next| && x <= Pow3(Depth(s.next[j]))
    ensures Depth(s) >= 1 && x <= Pow3(Depth(s) - 1)
  {
    DepthOfNext(s, j);
    Pow3Below(Depth(s.next[j]), Depth(s));
  }

  lemma AtMostThreeTimes(k: nat, p: nat)
    requires k <= 3
    ensures k * p <= 3 * p
  {
    if k < 3 {
      assert k * p <= 2 * p by {
        if k < 2 {
          assert k * p <= p;
        }
      }
    }
  }

  /** No strategy beats the search: every strategy that identifies the
      hypothesis makes at least Solve(pop, n) weighings in the worst case. */
  lemma {:induction false} SolveIsMinimal(s: Strategy, pop: seq<Signature>, n: nat)
    requires n >= 3 && ValidPopulation(pop, n) && Identifies(s, pop, n)
    ensures Solve(pop, n) <= Depth(s)
  {
    if s.Weigh? && |pop| > 1 {
      var bs := Branches(pop, n, s.w);
      BranchesUnion(pop, n, s.w);
      if |bs| >= 2 {
        InformativeBranching(pop, n, s.w);
        forall j | 0 <= j < |bs| ensures Solve(bs[j], n) <= Depth(s) - 1 {
          SolveIsMinimal(s.next[j], bs[j], n);
          DepthOfNext(s, j);
        }
        WorstCaseIsWorst(pop, n, bs);
        SolveBeatsEveryWeighing(pop, n, s.w);
      } else {
        // the weighing tells nothing: the whole population goes on to next[0]
        assert |bs| == 1;
        SingleBranchIsWhole(pop, n, s.w);
        SolveIsMinimal(s.next[0], pop, n);
        DepthOfNext(s, 0);
      }
    }
  }

  /** w is a weighing the search may settle on: legal, informative, and
      its worst branch costs one weighing less than the whole search. */
  predicate SearchMayChoose(pop: seq<Signature>, n: nat, w: Weighing)
    requires n >= 3 && ValidPopulation(pop, n)
  {
    && WellFormed(w, n)
    && IsBranching(pop, n, Branches(pop, n, w))
    && Solve(pop, n) == 1 + WorstCase(pop, n, Branches(pop, n, w))
  }

  lemma SearchCanChoose(pop: seq<Signature>, n: nat) returns (w: Weighing)
    requires n >= 3 && ValidPopulation(pop, n) && |pop| >= 2
    ensures SearchMayChoose(pop, n, w)
  {
    w := SolveChoosesWeighing(pop, n);
  }

  /** The strategy that weighs as the search chooses at every step. */
  ghost function SearchStrategy(pop: seq<Signature>, n: nat): Strategy
    requires n >= 3 && ValidPopulation(pop, n)
    decreases |pop|, 1
  {
    if |pop| == 1 then Done
    else
      assert exists w :: SearchMayChoose(pop, n, w) by {
        var w := SearchCanChoose(pop, n);
      }
      var w :| SearchMayChoose(pop, n, w);
      var bs := Branches(pop, n, w);
      assert IsBranching(pop, n, bs);
      Weigh(w, SearchNext(bs, n, |pop|))
  }

  /** The search strategy of every group, each smaller than m. */
  ghost function SearchNext(bs: seq<seq<Signature>>, n: nat, m: nat): (r: seq<Strategy>)
    requires n >= 3
    requires forall j :: 0 <= j < |bs| ==> ValidPopulation(bs[j], n) && |bs[j]| < m
    ensures |r| == |bs|
    decreases m, 0
  {
    seq(|bs|, j requires 0 <= j < |bs| => SearchStrategy(bs[j], n))
  }

  /** One level of SearchStrategy: a legal weighing that the search may
      choose, followed by the search strategy of every group. */
  lemma SearchStrategyStep(pop: seq<Signature>, n: nat) returns (w: Weighing, bs: seq<seq<Signature>>)
    requires n >= 3 && ValidPopulation(pop, n) && |pop| >= 2
    ensures SearchMayChoose(pop, n, w) && bs == Branches(pop, n, w)
    ensures SearchStrategy(pop, n).Weigh? && SearchStrategy(pop, n).w == w
    ensures SearchStrategy(pop, n).next == SearchNext(bs, n, |pop|)
  {
    w := SearchStrategy(pop, n).w;
    bs := Branches(pop, n, w);
  }

  /** A strategy is one weighing deeper than its deepest continuation. */
  lemma DepthFromNext(s: Strategy, x: nat, k: nat)
    requires s.Weigh? && k < |s.next| && Depth(s.next[k]) == x
    requires forall j :: 0 <= j < |s.next| ==> Depth(s.next[j]) <= x
    ensures Depth(s) == 1 + x
  {
    var ds := NextDepths(s.next);
    var r := MaxOf(ds);
    assert ds[k] == x;
    var i :| 0 <= i < |ds| && r == ds[i];
  }

  /** The search's answer is achievable: weighing as the search chooses at
      every step identifies the hypothesis within exactly Solve(pop, n) weighings. */
  lemma {:induction false} SolveIsAchievable(pop: seq<Signature>, n: nat)
    requires n >= 3 && ValidPopulation(pop, n)
    ensures Identifies(SearchStrategy(pop, n), pop, n)
    ensures Depth(SearchStrategy(pop, n)) == Solve(pop, n)
    decreases |pop|
  {
    if |pop| > 1 {
      var w, bs := SearchStrategyStep(pop, n);
      var next := SearchNext(bs, n, |pop|);
      forall j | 0 <= j < |bs|
        ensures Identifies(next[j], bs[j], n) && Depth(next[j]) == Solve(bs[j], n)
      {
        assert next[j] == SearchStrategy(bs[j], n);
        SolveIsAchievable(bs[j], n);
      }
      assert SearchStrategy(pop, n) == Weigh(w, next);
      WeighIdentifies(pop, n, w, next);
      WeighDepth(pop, n, w, bs, next);
      assert Solve(pop, n) == 1 + WorstCase(pop, n, bs);
    }
  }

  /** Weighing w and going on with strategies that identify each group
      identifies the population. */
  lemma WeighIdentifies(pop: seq<Signature>, n: nat, w: Weighing, next: seq<Strategy>)
    requires PopulationOver(pop, n) && WellFormed(w, n) && |next| == |Branches(pop, n, w)|
    requires forall j :: 0 <= j < |next| ==> Identifies(next[j], Branches(pop, n, w)[j], n)
    ensures Identifies(Weigh(w, next), pop, n)
  {
  }

  /** Weighing and going on with strategies exactly as deep as the search's
      answer for each group costs one more than the worst group. */
  lemma WeighDepth(pop: seq<Signature>, n: nat, w: Weighing, bs: seq<seq<Signature>>, next: seq<Strategy>)
    requires n >= 3 && IsBranching(pop, n, bs) && |next| == |bs|
    requires forall j :: 0 <= j < |bs| ==> Depth(next[j]) == Solve(bs[j], n)
    ensures Depth(Weigh(w, next)) == 1 + WorstCase(pop, n, bs)
  {
    WorstCaseIsWorst(pop, n, bs);
    var k :| 0 <= k < |bs| && WorstCase(pop, n, bs) == Solve(bs[k], n);
    forall j | 0 <= j < |next| ensures Depth(Weigh(w, next).next[j]) <= WorstCase(pop, n, bs) {
      assert Depth(next[j]) == Solve(bs[j], n);
    }
    DepthFromNext(Weigh(w, next), WorstCase(pop, n, bs), k);
  }

  /** `solve` returns exactly the least worst-case number of weighings that
      identifies the hypothesis: some strategy needs that many, none fewer. */
  lemma SolveIsOptimal(pop: seq<Signature>, n: nat)
    requires n >= 3 && ValidPopulation(pop, n)
    ensures exists s :: Identifies(s, pop, n) && Depth(s) == Solve(pop, n)
    ensures forall s :: Identifies(s, pop, n) ==> Solve(pop, n) <= Depth(s)
  {
    SolveIsAchievable(pop, n);
    forall s | Identifies(s, pop, n) ensures Solve(pop, n) <= Depth(s) {
      SolveIsMinimal(s, pop, n);
    }
  }

  /** The answer of `pearl_cutting_sooner(n)` for n >= 3 is the least number
      of weighings that finds the odd pearl among n and tells whether it is
      heavy or light. */
  lemma PuzzleAnswerIsOptimal(n: nat)
    requires n >= 3
    ensures PearlCuttingSooner(n).Some?
    ensures exists s :: Identifies(s, InitialPopulation(n), n) && Depth(s) == PearlCuttingSooner(n).value
    ensures forall s :: Identifies(s, InitialPopulation(n), n) ==> PearlCuttingSooner(n).value <= Depth(s)
  {
    SolveIsOptimal(InitialPopulation(n), n);
  }
}
