/** The outcome partitioner `populations_after_measures`: for each weighing,
    the population grouped by outcome; only weighings that give at least two
    groups are kept, ordered by the size of their largest group. */
module Partition {
  import opened Sequences
  import opened Scale
  import opened Weighings
  import opened Hypotheses

  /** The outcomes in the order the groups are listed. */
  const AllOutcomes: seq<Outcome> := [LeftLighter, Balanced, LeftHeavier]

  /** The configurations of pop whose outcome under w is o, in population
      order: the list `measure_results[o]` after the loop at lines 30-32. */
  function Group(pop: seq<Signature>, n: nat, w: Weighing, o: Outcome): (r: seq<Signature>)
    requires PopulationOver(pop, n) && PansWithin(w, n)
    ensures forall c :: c in r <==> c in pop && Measure(c, w) == o
    ensures |r| <= |pop|
  {
    if pop == [] then []
    else
      assert pop == [pop[0]] + pop[1..];
      (if Measure(pop[0], w) == o then [pop[0]] else []) + Group(pop[1..], n, w, o)
  }

  /** A group of a duplicate-free population is duplicate-free. */
  lemma {:induction false} GroupDistinct(pop: seq<Signature>, n: nat, w: Weighing, o: Outcome)
    requires PopulationOver(pop, n) && PansWithin(w, n) && Distinct(pop)
    ensures Distinct(Group(pop, n, w, o))
  {
    if pop != [] {
      var rest := Group(pop[1..], n, w, o);
      DistinctTail(pop);
      GroupDistinct(pop[1..], n, w, o);
      if Measure(pop[0], w) == o {
        assert Group(pop, n, w, o) == [pop[0]] + rest;
        DistinctCons(pop[0], rest);
      } else {
        assert Group(pop, n, w, o) == rest;
      }
    }
  }

  /** The three outcome groups together hold the population exactly once. */
  lemma {:induction false} GroupsPartition(pop: seq<Signature>, n: nat, w: Weighing)
    requires PopulationOver(pop, n) && PansWithin(w, n)
    ensures multiset(Group(pop, n, w, LeftLighter)) + multiset(Group(pop, n, w, Balanced))
            + multiset(Group(pop, n, w, LeftHeavier)) == multiset(pop)
  {
    if pop != [] {
      assert pop == [pop[0]] + pop[1..];
      GroupsPartition(pop[1..], n, w);
    }
  }

  /** The outcomes of os that some configuration of pop produces, in the order of os. */
  function PresentOutcomes(pop: seq<Signature>, n: nat, w: Weighing, os: seq<Outcome>): (r: seq<Outcome>)
    requires PopulationOver(pop, n) && PansWithin(w, n)
    ensures forall o :: o in r <==> o in os && |Group(pop, n, w, o)| > 0
    ensures Distinct(os) ==> Distinct(r)
    ensures |r| <= |os|
  {
    if os == [] then []
    else
      assert os == [os[0]] + os[1..];
      assert Distinct(os) ==> os[0] !in os[1..] by {
        assert forall k :: 0 <= k < |os[1..]| ==> os[1..][k] == os[k + 1];
      }
      (if |Group(pop, n, w, os[0])| > 0 then [os[0]] else []) + PresentOutcomes(pop, n, w, os[1..])
  }

  /** The group of each outcome in os. */
  function GroupsOf(pop: seq<Signature>, n: nat, w: Weighing, os: seq<Outcome>): seq<seq<Signature>>
    requires PopulationOver(pop, n) && PansWithin(w, n)
  {
    seq(|os|, j requires 0 <= j < |os| => Group(pop, n, w, os[j]))
  }

  /** The outcomes that occur when weighing w is applied to pop: the keys of
      `measure_results`. */
  function BranchOutcomes(pop: seq<Signature>, n: nat, w: Weighing): seq<Outcome>
    requires PopulationOver(pop, n) && PansWithin(w, n)
  {
    PresentOutcomes(pop, n, w, AllOutcomes)
  }

  /** `measure_results.values()`: the non-empty outcome groups of weighing w. */
  function Branches(pop: seq<Signature>, n: nat, w: Weighing): (r: seq<seq<Signature>>)
    requires PopulationOver(pop, n) && PansWithin(w, n)
    ensures |r| <= 3
    ensures forall j :: 0 <= j < |r| ==> PopulationOver(r[j], n)
  {
    GroupsOf(pop, n, w, BranchOutcomes(pop, n, w))
  }

  /** Sum of the sizes of the groups. */
  function SumSizes(gs: seq<seq<Signature>>): nat {
    if gs == [] then 0 else |gs[0]| + SumSizes(gs[1..])
  }

  /** The groups put back together, as a multiset. */
  function Union(gs: seq<seq<Signature>>): multiset<Signature> {
    if gs == [] then multiset{} else multiset(gs[0]) + Union(gs[1..])
  }

  /** `max(map(len, x))`: the size of the largest group (0 when there are none). */
  function MaxSize(gs: seq<seq<Signature>>): nat {
    if gs == [] then 0
    else if |gs[0]| >= MaxSize(gs[1..]) then |gs[0]|
    else MaxSize(gs[1..])
  }

  lemma {:induction false} MaxSizeBounds(gs: seq<seq<Signature>>)
    ensures forall j :: 0 <= j < |gs| ==> |gs[j]| <= MaxSize(gs)
  {
    if gs != [] {
      MaxSizeBounds(gs[1..]);
      assert forall j :: 1 <= j < |gs| ==> gs[j] == gs[1..][j - 1];
    }
  }

  lemma {:induction false} MaxSizeAttained(gs: seq<seq<Signature>>)
    requires |gs| >= 1
    ensures exists j :: 0 <= j < |gs| && |gs[j]| == MaxSize(gs)
  {
    if |gs[0]| < MaxSize(gs[1..]) {
      MaxSizeAttained(gs[1..]);
      var j :| 0 <= j < |gs[1..]| && |gs[1..][j]| == MaxSize(gs[1..]);
      assert gs[j + 1] == gs[1..][j];
    }
  }

  lemma {:induction false} UnionSize(gs: seq<seq<Signature>>)
    ensures |Union(gs)| == SumSizes(gs)
  {
    if gs != [] {
      UnionSize(gs[1..]);
    }
  }

  /** The multisets of the groups of os, added up. */
  function GroupMultisets(pop: seq<Signature>, n: nat, w: Weighing, os: seq<Outcome>): multiset<Signature>
    requires PopulationOver(pop, n) && PansWithin(w, n)
  {
    if os == [] then multiset{} else multiset(Group(pop, n, w, os[0])) + GroupMultisets(pop, n, w, os[1..])
  }

  lemma {:induction false} UnionOfGroups(pop: seq<Signature>, n: nat, w: Weighing, os: seq<Outcome>)
    requires PopulationOver(pop, n) && PansWithin(w, n)
    ensures Union(GroupsOf(pop, n, w, os)) == GroupMultisets(pop, n, w, os)
  {
    if os != [] {
      UnionOfGroups(pop, n, w, os[1..]);
      assert GroupsOf(pop, n, w, os)[1..] == GroupsOf(pop, n, w, os[1..]);
    }
  }

  /** Leaving out the outcomes nobody produces loses nothing. */
  lemma {:induction false} PresentOutcomesLoseNothing(pop: seq<Signature>, n: nat, w: Weighing, os: seq<Outcome>)
    requires PopulationOver(pop, n) && PansWithin(w, n)
    ensures GroupMultisets(pop, n, w, PresentOutcomes(pop, n, w, os)) == GroupMultisets(pop, n, w, os)
  {
    if os != [] {
      PresentOutcomesLoseNothing(pop, n, w, os[1..]);
      var g := Group(pop, n, w, os[0]);
      var rest := PresentOutcomes(pop, n, w, os[1..]);
      if |g| > 0 {
        var p := [os[0]] + rest;
        assert PresentOutcomes(pop, n, w, os) == p;
        assert p[0] == os[0] && p[1..] == rest;
        assert GroupMultisets(pop, n, w, p) == multiset(g) + GroupMultisets(pop, n, w, rest);
      } else {
        assert PresentOutcomes(pop, n, w, os) == rest;
        assert g == [];
      }
    }
  }

  lemma AllGroupMultisets(pop: seq<Signature>, n: nat, w: Weighing)
    requires PopulationOver(pop, n) && PansWithin(w, n)
    ensures GroupMultisets(pop, n, w, AllOutcomes) == multiset(pop)
  {
    var l, b, h := Group(pop, n, w, LeftLighter), Group(pop, n, w, Balanced), Group(pop, n, w, LeftHeavier);
    assert AllOutcomes[1..] == [Balanced, LeftHeavier];
    assert [Balanced, LeftHeavier][1..] == [LeftHeavier];
    assert [LeftHeavier][1..] == [];
    assert GroupMultisets(pop, n, w, [LeftHeavier]) == multiset(h);
    assert GroupMultisets(pop, n, w, [Balanced, LeftHeavier]) == multiset(b) + multiset(h);
    assert GroupMultisets(pop, n, w, AllOutcomes) == multiset(l) + (multiset(b) + multiset(h));
    GroupsPartition(pop, n, w);
  }

  /** The outcome groups of a weighing partition the population: each group
      is non-empty and holds exactly the configurations of its own outcome,
      no outcome has two groups (so every configuration lies in exactly one
      group), and the groups together are the population as a multiset. */
  lemma BranchesPartition(pop: seq<Signature>, n: nat, w: Weighing)
    requires PopulationOver(pop, n) && PansWithin(w, n)
    ensures var r := Branches(pop, n, w);
            var os := BranchOutcomes(pop, n, w);
      && |r| == |os| && Distinct(os)
      && (forall j :: 0 <= j < |r| ==> |r[j]| >= 1)
      && (forall j, c :: 0 <= j < |r| ==> (c in r[j] <==> c in pop && Measure(c, w) == os[j]))
      && (forall c :: c in pop ==> exists j :: 0 <= j < |r| && c in r[j])
      && (forall j, k, c :: 0 <= j < |r| && 0 <= k < |r| && c in r[j] && c in r[k] ==> j == k)
      && Union(r) == multiset(pop)
      && SumSizes(r) == |pop|
  {
    BranchesAreGroups(pop, n, w);
    BranchesCover(pop, n, w);
    BranchesUnion(pop, n, w);
  }

  /** Each branch is the non-empty group of its own outcome, and no outcome occurs twice. */
  lemma BranchesAreGroups(pop: seq<Signature>, n: nat, w: Weighing)
    requires PopulationOver(pop, n) && PansWithin(w, n)
    ensures var r := Branches(pop, n, w);
            var os := BranchOutcomes(pop, n, w);
      && |r| == |os| && Distinct(os)
      && (forall j :: 0 <= j < |r| ==> r[j] == Group(pop, n, w, os[j]) && |r[j]| >= 1)
  {
    var r := Branches(pop, n, w);
    var os := BranchOutcomes(pop, n, w);
    assert Distinct(AllOutcomes);
    forall j | 0 <= j < |r| ensures r[j] == Group(pop, n, w, os[j]) && |r[j]| >= 1 {
      assert os[j] in os;
    }
  }

  /** Every configuration lies in exactly one branch. */
  lemma BranchesCover(pop: seq<Signature>, n: nat, w: Weighing)
    requires PopulationOver(pop, n) && PansWithin(w, n)
    ensures var r := Branches(pop, n, w);
      && (forall c :: c in pop ==> exists j :: 0 <= j < |r| && c in r[j])
      && (forall j, k, c :: 0 <= j < |r| && 0 <= k < |r| && c in r[j] && c in r[k] ==> j == k)
  {
    var r := Branches(pop, n, w);
    var os := BranchOutcomes(pop, n, w);
    BranchesAreGroups(pop, n, w);
    forall c | c in pop ensures exists j :: 0 <= j < |r| && c in r[j] {
      var o := Measure(c, w);
      assert o in AllOutcomes;
      assert c in Group(pop, n, w, o);
      assert o in os;
      var j :| 0 <= j < |os| && os[j] == o;
      assert c in r[j];
    }
    forall j, k, c | 0 <= j < |r| && 0 <= k < |r| && c in r[j] && c in r[k] ensures j == k {
      assert Measure(c, w) == os[j] && Measure(c, w) == os[k];
    }
  }

  /** The branches together are the population, as a multiset. */
  lemma BranchesUnion(pop: seq<Signature>, n: nat, w: Weighing)
    requires PopulationOver(pop, n) && PansWithin(w, n)
    ensures Union(Branches(pop, n, w)) == multiset(pop)
    ensures SumSizes(Branches(pop, n, w)) == |pop|
  {
    var os := BranchOutcomes(pop, n, w);
    UnionOfGroups(pop, n, w, os);
    PresentOutcomesLoseNothing(pop, n, w, AllOutcomes);
    AllGroupMultisets(pop, n, w);
    UnionSize(Branches(pop, n, w));
  }

  /** A weighing is informative (at least two groups) exactly when two
      configurations of the population disagree on its outcome. */
  lemma InformativeIffSplits(pop: seq<Signature>, n: nat, w: Weighing)
    requires PopulationOver(pop, n) && PansWithin(w, n)
    ensures |Branches(pop, n, w)| >= 2 <==>
      exists a, b :: a in pop && b in pop && Measure(a, w) != Measure(b, w)
  {
    if |Branches(pop, n, w)| >= 2 {
      InformativeSplits(pop, n, w);
    }
    if exists a, b :: a in pop && b in pop && Measure(a, w) != Measure(b, w) {
      var a, b :| a in pop && b in pop && Measure(a, w) != Measure(b, w);
      SplitsAreInformative(pop, n, w, a, b);
    }
  }

  lemma InformativeSplits(pop: seq<Signature>, n: nat, w: Weighing)
    requires PopulationOver(pop, n) && PansWithin(w, n)
    requires |Branches(pop, n, w)| >= 2
    ensures exists a, b :: a in pop && b in pop && Measure(a, w) != Measure(b, w)
  {
    var r := Branches(pop, n, w);
    var os := BranchOutcomes(pop, n, w);
    BranchesAreGroups(pop, n, w);
    var a, b := r[0][0], r[1][0];
    assert a in r[0] && b in r[1];
    assert a in pop && Measure(a, w) == os[0];
    assert b in pop && Measure(b, w) == os[1];
  }

  lemma SplitsAreInformative(pop: seq<Signature>, n: nat, w: Weighing, a: Signature, b: Signature)
    requires PopulationOver(pop, n) && PansWithin(w, n)
    requires a in pop && b in pop && Measure(a, w) != Measure(b, w)
    ensures |Branches(pop, n, w)| >= 2
  {
    var r := Branches(pop, n, w);
    var os := BranchOutcomes(pop, n, w);
    BranchesAreGroups(pop, n, w);
    BranchesCover(pop, n, w);
    var ja :| 0 <= ja < |r| && a in r[ja];
    var jb :| 0 <= jb < |r| && b in r[jb];
    assert Measure(a, w) == os[ja] && Measure(b, w) == os[jb];
    assert ja != jb;
  }

  /** When a weighing is not informative its only group is the whole population. */
  lemma SingleBranchIsWhole(pop: seq<Signature>, n: nat, w: Weighing)
    requires PopulationOver(pop, n) && PansWithin(w, n)
    requires |Branches(pop, n, w)| == 1
    ensures Branches(pop, n, w)[0] == pop
  {
    var r := Branches(pop, n, w);
    var os := BranchOutcomes(pop, n, w);
    BranchesAreGroups(pop, n, w);
    BranchesCover(pop, n, w);
    forall c | c in pop ensures Measure(c, w) == os[0] {
      var j :| 0 <= j < |r| && c in r[j];
      assert j == 0;
    }
    GroupIsWhole(pop, n, w, os[0]);
  }

  /** The group of an outcome every configuration produces is the population. */
  lemma {:induction false} GroupIsWhole(pop: seq<Signature>, n: nat, w: Weighing, o: Outcome)
    requires PopulationOver(pop, n) && PansWithin(w, n)
    requires forall c :: c in pop ==> Measure(c, w) == o
    ensures Group(pop, n, w, o) == pop
  {
    if pop != [] {
      assert pop == [pop[0]] + pop[1..];
      assert Measure(pop[0], w) == o;
      GroupIsWhole(pop[1..], n, w, o);
    }
  }

  /** Two distinct groups each take something from the total. */
  lemma {:induction false} SumSizesOfTwo(gs: seq<seq<Signature>>, j: nat, k: nat)
    requires j < k < |gs|
    ensures SumSizes(gs) >= |gs[j]| + |gs[k]|
  {
    if j == 0 {
      SumSizesAtLeast(gs[1..], k - 1);
    } else {
      SumSizesOfTwo(gs[1..], j - 1, k - 1);
    }
  }

  lemma {:induction false} SumSizesAtLeast(gs: seq<seq<Signature>>, k: nat)
    requires k < |gs|
    ensures SumSizes(gs) >= |gs[k]|
  {
    if k > 0 {
      SumSizesAtLeast(gs[1..], k - 1);
    }
  }

  /** No group is larger than the largest, so m groups hold at most m times it. */
  lemma {:induction false} SumSizesBound(gs: seq<seq<Signature>>, m: nat)
    requires forall j :: 0 <= j < |gs| ==> |gs[j]| <= m
    ensures SumSizes(gs) <= |gs| * m
  {
    if gs != [] {
      SumSizesBound(gs[1..], m);
      assert (|gs| - 1) * m + m == |gs| * m;
    }
  }

  /** What the recursive search needs of the groups of a kept weighing: two
      or three groups of valid hypotheses, each strictly smaller than the
      population, whose sizes add up to it. */
  predicate IsBranching(pop: seq<Signature>, n: nat, bs: seq<seq<Signature>>) {
    && 2 <= |bs| <= 3
    && SumSizes(bs) == |pop|
    && forall j :: 0 <= j < |bs| ==> ValidPopulation(bs[j], n) && |bs[j]| < |pop|
  }

  /** Every group of an informative weighing of a valid population is a
      valid population strictly smaller than it. */
  lemma InformativeBranching(pop: seq<Signature>, n: nat, w: Weighing)
    requires ValidPopulation(pop, n) && PansWithin(w, n)
    requires |Branches(pop, n, w)| >= 2
    ensures IsBranching(pop, n, Branches(pop, n, w))
  {
    var r := Branches(pop, n, w);
    var os := BranchOutcomes(pop, n, w);
    BranchesPartition(pop, n, w);
    forall j | 0 <= j < |r| ensures ValidPopulation(r[j], n) && |r[j]| < |pop| {
      assert r[j] == Group(pop, n, w, os[j]);
      GroupDistinct(pop, n, w, os[j]);
      var k := if j == 0 then 1 else 0;
      if j < k {
        SumSizesOfTwo(r, j, k);
      } else {
        SumSizesOfTwo(r, k, j);
      }
    }
  }

  /** The largest of at most three groups that make up the population holds
      at least a third of it. */
  lemma LargestGroupBound(pop: seq<Signature>, n: nat, bs: seq<seq<Signature>>)
    requires IsBranching(pop, n, bs)
    ensures |pop| <= 3 * MaxSize(bs)
  {
    MaxSizeBounds(bs);
    SumSizesBound(bs, MaxSize(bs));
    assert |bs| * MaxSize(bs) <= 3 * MaxSize(bs);
  }

  /** Line 33: keeps the branch lists with more than one group, in order. */
  function KeepInformative(bss: seq<seq<seq<Signature>>>): (r: seq<seq<seq<Signature>>>)
    ensures forall bs :: bs in r <==> bs in bss && |bs| >= 2
  {
    if bss == [] then []
    else
      assert bss == [bss[0]] + bss[1..];
      (if |bss[0]| >= 2 then [bss[0]] else []) + KeepInformative(bss[1..])
  }

  /** The outcome groups of every weighing in ws, in order (lines 28-32). */
  function AllBranches(pop: seq<Signature>, n: nat, ws: seq<Weighing>): (r: seq<seq<seq<Signature>>>)
    requires PopulationOver(pop, n)
    requires forall i :: 0 <= i < |ws| ==> PansWithin(ws[i], n)
    ensures |r| == |ws|
    ensures forall i :: 0 <= i < |r| ==> |r[i]| <= 3
  {
    seq(|ws|, i requires 0 <= i < |ws| => Branches(pop, n, ws[i]))
  }

  /** True iff the branch lists are ordered by non-decreasing largest group. */
  predicate SortedByLargest(bss: seq<seq<seq<Signature>>>) {
    forall i, j :: 0 <= i < j < |bss| ==> MaxSize(bss[i]) <= MaxSize(bss[j])
  }

  lemma PrependSorted(bs: seq<seq<Signature>>, bss: seq<seq<seq<Signature>>>)
    requires SortedByLargest(bss)
    requires forall k :: 0 <= k < |bss| ==> MaxSize(bs) <= MaxSize(bss[k])
    ensures SortedByLargest([bs] + bss)
  {
    var t := [bs] + bss;
    assert forall k :: 0 < k < |t| ==> t[k] == bss[k - 1];
  }

  /** A lower bound on the keys of bs and of every list in bss bounds every
      list of a rearrangement of them. */
  lemma BoundSurvivesInsert(m: nat, bs: seq<seq<Signature>>, bss: seq<seq<seq<Signature>>>, rest: seq<seq<seq<Signature>>>)
    requires m <= MaxSize(bs)
    requires forall k :: 0 <= k < |bss| ==> m <= MaxSize(bss[k])
    requires multiset(rest) == multiset(bss) + multiset{bs}
    ensures forall k :: 0 <= k < |rest| ==> m <= MaxSize(rest[k])
  {
    forall k | 0 <= k < |rest| ensures m <= MaxSize(rest[k]) {
      var y := rest[k];
      assert y in multiset(rest);
      if y != bs {
        assert y in multiset(bss);
        var i :| 0 <= i < |bss| && bss[i] == y;
      }
    }
  }

  lemma SortedTail(bss: seq<seq<seq<Signature>>>)
    requires SortedByLargest(bss) && |bss| >= 1
    ensures SortedByLargest(bss[1..])
    ensures forall k :: 0 <= k < |bss[1..]| ==> MaxSize(bss[0]) <= MaxSize(bss[1..][k])
  {
    assert forall k :: 0 <= k < |bss[1..]| ==> bss[1..][k] == bss[k + 1];
  }

  /** Keeping the head of the sorted list and inserting into its tail keeps
      every list and the order. */
  lemma InsertBehindHead(bs: seq<seq<Signature>>, bss: seq<seq<seq<Signature>>>, rest: seq<seq<seq<Signature>>>)
    requires SortedByLargest(bss) && |bss| >= 1 && MaxSize(bss[0]) < MaxSize(bs)
    requires SortedByLargest(rest) && multiset(rest) == multiset(bss[1..]) + multiset{bs}
    ensures multiset([bss[0]] + rest) == multiset(bss) + multiset{bs}
    ensures SortedByLargest([bss[0]] + rest)
  {
    SortedTail(bss);
    assert bss == [bss[0]] + bss[1..];
    BoundSurvivesInsert(MaxSize(bss[0]), bs, bss[1..], rest);
    PrependSorted(bss[0], rest);
  }

  /** Puts bs into the sorted list, before the first list whose largest group is at least as large. */
  function InsertByLargest(bs: seq<seq<Signature>>, bss: seq<seq<seq<Signature>>>): (r: seq<seq<seq<Signature>>>)
    requires SortedByLargest(bss)
    ensures multiset(r) == multiset(bss) + multiset{bs}
    ensures SortedByLargest(r)
  {
    if bss == [] then [bs]
    else if MaxSize(bs) <= MaxSize(bss[0]) then
      PrependSorted(bs, bss);
      [bs] + bss
    else
      SortedTail(bss);
      var rest := InsertByLargest(bs, bss[1..]);
      InsertBehindHead(bs, bss, rest);
      [bss[0]] + rest
  }

  /** `sorted(branches, key=lambda x: max(map(len, x)))`, as a stable insertion sort. */
  function SortByLargest(bss: seq<seq<seq<Signature>>>): (r: seq<seq<seq<Signature>>>)
    ensures multiset(r) == multiset(bss)
    ensures SortedByLargest(r)
  {
    if bss == [] then []
    else
      assert bss == [bss[0]] + bss[1..];
      InsertByLargest(bss[0], SortByLargest(bss[1..]))
  }

  /** `populations_after_measures(population, n)`: the outcome groups of
      exactly the informative enumerated weighings, largest group smallest first. */
  function PopulationsAfterMeasures(pop: seq<Signature>, n: nat): (r: seq<seq<seq<Signature>>>)
    requires PopulationOver(pop, n)
    ensures forall bs :: bs in r <==> bs in AllBranches(pop, n, Measures(n)) && |bs| >= 2
    ensures multiset(r) == multiset(KeepInformative(AllBranches(pop, n, Measures(n))))
    ensures SortedByLargest(r)
  {
    var kept := KeepInformative(AllBranches(pop, n, Measures(n)));
    var r := SortByLargest(kept);
    assert forall x :: x in r <==> x in kept by {
      forall x ensures x in r <==> x in kept {
        assert x in r <==> x in multiset(r);
        assert x in kept <==> x in multiset(kept);
      }
    }
    r
  }

  /** Every enumerated informative weighing has its groups among the kept ones. */
  lemma InformativeIsKept(pop: seq<Signature>, n: nat, w: Weighing) returns (i: nat)
    requires PopulationOver(pop, n) && w in Measures(n)
    requires |Branches(pop, n, w)| >= 2
    ensures i < |PopulationsAfterMeasures(pop, n)|
    ensures PopulationsAfterMeasures(pop, n)[i] == Branches(pop, n, w)
  {
    var ws := Measures(n);
    var k :| 0 <= k < |ws| && ws[k] == w;
    var all := AllBranches(pop, n, ws);
    assert all[k] == Branches(pop, n, w);
    var r := PopulationsAfterMeasures(pop, n);
    assert Branches(pop, n, w) in r;
    i :| 0 <= i < |r| && r[i] == Branches(pop, n, w);
  }

  /** Every kept branch list comes from an informative enumerated weighing. */
  lemma KeptComesFromWeighing(pop: seq<Signature>, n: nat, bss: seq<seq<seq<Signature>>>, i: nat)
    returns (w: Weighing)
    requires PopulationOver(pop, n)
    requires bss == PopulationsAfterMeasures(pop, n) && i < |bss|
    ensures w in Measures(n) && bss[i] == Branches(pop, n, w) && |bss[i]| >= 2
  {
    var ws := Measures(n);
    var all := AllBranches(pop, n, ws);
    assert bss[i] in bss;
    var k :| 0 <= k < |all| && all[k] == bss[i];
    w := ws[k];
  }

  /** For a valid population every kept branch list splits it into smaller valid populations. */
  lemma KeptAreBranchings(pop: seq<Signature>, n: nat)
    requires ValidPopulation(pop, n)
    ensures forall j :: 0 <= j < |PopulationsAfterMeasures(pop, n)| ==>
      IsBranching(pop, n, PopulationsAfterMeasures(pop, n)[j])
  {
    var r := PopulationsAfterMeasures(pop, n);
    forall j | 0 <= j < |r| ensures IsBranching(pop, n, r[j]) {
      var w := KeptComesFromWeighing(pop, n, r, j);
      InformativeBranching(pop, n, w);
    }
  }

  /** Any two different hypotheses of n >= 3 pearls are told apart by some
      enumerated weighing: one pearl of the first against a pearl that
      neither hypothesis involves. */
  lemma SeparatingWeighing(a: Signature, b: Signature, n: nat) returns (w: Weighing)
    requires n >= 3 && ValidSignature(a, n) && ValidSignature(b, n) && a != b
    ensures w in Measures(n)
    ensures Measure(a, w) != Measure(b, w)
  {
    var ia, sa := HypothesisOf(a, n);
    var ib, sb := HypothesisOf(b, n);
    var x: nat := if ia != 0 && ib != 0 then 0 else if ia != 1 && ib != 1 then 1 else 2;
    w := Weighing([ia], [x]);
    assert WellFormed(w, n);
    MeasuresExactly(n, w);
    MeasureOfHypothesis(n, ia, sa, w);
    MeasureOfHypothesis(n, ib, sb, w);
  }

  /** A valid population of two or more hypotheses over n >= 3 pearls always
      has an informative weighing, so the search never runs out of weighings
      (the `StopIteration` of `g.next()` at line 46 cannot happen). */
  lemma SplittingWeighingExists(pop: seq<Signature>, n: nat)
    requires n >= 3 && ValidPopulation(pop, n) && |pop| >= 2
    ensures |PopulationsAfterMeasures(pop, n)| >= 1
  {
    assert pop[0] in pop && pop[1] in pop;
    var w := SeparatingWeighing(pop[0], pop[1], n);
    InformativeIffSplits(pop, n, w);
    var i := InformativeIsKept(pop, n, w);
  }
}
