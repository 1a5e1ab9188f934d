/** Hypotheses about the counterfeit pearl (weight signatures), populations of
    them, and the generator `pearl_cutting_sooner` starts the search from. */
module Hypotheses {
  import opened Sequences
  import opened Scale
  import opened Weighings

  /** One weight offset per pearl: the hypothesis that only one pearl differs. */
  type Signature = seq<int>

  /** "Pearl i is counterfeit, with weight offset s": s at i, 0 elsewhere. */
  function Hypothesis(n: nat, i: nat, s: int): (r: Signature)
    ensures |r| == n
    ensures i < n ==> r[i] == s
    ensures forall j :: 0 <= j < n && j != i ==> r[j] == 0
    ensures i < n && (s == 1 || s == -1) ==> ValidSignature(r, n)
  {
    var r := seq(n, j requires 0 <= j < n => if j == i then s else 0);
    assert i < n ==> r[i] == s;
    r
  }

  /** A signature of n pearls with exactly one non-zero entry, and that entry +1 or -1. */
  predicate ValidSignature(sig: Signature, n: nat) {
    && |sig| == n
    && exists i :: 0 <= i < n && (sig[i] == 1 || sig[i] == -1) && forall j :: 0 <= j < n && j != i ==> sig[j] == 0
  }

  /** Every signature of the population covers exactly n pearls. */
  predicate PopulationOver(pop: seq<Signature>, n: nat) {
    forall c :: c in pop ==> |c| == n
  }

  /** A non-empty, duplicate-free population of well-formed hypotheses. */
  predicate ValidPopulation(pop: seq<Signature>, n: nat) {
    && |pop| >= 1
    && (forall c :: c in pop ==> ValidSignature(c, n))
    && Distinct(pop)
  }

  /** Recovers the counterfeit pearl and its offset from a valid signature. */
  lemma HypothesisOf(sig: Signature, n: nat) returns (i: nat, s: int)
    requires ValidSignature(sig, n)
    ensures i < n && (s == 1 || s == -1)
    ensures sig == Hypothesis(n, i, s)
  {
    var k :| 0 <= k < n && (sig[k] == 1 || sig[k] == -1) && forall j :: 0 <= j < n && j != k ==> sig[j] == 0;
    i, s := k, sig[k];
  }

  /** Lines 64-70: for each pearl, the "heavy" hypothesis, then the "light" one. */
  function InitialPopulation(n: nat): (r: seq<Signature>)
    ensures |r| == 2 * n
    ensures forall c :: c in r ==> ValidSignature(c, n)
    ensures Distinct(r)
    ensures forall sig :: ValidSignature(sig, n) ==> sig in r
  {
    var r := seq(2 * n, k requires 0 <= k < 2 * n => Hypothesis(n, k / 2, if k % 2 == 0 then 1 else -1));
    InitialPopulationFacts(n, r);
    r
  }

  lemma InitialPopulationFacts(n: nat, r: seq<Signature>)
    requires |r| == 2 * n
    requires forall k :: 0 <= k < 2 * n ==> r[k] == Hypothesis(n, k / 2, if k % 2 == 0 then 1 else -1)
    ensures forall c :: c in r ==> ValidSignature(c, n)
    ensures Distinct(r)
    ensures forall sig :: ValidSignature(sig, n) ==> sig in r
  {
    forall c | c in r ensures ValidSignature(c, n) {
      var k :| 0 <= k < |r| && r[k] == c;
      assert c[k / 2] == 1 || c[k / 2] == -1;
    }
    forall a, b | 0 <= a < b < |r| ensures r[a] != r[b] {
      if a / 2 == b / 2 {
        assert a % 2 == 0 && b % 2 == 1;
        assert r[a][a / 2] != r[b][a / 2];
      } else {
        assert r[a][a / 2] != r[b][a / 2];
      }
    }
    forall sig | ValidSignature(sig, n) ensures sig in r {
      var i, s := HypothesisOf(sig, n);
      var k := if s == 1 then 2 * i else 2 * i + 1;
      assert k / 2 == i;
      assert r[k] == sig;
    }
  }

  /** The weight of a pan under one hypothesis is the pearl's offset when the
      pearl is on that pan, and 0 otherwise. */
  lemma {:induction false} PanWeightOfHypothesis(n: nat, i: nat, s: int, pan: seq<nat>)
    requires StrictlyIncreasing(pan)
    requires forall k :: 0 <= k < |pan| ==> pan[k] < n
    ensures PanWeight(Hypothesis(n, i, s), pan) == if i in pan then s else 0
  {
    if pan != [] {
      PanWeightOfHypothesis(n, i, s, pan[1..]);
      assert pan == [pan[0]] + pan[1..];
      forall y | y in pan[1..] ensures pan[0] < y {
        TailAboveHead(pan, y);
      }
    }
  }

  /** Under one hypothesis the pan holding a heavy pearl goes down, the pan
      holding a light pearl goes up, and the scale balances when the pearl
      is not weighed. */
  lemma MeasureOfHypothesis(n: nat, i: nat, s: int, w: Weighing)
    requires WellFormed(w, n) && i < n && (s == 1 || s == -1)
    ensures Measure(Hypothesis(n, i, s), w) ==
      if i in w.left then (if s == 1 then LeftHeavier else LeftLighter)
      else if i in w.right then (if s == 1 then LeftLighter else LeftHeavier)
      else Balanced
  {
    PanWeightOfHypothesis(n, i, s, w.left);
    PanWeightOfHypothesis(n, i, s, w.right);
  }
}
