/** The balance scale: a weighing puts two groups of pearls on the pans, and a
    weight signature (one hypothesis about the counterfeit pearl) decides
    which pan goes down. */
module Scale {

  /** Result of one weighing, as Python 2's `cmp(left_weight, right_weight)`:
      LeftLighter is -1, Balanced is 0, LeftHeavier is +1. */
  datatype Outcome = LeftLighter | Balanced | LeftHeavier

  /** The outcome seen when the two pans are swapped. */
  function Mirror(o: Outcome): Outcome {
    match o
    case LeftLighter => LeftHeavier
    case Balanced => Balanced
    case LeftHeavier => LeftLighter
  }

  /** Three-way comparison of two pan weights. */
  function Compare(a: int, b: int): Outcome {
    if a < b then LeftLighter else if a == b then Balanced else LeftHeavier
  }

  /** Pearl indices on the left pan and on the right pan. */
  datatype Weighing = Weighing(left: seq<nat>, right: seq<nat>)

  /** Every pearl on either pan is one of the n pearls. */
  predicate PansWithin(w: Weighing, n: nat) {
    && (forall i :: 0 <= i < |w.left| ==> w.left[i] < n)
    && (forall i :: 0 <= i < |w.right| ==> w.right[i] < n)
  }

  /** `sum(pearl_weights[i] for i in pan)`. */
  function PanWeight(sig: seq<int>, pan: seq<nat>): int
    requires forall i :: 0 <= i < |pan| ==> pan[i] < |sig|
  {
    if pan == [] then 0 else sig[pan[0]] + PanWeight(sig, pan[1..])
  }

  /** `measure`: the outcome of weighing w when the pearl weights are sig,
      the sign of the left pan's weight minus the right pan's. */
  function Measure(sig: seq<int>, w: Weighing): (r: Outcome)
    requires PansWithin(w, |sig|)
    ensures r == LeftHeavier <==> PanWeight(sig, w.left) - PanWeight(sig, w.right) > 0
    ensures r == Balanced <==> PanWeight(sig, w.left) - PanWeight(sig, w.right) == 0
    ensures r == LeftLighter <==> PanWeight(sig, w.left) - PanWeight(sig, w.right) < 0
  {
    Compare(PanWeight(sig, w.left), PanWeight(sig, w.right))
  }

  /** Swapping the pans mirrors the outcome. */
  lemma MeasureSwap(sig: seq<int>, w: Weighing)
    requires PansWithin(w, |sig|)
    ensures Measure(sig, Weighing(w.right, w.left)) == Mirror(Measure(sig, w))
  {
  }
}
