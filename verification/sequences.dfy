/** Small facts about sequences that the rest of the model relies on:
    strictly increasing index lists (what `combinations` and `sorted`
    produce) and duplicate-free populations. */
module Sequences {

  /** True iff s is sorted in strictly increasing order. */
  predicate StrictlyIncreasing(s: seq<int>) {
    forall i, j :: 0 <= i < j < |s| ==> s[i] < s[j]
  }

  /** True iff no value occurs twice in s. */
  predicate Distinct<T(==)>(s: seq<T>) {
    forall i, j :: 0 <= i < j < |s| ==> s[i] != s[j]
  }

  /** The set of values occurring in s. */
  function Elems<T>(s: seq<T>): set<T> {
    set x | x in s
  }

  /** `range(n)`: the indices 0 .. n-1 in increasing order. */
  function Range(n: nat): (r: seq<nat>)
    ensures |r| == n
    ensures forall i :: 0 <= i < n ==> r[i] == i
    ensures StrictlyIncreasing(r)
    ensures forall x: int :: x in r <==> 0 <= x < n
  {
    if n == 0 then []
    else
      var r := Range(n - 1) + [n - 1];
      assert forall x: int :: 0 <= x < n ==> r[x] == x;
      r
  }

  /** Every element after the head of an increasing sequence exceeds the head. */
  lemma TailAboveHead(s: seq<int>, x: int)
    requires StrictlyIncreasing(s) && |s| >= 1
    requires x in s[1..]
    ensures s[0] < x
  {
    var k :| 0 <= k < |s[1..]| && s[1..][k] == x;
    assert s[k + 1] == x;
  }

  /** A value below every element of an increasing sequence can be put in front. */
  lemma PrependIncreasing(x: int, s: seq<int>)
    requires StrictlyIncreasing(s)
    requires forall y :: y in s ==> x < y
    ensures StrictlyIncreasing([x] + s)
  {
    var t := [x] + s;
    forall i, j | 0 <= i < j < |t| ensures t[i] < t[j] {
      assert t[j] == s[j - 1];
      assert s[j - 1] in s;
      if i > 0 {
        assert t[i] == s[i - 1];
      }
    }
  }

  lemma HeadIn(s: seq<int>)
    requires |s| > 0
    ensures s[0] in s
  {
  }

  /** A strictly increasing sequence is determined by its set of values:
      this is why `sorted(set)` is unique. */
  lemma {:induction false} IncreasingUnique(a: seq<int>, b: seq<int>)
    requires StrictlyIncreasing(a) && StrictlyIncreasing(b)
    requires forall x :: x in a <==> x in b
    ensures a == b
    decreases |a|
  {
    if |a| == 0 || |b| == 0 {
      // a value of either one would be in both
      if |a| > 0 {
        HeadIn(a);
      } else if |b| > 0 {
        HeadIn(b);
      }
    } else {
      assert a[0] in a && b[0] in b;
      assert a[0] in b && b[0] in a;
      var ka :| 0 <= ka < |a| && a[ka] == b[0];
      var kb :| 0 <= kb < |b| && b[kb] == a[0];
      assert a[0] <= a[ka];
      assert b[0] <= b[kb];
      forall x ensures x in a[1..] <==> x in b[1..] {
        if x in a[1..] {
          TailAboveHead(a, x);
          assert x in a;
          assert x in b;
          assert b == [b[0]] + b[1..];
        }
        if x in b[1..] {
          TailAboveHead(b, x);
          assert x in b;
          assert x in a;
          assert a == [a[0]] + a[1..];
        }
      }
      IncreasingUnique(a[1..], b[1..]);
      assert a == [a[0]] + a[1..];
      assert b == [b[0]] + b[1..];
    }
  }

  /** The tail of a duplicate-free sequence is duplicate-free and misses the head. */
  lemma DistinctTail<T>(s: seq<T>)
    requires Distinct(s) && |s| >= 1
    ensures Distinct(s[1..]) && s[0] !in s[1..]
  {
    assert forall k :: 0 <= k < |s[1..]| ==> s[1..][k] == s[k + 1];
  }

  /** A new value in front of a duplicate-free sequence keeps it duplicate-free. */
  lemma DistinctCons<T>(x: T, s: seq<T>)
    requires Distinct(s) && x !in s
    ensures Distinct([x] + s)
  {
    var t := [x] + s;
    forall i, j | 0 <= i < j < |t| ensures t[i] != t[j] {
      assert t[j] == s[j - 1];
      if i > 0 {
        assert t[i] == s[i - 1];
      }
    }
  }

  /** A duplicate-free sequence has as many values as positions. */
  lemma {:induction false} DistinctCard<T>(s: seq<T>)
    requires Distinct(s)
    ensures |Elems(s)| == |s|
  {
    if |s| > 0 {
      DistinctCard(s[1..]);
      assert Elems(s) == {s[0]} + Elems(s[1..]);
      assert forall k :: 0 <= k < |s[1..]| ==> s[1..][k] == s[k + 1] != s[0];
      assert s[0] !in Elems(s[1..]);
    }
  }

  /** The lists of xss one after the other (a nested generator loop). */
  function Flatten<T>(xss: seq<seq<T>>): seq<T> {
    if xss == [] then [] else xss[0] + Flatten(xss[1..])
  }

  /** Every value of every part is in the flattened list, at a known place. */
  lemma {:induction false} FlattenContains<T>(xss: seq<seq<T>>, i: nat, m: nat) returns (j: nat)
    requires i < |xss| && m < |xss[i]|
    ensures j < |Flatten(xss)| && Flatten(xss)[j] == xss[i][m]
  {
    var rest := Flatten(xss[1..]);
    if i == 0 {
      j := m;
      assert (xss[0] + rest)[j] == xss[0][m];
    } else {
      var k := FlattenContains(xss[1..], i - 1, m);
      j := |xss[0]| + k;
      assert (xss[0] + rest)[j] == rest[k];
    }
  }

  /** Every value of the flattened list comes from some part. */
  lemma {:induction false} FlattenIndex<T>(xss: seq<seq<T>>, j: nat) returns (i: nat, m: nat)
    requires j < |Flatten(xss)|
    ensures i < |xss| && m < |xss[i]| && Flatten(xss)[j] == xss[i][m]
  {
    var rest := Flatten(xss[1..]);
    if j < |xss[0]| {
      i, m := 0, j;
      assert (xss[0] + rest)[j] == xss[0][j];
    } else {
      var i', m' := FlattenIndex(xss[1..], j - |xss[0]|);
      i, m := i' + 1, m';
      assert (xss[0] + rest)[j] == rest[j - |xss[0]|];
    }
  }
}
