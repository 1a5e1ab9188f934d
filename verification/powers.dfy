/** Powers of three and the integer base-3 logarithm, rounded up: the exact
    counterpart of `ceil(log(m, 3))` in the solver. */
module Powers {

  function Pow3(d: nat): (r: nat)
    ensures r >= 1
  {
    if d == 0 then 1 else 3 * Pow3(d - 1)
  }

  lemma Pow3Succ(d: nat)
    requires d >= 1
    ensures Pow3(d) == 3 * Pow3(d - 1)
  {
  }

  lemma {:induction false} Pow3Monotone(a: nat, b: nat)
    requires a <= b
    ensures Pow3(a) <= Pow3(b)
    decreases b - a
  {
    if a < b {
      Pow3Monotone(a, b - 1);
    }
  }

  lemma Pow3Below(e: nat, d: nat)
    requires e < d
    ensures Pow3(e) <= Pow3(d - 1)
  {
    Pow3Monotone(e, d - 1);
  }

  /** The least d with m <= 3^d: 3^d covers m, and 3^(d-1) does not. */
  function CeilLog3(m: nat): (r: nat)
    ensures m <= Pow3(r)
    ensures r > 0 ==> Pow3(r - 1) < m
  {
    if m <= 1 then 0
    else
      var q := (m + 2) / 3;
      var d := CeilLog3(q);
      assert 3 * q >= m;
      assert d > 0 ==> 3 * Pow3(d - 1) < m by {
        if d > 0 {
          assert Pow3(d - 1) + 1 <= q;
          assert 3 * q <= m + 2;
        }
      }
      1 + d
  }

  /** Any d whose power of three covers m is at least CeilLog3(m). */
  lemma {:induction false} CeilLog3Least(m: nat, d: nat)
    requires m <= Pow3(d)
    ensures CeilLog3(m) <= d
  {
    if m > 1 {
      var q := (m + 2) / 3;
      assert d > 0;
      assert q <= Pow3(d - 1);
      CeilLog3Least(q, d - 1);
    }
  }

  lemma CeilLog3Monotone(a: nat, b: nat)
    requires a <= b
    ensures CeilLog3(a) <= CeilLog3(b)
  {
    CeilLog3Least(a, CeilLog3(b));
  }

  /** If p is at most three times m, p needs at most one more power of three than m. */
  lemma CeilLog3OfThird(p: nat, m: nat)
    requires p <= 3 * m
    ensures CeilLog3(p) <= CeilLog3(m) + 1
  {
    var c := CeilLog3(m);
    assert Pow3(c + 1) == 3 * Pow3(c);
    CeilLog3Least(p, c + 1);
  }
}
