/** Rounding to four decimals, with every quantity counted in units of 1/10000. */
module GridArithmetic {
  const ONE := 10000.0

  /** To the nearest whole number, halves to the even one. */
  function Round(x: real): (n: int)
    ensures -0.5 <= n as real - x <= 0.5
  {
    var below := x.Floor;
    var rest := x - below as real;
    if rest < 0.5 || (rest == 0.5 && below % 2 == 0) then below else below + 1
  }

  predicate OnGrid(x: real) {
    x == x.Floor as real
  }

  function Min(a: real, b: real): real {
    if a < b then a else b
  }

  function Max(a: real, b: real): real {
    if a > b then a else b
  }

  lemma {:induction false} RoundIsMonotone(x: real, y: real)
    requires x <= y
    ensures Round(x) <= Round(y)
  {
    if x.Floor < y.Floor {
      assert Round(x) <= x.Floor + 1;
    }
  }

  lemma {:induction false} RoundWhole(n: int)
    ensures Round(n as real) == n
  {
    assert (n as real).Floor == n;
  }

  lemma {:induction false} RoundBetween(x: real, lo: int, hi: int)
    requires lo as real <= x <= hi as real
    ensures lo <= Round(x) <= hi
  {
    RoundWhole(lo);
    RoundWhole(hi);
    RoundIsMonotone(lo as real, x);
    RoundIsMonotone(x, hi as real);
  }
}
