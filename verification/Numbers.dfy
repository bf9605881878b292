/** Powers and products: the arithmetic that several components share. */
module Numbers {

  function Pow2(h: nat): (r: nat)
    ensures r > 0
  {
    if h == 0 then 1 else 2 * Pow2(h - 1)
  }

  function Pow(b: nat, e: nat): (r: nat)
    ensures b > 0 ==> r > 0
  {
    if e == 0 then 1 else b * Pow(b, e - 1)
  }

  lemma {:induction false} PowAdd(b: nat, x: nat, y: nat)
    ensures Pow(b, x + y) == Pow(b, x) * Pow(b, y)
  {
    if x > 0 {
      PowAdd(b, x - 1, y);
      assert Pow(b, x + y) == b * Pow(b, x - 1 + y) && Pow(b, x) == b * Pow(b, x - 1);
      hide Pow;
      Regroup(b, Pow(b, x - 1), Pow(b, y));
    }
  }

  lemma Regroup(a: int, b: int, c: int)
    ensures a * (b * c) == (a * b) * c
  {
  }

  lemma {:induction false} PowGrows(b: nat, x: nat, y: nat)
    requires b > 0 && x <= y
    ensures Pow(b, x) <= Pow(b, y)
  {
    if x < y {
      PowGrows(b, x, y - 1);
      MulGrows(1, b, Pow(b, y - 1));
    }
  }

  lemma MulGrows(a: int, b: int, c: nat)
    requires a <= b
    ensures a * c <= b * c
  {
    assert b * c == a * c + (b - a) * c;
  }

  /** What remains of a number when a multiple of the modulus is taken away. */
  lemma ModFrom(x: int, q: int, m: nat, y: int)
    requires m > 0 && 0 <= x < m && x + q * m == y
    ensures x == y % m && q == y / m
  {
    var q', x' := y / m, y % m;
    assert (q' - q) * m == x - x' by {
      assert (q' - q) * m == q' * m - q * m;
    }
    if q' > q {
      MulGrows(1, q' - q, m);
    } else if q' < q {
      MulGrows(q' - q, -1, m);
    }
  }
}
