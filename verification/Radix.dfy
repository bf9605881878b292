/** Numbers as digit sequences in any base, most significant digit first. */
module Radix {
  import opened Numbers

  ghost predicate Digits(base: nat, s: seq<nat>) {
    forall i :: 0 <= i < |s| ==> s[i] < base
  }

  ghost function Number(base: nat, s: seq<nat>): nat {
    if s == [] then 0 else Number(base, s[..|s| - 1]) * base + s[|s| - 1]
  }

  /** The digits of a number without leading zeros. */
  ghost function Shortest(base: nat, v: nat): (s: seq<nat>)
    requires base >= 2
    ensures Digits(base, s) && (s != [] ==> s[0] != 0) && (s == [] <==> v == 0)
  {
    if v == 0 then [] else
      var s := Shortest(base, v / base);
      s + [v % base]
  }

  function LeadingZeros(s: seq<nat>): (n: nat)
    ensures n <= |s| && (forall i :: 0 <= i < n ==> s[i] == 0) && (n < |s| ==> s[n] != 0)
  {
    if s == [] || s[0] != 0 then 0 else 1 + LeadingZeros(s[1..])
  }

  function Zeros(n: nat): seq<nat> {
    seq(n, i => 0)
  }

  lemma {:induction false} NumberBound(base: nat, s: seq<nat>)
    requires base > 0 && Digits(base, s)
    ensures Number(base, s) < Pow(base, |s|)
  {
    if s != [] {
      var t := s[..|s| - 1];
      NumberBound(base, t);
      MulGrows(Number(base, t) + 1, Pow(base, |t|), base);
      assert (Number(base, t) + 1) * base == Number(base, t) * base + base;
      assert Pow(base, |s|) == base * Pow(base, |t|);
    }
  }

  lemma {:induction false} NumberConcat(base: nat, s: seq<nat>, t: seq<nat>)
    ensures Number(base, s + t) == Number(base, s) * Pow(base, |t|) + Number(base, t)
  {
    if t == [] {
      assert s + t == s;
    } else {
      var u := t[..|t| - 1];
      NumberConcat(base, s, u);
      assert (s + t)[..|s + t| - 1] == s + u;
      ConcatStep(Number(base, s), Pow(base, |u|), Number(base, u), base, t[|t| - 1]);
    }
  }

  lemma ConcatStep(x: int, p: int, y: int, b: int, d: int)
    ensures (x * p + y) * b + d == x * (b * p) + (y * b + d)
  {
    assert (x * p) * b == x * (b * p);
  }

  lemma NumberSnoc(base: nat, s: seq<nat>, d: nat)
    ensures Number(base, s + [d]) == Number(base, s) * base + d
  {
    assert (s + [d])[..|s|] == s;
  }

  lemma Recombined(v: nat, base: nat)
    requires base > 0
    ensures v / base * base + v % base == v
  {
  }

  /** Digits and number determine each other. */
  lemma {:induction false} NumberOfShortest(base: nat, v: nat)
    requires base >= 2
    ensures Number(base, Shortest(base, v)) == v
  {
    if v != 0 {
      NumberOfShortest(base, v / base);
      NumberSnoc(base, Shortest(base, v / base), v % base);
      Recombined(v, base);
    }
  }

  lemma {:induction false} ShortestOfNumber(base: nat, s: seq<nat>)
    requires base >= 2 && Digits(base, s) && (s != [] ==> s[0] != 0)
    ensures Shortest(base, Number(base, s)) == s
  {
    if s != [] {
      var t, d := s[..|s| - 1], s[|s| - 1];
      ShortestOfNumber(base, t);
      var v := Number(base, t) * base + d;
      ModFrom(d, Number(base, t), base, v);
      assert v != 0 by {
        if Number(base, t) > 0 {
          MulGrows(1, Number(base, t), base);
        }
      }
      assert s == t + [d];
    }
  }

  lemma {:induction false} NumberOfZeros(base: nat, n: nat)
    ensures Number(base, Zeros(n)) == 0
  {
    if n > 0 {
      NumberOfZeros(base, n - 1);
      NumberSnoc(base, Zeros(n - 1), 0);
      assert Zeros(n) == Zeros(n - 1) + [0];
    }
  }

  /** Leading zeros do not count. */
  lemma NumberPadded(base: nat, n: nat, s: seq<nat>)
    ensures Number(base, Zeros(n) + s) == Number(base, s)
  {
    NumberOfZeros(base, n);
    NumberConcat(base, Zeros(n), s);
  }

  /** Stripping leading zeros leaves the shortest digits. */
  lemma StrippedIsShortest(base: nat, s: seq<nat>)
    requires base >= 2 && Digits(base, s)
    ensures s[LeadingZeros(s)..] == Shortest(base, Number(base, s))
    ensures s == Zeros(LeadingZeros(s)) + s[LeadingZeros(s)..]
  {
    var n := LeadingZeros(s);
    assert s == Zeros(n) + s[n..];
    NumberPadded(base, n, s[n..]);
    ShortestOfNumber(base, s[n..]);
  }

  lemma {:induction false} LeadingZerosOf(n: nat, s: seq<nat>)
    requires s != [] ==> s[0] != 0
    ensures LeadingZeros(Zeros(n) + s) == n
  {
    var t := Zeros(n) + s;
    if n > 0 {
      LeadingZerosOf(n - 1, s);
      assert t[1..] == Zeros(n - 1) + s;
    } else {
      assert t == s;
    }
  }

  // ------------------------------------------------------------------- buffer sizes

  lemma {:induction false} PowOfPow(b: nat, x: nat, y: nat)
    ensures Pow(b, x * y) == Pow(Pow(b, x), y)
  {
    if y > 0 {
      PowOfPow(b, x, y - 1);
      assert x * y == x + x * (y - 1);
      PowAdd(b, x, x * (y - 1));
    }
  }

  lemma {:induction false} PowBaseGrows(a: nat, b: nat, e: nat)
    requires a <= b
    ensures Pow(a, e) <= Pow(b, e)
  {
    if e > 0 {
      PowBaseGrows(a, b, e - 1);
      MulGrows(Pow(a, e - 1), Pow(b, e - 1), a);
      MulGrows(a, b, Pow(b, e - 1));
    }
  }

  lemma {:induction false} PowBaseStrict(a: nat, b: nat, e: nat)
    requires a < b && e > 0
    ensures Pow(a, e) < Pow(b, e)
  {
    PowBaseGrows(a, b, e - 1);
    MulGrows(Pow(a, e - 1), Pow(b, e - 1), a);
    assert (a + 1) * Pow(b, e - 1) == a * Pow(b, e - 1) + Pow(b, e - 1);
    assert Pow(b, e - 1) > 0;
    MulGrows(a + 1, b, Pow(b, e - 1));
  }

  /** If `q` digits in base `b` hold what `p` digits in base `a` do, then sizes above the ratio suffice. */
  lemma BufferSuffices(a: nat, b: nat, p: nat, q: nat, n: nat, size: nat)
    requires b > 0 && p > 0 && Pow(a, p) <= Pow(b, q) && q * n <= p * size
    ensures Pow(a, n) <= Pow(b, size)
  {
    hide Pow;
    PowOfPow(a, p, n);
    PowOfPow(b, q, n);
    PowBaseGrows(Pow(a, p), Pow(b, q), n);
    PowGrows(b, q * n, p * size);
    assert p * n == n * p && p * size == size * p;
    RootGrows(a, n, b, size, p);
  }

  lemma RootGrows(a: nat, n: nat, b: nat, m: nat, e: nat)
    requires e > 0 && Pow(a, n * e) <= Pow(b, m * e)
    ensures Pow(a, n) <= Pow(b, m)
  {
    PowOfPow(a, n, e);
    PowOfPow(b, m, e);
    hide Pow;
    if Pow(a, n) > Pow(b, m) {
      PowBaseStrict(Pow(b, m), Pow(a, n), e);
    }
  }
}
