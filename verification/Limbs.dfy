/** Numbers as sequences of 32-bit limbs, least significant first. */
module Limbs {
  import opened Numbers

  const B: nat := 0x1_0000_0000

  type uint32 = x: int | 0 <= x < 0x1_0000_0000

  // -------------------------------------------------------------- powers and products

  /** A limb is 32 bits. */
  lemma {:induction false} PowLimbs(n: nat)
    ensures Pow(2, 32 * n) == Pow(B, n)
  {
    if n > 0 {
      PowLimbs(n - 1);
      PowAdd(2, 32, 32 * (n - 1));
      Pow32();
    }
  }

  lemma Pow32()
    ensures Pow(2, 32) == B
  {
    assert Pow(2, 8) == 256;
    PowAdd(2, 8, 8);
    PowAdd(2, 16, 16);
  }

  // ---------------------------------------------------------------------- the value

  function Val(s: seq<uint32>): nat {
    if s == [] then 0 else s[0] + B * Val(s[1..])
  }

  lemma {:induction false} ValBound(s: seq<uint32>)
    ensures Val(s) < Pow(B, |s|)
  {
    if s != [] {
      ValBound(s[1..]);
    }
  }

  lemma {:induction false} ValConcat(s: seq<uint32>, t: seq<uint32>)
    ensures Val(s + t) == Val(s) + Pow(B, |s|) * Val(t)
  {
    if s == [] {
      assert s + t == t;
    } else {
      ValConcat(s[1..], t);
      assert (s + t)[1..] == s[1..] + t;
      assert B * (Pow(B, |s| - 1) * Val(t)) == Pow(B, |s|) * Val(t);
    }
  }

  lemma ValSplit(s: seq<uint32>, i: nat)
    requires i <= |s|
    ensures Val(s) == Val(s[..i]) + Pow(B, i) * Val(s[i..])
  {
    hide Val, Pow;
    ValConcat(s[..i], s[i..]);
    assert s == s[..i] + s[i..];
  }

  lemma ValOne(x: uint32)
    ensures Val([x]) == x
  {
    assert Val([x][1..]) == 0;
  }

  lemma ValSnoc(s: seq<uint32>, i: nat)
    requires i < |s|
    ensures Val(s[..i + 1]) == Val(s[..i]) + s[i] * Pow(B, i)
  {
    assert s[..i + 1] == s[..i] + [s[i]];
    ValConcat(s[..i], [s[i]]);
    ValOne(s[i]);
  }

  lemma ValUpdate(s: seq<uint32>, i: nat, x: uint32)
    requires i < |s|
    ensures Val(s[i := x]) == Val(s) + (x - s[i]) * Pow(B, i)
  {
    var t := s[i := x];
    ValSplit(s, i);
    ValSplit(t, i);
    assert s[i..] == [s[i]] + s[i + 1..] && t[i..] == [x] + s[i + 1..] && t[..i] == s[..i];
    var p, rest := Pow(B, i), B * Val(s[i + 1..]);
    assert Val(s[i..]) == s[i] + rest && Val(t[i..]) == x + rest;
    Distribute(p, x, s[i], rest);
  }

  lemma Distribute(p: int, x: int, y: int, z: int)
    ensures p * (x + z) == p * (y + z) + (x - y) * p
  {
  }

  lemma {:induction false} ValZero(s: seq<uint32>)
    ensures Val(s) == 0 <==> forall i :: 0 <= i < |s| ==> s[i] == 0
  {
    if s != [] {
      ValZero(s[1..]);
      assert forall i :: 1 <= i < |s| ==> s[i] == s[1..][i - 1];
    }
  }

  /** The highest differing limb decides. */
  lemma ValLess(s: seq<uint32>, t: seq<uint32>, i: nat)
    requires i < |s| == |t| && s[i + 1..] == t[i + 1..] && s[i] < t[i]
    ensures Val(s) < Val(t)
  {
    hide Val, Pow;
    ValSplit(s, i + 1);
    ValSplit(t, i + 1);
    ValSnoc(s, i);
    ValSnoc(t, i);
    ValBound(s[..i]);
    MulGrows(s[i] + 1, t[i], Pow(B, i));
    assert (s[i] + 1) * Pow(B, i) == s[i] * Pow(B, i) + Pow(B, i);
  }

  // ------------------------------------------------------------------- bitwise or

  function BitOr(x: nat, y: nat): nat {
    if x == 0 then y else if y == 0 then x
    else 2 * BitOr(x / 2, y / 2) + (if x % 2 == 1 || y % 2 == 1 then 1 else 0)
  }

  /** Without common bits, `or` is addition. */
  lemma {:induction false} OrDisjoint(x: nat, k: nat, y: nat)
    requires y < Pow(2, k)
    ensures BitOr(x * Pow(2, k), y) == x * Pow(2, k) + y == BitOr(y, x * Pow(2, k))
  {
    if k > 0 {
      var p := Pow(2, k - 1);
      assert x * Pow(2, k) == 2 * (x * p);
      OrDisjoint(x, k - 1, y / 2);
    }
  }

  // ------------------------------------------------------------------------ shifts

  /** The limbs after a left shift by less than a limb, with bits coming in from below. */
  function ShiftUp(s: seq<uint32>, shift: nat, low: uint32): (r: seq<uint32>)
    requires shift < 32 && low < Pow(2, shift)
    ensures |r| == |s|
  {
    if s == [] then []
    else
      UpFits(s[0], shift, low);
      [s[0] * Pow(2, shift) % B + low] + ShiftUp(s[1..], shift, s[0] / Pow(2, 32 - shift))
  }

  /** Multiplying by `p` modulo `p * q` keeps the low part of a number, and what is lost is the high part. */
  lemma Parts(x: nat, p: nat, q: nat, m: nat)
    requires 0 < p && 0 < q && p * q == m && x < m
    ensures 0 <= x / q < p && 0 <= x % q < q && 0 <= x % q * p && x % q * p + p <= m
    ensures x * p % m == x % q * p && x * p == x % q * p + x / q * m
  {
    var hi, lo := x / q, x % q;
    assert x == hi * q + lo;
    QuotientBelow(hi, lo, p, q);
    assert lo * p + p <= m by {
      MulGrows(lo + 1, q, p);
      assert (lo + 1) * p == lo * p + p;
    }
    PartsProduct(hi, lo, p, q);
    ModFrom(lo * p, hi, m, x * p);
  }

  lemma QuotientBelow(hi: nat, lo: nat, p: nat, q: nat)
    requires hi * q + lo < p * q
    ensures hi < p
  {
    if p <= hi {
      MulGrows(p, hi, q);
    }
  }

  lemma PartsProduct(hi: nat, lo: nat, p: nat, q: nat)
    ensures (hi * q + lo) * p == lo * p + hi * (p * q)
  {
    assert (hi * q) * p == hi * (p * q);
  }

  lemma ShiftParts(x: uint32, shift: nat)
    requires shift <= 32
    ensures var p, q := Pow(2, shift), Pow(2, 32 - shift);
            p * q == B && 0 <= x / q < p && 0 <= x % q < q && 0 <= x % q * p && x % q * p + p <= B && x * p % B == x % q * p && x * p == x % q * p + x / q * B
  {
    Pow32();
    PowAdd(2, shift, 32 - shift);
    hide Pow;
    Parts(x, Pow(2, shift), Pow(2, 32 - shift), B);
  }

  lemma UpFits(x: uint32, shift: nat, low: uint32)
    requires shift < 32 && low < Pow(2, shift)
    ensures x / Pow(2, 32 - shift) < Pow(2, shift) && x * Pow(2, shift) % B + low < B
    ensures x / Pow(2, 32 - shift) < B
  {
    ShiftParts(x, shift);
    Pow32();
    PowGrows(2, shift, 32);
    hide Pow;
  }

  /** Bits shifted out at the top. */
  function UpOut(s: seq<uint32>, shift: nat, low: uint32): nat
    requires shift < 32 && low < Pow(2, shift)
  {
    if s == [] then low
    else
      UpFits(s[0], shift, low);
      UpOut(s[1..], shift, s[0] / Pow(2, 32 - shift))
  }

  lemma {:induction false} ShiftUpValue(s: seq<uint32>, shift: nat, low: uint32)
    requires shift < 32 && low < Pow(2, shift)
    ensures Val(ShiftUp(s, shift, low)) + UpOut(s, shift, low) * Pow(B, |s|) == Val(s) * Pow(2, shift) + low
  {
    if s != [] {
      UpFits(s[0], shift, low);
      ShiftParts(s[0], shift);
      var c := s[0] / Pow(2, 32 - shift);
      ShiftUpValue(s[1..], shift, c);
      assert ShiftUp(s, shift, low)[1..] == ShiftUp(s[1..], shift, c);
      hide Pow, ShiftUp;
      UpStep(s[0], Val(s[1..]), Pow(2, shift), low, c, Val(ShiftUp(s[1..], shift, c)),
             UpOut(s, shift, low), Pow(B, |s| - 1), s[0] * Pow(2, shift) % B);
    }
  }

  lemma UpStep(x: int, rest: int, p: int, low: int, c: int, r: int, out: int, w: int, y: int)
    requires r + out * w == rest * p + c && x * p == y + c * B
    ensures y + low + B * r + out * (B * w) == (x + B * rest) * p + low
  {
    assert out * (B * w) == B * (out * w);
    assert (x + B * rest) * p == x * p + B * (rest * p);
  }

  function Head(s: seq<uint32>): uint32 {
    if s == [] then 0 else s[0]
  }

  /** A limb shifted right, with bits coming in from the limb above. */
  function DownLimb(x: uint32, above: uint32, shift: nat): uint32
    requires shift < 32
  {
    DownFits(x, above, shift);
    x / Pow(2, shift) + above * Pow(2, 32 - shift) % B
  }

  /** The limbs after a right shift by less than a limb. */
  function ShiftDown(s: seq<uint32>, shift: nat): (r: seq<uint32>)
    requires shift < 32
    ensures |r| == |s|
  {
    if s == [] then []
    else
      [DownLimb(s[0], Head(s[1..]), shift)] + ShiftDown(s[1..], shift)
  }

  lemma DownFits(x: uint32, y: uint32, shift: nat)
    requires shift < 32
    ensures 0 <= x / Pow(2, shift) + y * Pow(2, 32 - shift) % B < B
    ensures 0 <= x / Pow(2, shift) < B
  {
    ShiftParts(x, 32 - shift);
    ShiftParts(y, 32 - shift);
    Pow32();
    PowGrows(2, 32 - shift, 32);
    hide Pow;
  }

  lemma {:induction false} ShiftDownValue(s: seq<uint32>, shift: nat)
    requires shift < 32
    ensures Val(ShiftDown(s, shift)) * Pow(2, shift) + Head(s) % Pow(2, shift) == Val(s)
  {
    if s != [] {
      ShiftDownValue(s[1..], shift);
      ShiftDownHead(s, shift);
      hide *;
      DownShift(s[0], Head(s[1..]), shift, Val(ShiftDown(s[1..], shift)), Val(s[1..]));
    }
  }

  lemma ShiftDownHead(s: seq<uint32>, shift: nat)
    requires shift < 32 && s != []
    ensures Val(ShiftDown(s, shift))
         == s[0] / Pow(2, shift) + Head(s[1..]) * Pow(2, 32 - shift) % B + B * Val(ShiftDown(s[1..], shift))
    ensures Val(s) == s[0] + B * Val(s[1..]) && Head(s) == s[0]
  {
    DownFits(s[0], Head(s[1..]), shift);
    assert ShiftDown(s, shift)[1..] == ShiftDown(s[1..], shift);
    hide Pow, Head;
  }

  lemma DownShift(x: uint32, y: uint32, shift: nat, r: nat, rest: nat)
    requires shift < 32 && r * Pow(2, shift) + y % Pow(2, shift) == rest
    ensures (x / Pow(2, shift) + y * Pow(2, 32 - shift) % B + B * r) * Pow(2, shift) + x % Pow(2, shift) == x + B * rest
  {
    ShiftParts(y, 32 - shift);
    hide *;
    DownStep(x, y, Pow(2, shift), Pow(2, 32 - shift), r, rest);
  }

  lemma DownStep(x: nat, y: nat, p: nat, q: nat, r: nat, rest: nat)
    requires p > 0 && q > 0 && p * q == B && r * p + y % p == rest
    requires y * q % B == y % p * q
    ensures (x / p + y * q % B + B * r) * p + x % p == x + B * rest
  {
    var z := y % p;
    assert x == x / p * p + x % p;
    assert (z * q) * p == z * (p * q);
    assert (x / p + z * q + B * r) * p == x / p * p + (z * q) * p + B * (r * p);
  }
}
