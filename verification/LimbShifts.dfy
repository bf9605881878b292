/** Whole-number shifts, limb by limb: the loops of operator<<= and operator>>= in src/arith_uint256.cpp. */
module LimbShifts {
  import opened Numbers
  import opened Limbs

  // -------------------------------------------------------------------- left shift

  lemma {:induction false} ShiftUpAt(s: seq<uint32>, shift: nat, low: uint32, i: nat)
    requires shift < 32 && low < Pow(2, shift) && i < |s|
    ensures ShiftUp(s, shift, low)[i]
         == s[i] * Pow(2, shift) % B + (if i == 0 then low else s[i - 1] / Pow(2, 32 - shift))
  {
    UpFits(s[0], shift, low);
    if i > 0 {
      ShiftUpAt(s[1..], shift, s[0] / Pow(2, 32 - shift), i - 1);
    }
  }

  /** Limb `m` of a number shifted left by `k` limbs and `shift` bits. */
  ghost predicate ShiftedLeft(a: seq<uint32>, k: nat, shift: nat, r: seq<uint32>)
    requires shift < 32
  {
    |r| == |a| && forall m :: 0 <= m < |r| ==> r[m] == if m < k then 0 else ShiftUp(a, shift, 0)[m - k]
  }

  lemma ShiftedLeftValue(a: seq<uint32>, k: nat, shift: nat, r: seq<uint32>)
    requires shift < 32 && ShiftedLeft(a, k, shift, r)
    ensures Val(r) == Val(a) * Pow(2, 32 * k + shift) % Pow(B, |a|)
  {
    var w := |a|;
    PowAdd(2, 32 * k, shift);
    PowLimbs(k);
    if k >= w {
      ValZero(r);
      PowAdd(B, w, k - w);
      assert Pow(B, k) == Pow(B, w) * Pow(B, k - w);
      hide *;
      LeftOut(Val(a), Pow(B, w), Pow(B, k - w), Pow(2, shift));
    } else {
      var u := ShiftUp(a, shift, 0);
      ShiftUpValue(a, shift, 0);
      ValSplit(u, w - k);
      ValSplit(r, k);
      assert r[k..] == u[..w - k];
      ValZero(r[..k]);
      PowAdd(B, k, w - k);
      ValBound(r);
      hide *;
      LeftIn(Val(a), Pow(2, shift), Pow(B, k), Pow(B, w - k), Val(u[..w - k]), Val(u[w - k..]), UpOut(a, shift, 0), Val(r));
    }
  }

  lemma LeftOut(x: nat, w: nat, d: nat, p: nat)
    requires w > 0
    ensures x * ((w * d) * p) % w == 0
  {
    assert x * ((w * d) * p) == (x * d * p) * w;
    ModFrom(0, x * d * p, w, (x * d * p) * w);
  }

  lemma LeftIn(x: nat, p: nat, k: nat, d: nat, low: nat, high: nat, out: nat, r: nat)
    requires low + d * high + out * (k * d) == x * p && r == k * low && r < k * d
    ensures r == x * (k * p) % (k * d)
  {
    assert x * (k * p) == k * (x * p);
    assert k * (low + d * high + out * (k * d)) == k * low + (high + out * k) * (k * d);
    ModFrom(r, high + out * k, k * d, x * (k * p));
  }

  // ------------------------------------------------------------------- right shift

  lemma {:induction false} ShiftDownAt(s: seq<uint32>, shift: nat, i: nat)
    requires shift < 32 && i < |s|
    ensures ShiftDown(s, shift)[i] == s[i] / Pow(2, shift) + Head(s[i + 1..]) * Pow(2, 32 - shift) % B
  {
    DownFits(s[0], Head(s[1..]), shift);
    if i > 0 {
      ShiftDownAt(s[1..], shift, i - 1);
      assert s[1..][i..] == s[i + 1..];
    }
  }

  /** Limb `m` of a number shifted right by `k` limbs and `shift` bits. */
  ghost predicate ShiftedRight(a: seq<uint32>, k: nat, shift: nat, r: seq<uint32>)
    requires shift < 32
  {
    |r| == |a| && forall m :: 0 <= m < |r| ==> r[m] == if m + k < |a| then ShiftDown(a, shift)[m + k] else 0
  }

  lemma ShiftedRightValue(a: seq<uint32>, k: nat, shift: nat, r: seq<uint32>)
    requires shift < 32 && ShiftedRight(a, k, shift, r)
    ensures Val(r) == Val(a) / Pow(2, 32 * k + shift)
  {
    var w := |a|;
    PowAdd(2, 32 * k, shift);
    PowLimbs(k);
    if k >= w {
      ValZero(r);
      ValBound(a);
      PowGrows(B, w, k);
      hide *;
      RightOut(Val(a), Pow(B, k), Pow(2, shift));
    } else {
      var u := ShiftDown(a, shift);
      ShiftDownValue(a, shift);
      ValSplit(u, k);
      ValBound(u[..k]);
      ValSplit(r, w - k);
      assert r[..w - k] == u[k..];
      ValZero(r[w - k..]);
      hide *;
      RightIn(Val(a), Pow(2, shift), Pow(B, k), Val(u[..k]), Val(u[k..]), Head(a) % Pow(2, shift));
    }
  }

  lemma RightOut(x: nat, w: nat, p: nat)
    requires x < w && p > 0
    ensures x / (w * p) == 0
  {
    MulGrows(1, p, w);
    ModFrom(x, 0, w * p, x);
  }

  lemma RightIn(x: nat, p: nat, k: nat, low: nat, high: nat, r: nat)
    requires k > 0 && r < p && low < k && (low + k * high) * p + r == x
    ensures high == x / (k * p)
  {
    assert (low + k * high) * p == low * p + high * (k * p) by {
      assert (k * high) * p == high * (k * p);
    }
    assert low * p + p <= k * p by {
      MulGrows(low + 1, k, p);
      assert (low + 1) * p == low * p + p;
    }
    ModFrom(low * p + r, high, k * p, x);
  }
}
